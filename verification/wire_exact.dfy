/**
 Reading and writing TPM structures are inverse: each reader, at any offset of
 any buffer, answers exactly the canonical values whose encoding stands there.
 */
module WireExact {
  import opened Bytes
  import opened Wire

  // ---------------------------------------------------------------- primitives

  lemma ReadU16IsExact(d: bytes, c: nat, v: u16)
    ensures ReadU16(d, c) == Ok((v, c + 2)) <==> At(d, c, BE16(v))
  {
    hide BE16, GetBE16;
    if At(d, c, BE16(v)) {
      BE16At(d, c, v);
    }
    if c + 2 <= |d| {
      GetBE16At(d, c);
    }
  }

  lemma ReadU32IsExact(d: bytes, c: nat, v: u32)
    ensures ReadU32(d, c) == Ok((v, c + 4)) <==> At(d, c, BE32(v))
  {
    hide BE32, GetBE32;
    if At(d, c, BE32(v)) {
      BE32At(d, c, v);
    }
    if c + 4 <= |d| {
      GetBE32At(d, c);
    }
  }

  /** Only content of at most 65535 bytes survives its 16-bit length. */
  lemma ReadSizedIsExact(d: bytes, c: nat, x: bytes, next: nat)
    ensures ReadSized(d, c) == Ok((x, next)) <==> |x| < 0x1_0000 && At(d, c, Sized(x)) && next == c + |Sized(x)|
  {
    hide BE16, GetBE16;
    if |x| < 0x1_0000 {
      ReadU16IsExact(d, c, |x|);
      AtConcat(d, c, BE16(|x|), x);
    }
  }

  // ---------------------------------------------------------------- selections and digest lists

  /** What `unmarshal` can answer: the bytes not selected are zero. */
  predicate SelectionCanonical(s: PcrSelection) {
    SelectionFits(s) && s.select == PadSelect(s.select[..s.sizeOfSelect])
  }

  predicate SelectionsCanonical(sels: seq<PcrSelection>) {
    sels == [] || (SelectionCanonical(sels[0]) && SelectionsCanonical(sels[1..]))
  }

  lemma {:induction false} CanonicalFits(sels: seq<PcrSelection>)
    requires SelectionsCanonical(sels)
    ensures SelectionsFit(sels)
    decreases |sels|
  {
    if sels != [] {
      CanonicalFits(sels[1..]);
    }
  }

  lemma ReadSelectionIsExact(d: bytes, c: nat, s: PcrSelection, next: nat)
    ensures ReadSelection(d, c) == Ok((s, next)) <==>
            SelectionCanonical(s) && At(d, c, MarshalSelection(s)) && next == c + |MarshalSelection(s)|
  {
    hide BE16, GetBE16;
    if SelectionFits(s) {
      var x := s.select[..s.sizeOfSelect];
      AtConcat(d, c, BE16(s.hashAlg), [s.sizeOfSelect] + x);
      AtConcat(d, c + 2, [s.sizeOfSelect], x);
      ReadU16IsExact(d, c, s.hashAlg);
      if c + 3 <= |d| {
        assert d[c + 2..c + 3] == [d[c + 2]];
      }
      if c + 3 + |x| <= |d| {
        assert PadSelect(x)[..|x|] == x;
        assert PadSelect(d[c + 3..c + 3 + |x|])[..|x|] == d[c + 3..c + 3 + |x|];
      }
    }
  }

  lemma {:induction false} ReadEachIsExact(d: bytes, c: nat, sels: seq<PcrSelection>, next: nat)
    ensures ReadEach(d, c, |sels|) == Ok((sels, next)) && c <= |d| <==>
            SelectionsCanonical(sels) && SelectionsFit(sels) &&
            At(d, c, MarshalEach(sels)) && next == c + |MarshalEach(sels)|
    decreases |sels|
  {
    hide ReadSelection, MarshalSelection, SelectionCanonical;
    if sels != [] {
      var p := c + if SelectionFits(sels[0]) then |MarshalSelection(sels[0])| else 0;
      ReadSelectionIsExact(d, c, sels[0], p);
      ReadEachIsExact(d, p, sels[1..], next);
      if SelectionsFit(sels) {
        AtConcat(d, c, MarshalSelection(sels[0]), MarshalEach(sels[1..]));
      }
      assert sels == [sels[0]] + sels[1..];
      if ReadSelection(d, c).Ok? {
        ReadSelectionIsExact(d, c, ReadSelection(d, c).value.0, ReadSelection(d, c).value.1);
      }
    }
  }

  lemma {:induction false} ReadSelectionsIsExact(d: bytes, c: nat, sels: seq<PcrSelection>, next: nat)
    requires |sels| < 0x1_0000_0000
    ensures ReadSelections(d, c) == Ok((sels, next)) <==>
            SelectionsCanonical(sels) && SelectionsFit(sels) &&
            At(d, c, MarshalSelections(sels)) && next == c + |MarshalSelections(sels)|
  {
    hide BE32, GetBE32, ReadEach, MarshalEach, SelectionsCanonical;
    ReadU32IsExact(d, c, |sels|);
    ReadEachIsExact(d, c + 4, sels, next);
    if SelectionsFit(sels) {
      AtConcat(d, c, BE32(|sels|), MarshalEach(sels));
    }
  }

  predicate AllSized(ds: seq<bytes>) {
    forall i | 0 <= i < |ds| :: |ds[i]| < 0x1_0000
  }

  lemma {:induction false} ReadDigestsIsExact(d: bytes, c: nat, ds: seq<bytes>, next: nat)
    requires c <= |d|
    ensures ReadDigests(d, c, |ds|) == Ok((ds, next)) <==>
            AllSized(ds) && At(d, c, MarshalDigests(ds)) && next == c + |MarshalDigests(ds)|
    decreases |ds|
  {
    hide ReadSized, Sized;
    if ds != [] {
      var p := c + |Sized(ds[0])|;
      ReadSizedIsExact(d, c, ds[0], p);
      AtConcat(d, c, Sized(ds[0]), MarshalDigests(ds[1..]));
      assert ds == [ds[0]] + ds[1..];
      assert AllSized(ds) <==> |ds[0]| < 0x1_0000 && AllSized(ds[1..]) by {
        assert forall i | 0 < i < |ds| :: ds[i] == ds[1..][i - 1];
      }
      if p <= |d| {
        ReadDigestsIsExact(d, p, ds[1..], next);
      }
      if ReadSized(d, c).Ok? {
        ReadSizedIsExact(d, c, ReadSized(d, c).value.0, ReadSized(d, c).value.1);
      }
    }
  }

  lemma ReadDigestListIsExact(d: bytes, c: nat, ds: seq<bytes>, next: nat)
    requires |ds| < 0x1_0000_0000
    ensures ReadDigestList(d, c) == Ok((ds, next)) <==>
            AllSized(ds) && At(d, c, MarshalDigestList(ds)) && next == c + |MarshalDigestList(ds)|
  {
    hide BE32, GetBE32, ReadDigests, MarshalDigests;
    ReadU32IsExact(d, c, |ds|);
    AtConcat(d, c, BE32(|ds|), MarshalDigests(ds));
    if c + 4 <= |d| {
      ReadDigestsIsExact(d, c + 4, ds, next);
    }
  }

  // ---------------------------------------------------------------- public areas

  /** An unknown scheme keeps its identifier and nothing else. */
  predicate SchemeCanonical(s: RsaScheme) {
    s.OtherScheme? ==> s.rest == [] && s.id != ALG_NULL && s.id != ALG_RSASSA
  }

  /** The null algorithm has neither key size nor mode. */
  predicate SymCanonical(s: SymDefObject) {
    s.alg == ALG_NULL ==> s.keyBits == 0 && s.mode == 0
  }

  predicate PublicCanonical(p: TpmtPublic) {
    |p.authPolicy| < 0x1_0000 && SymCanonical(p.symmetric) && SchemeCanonical(p.scheme) && |p.unique| < 0x1_0000
  }

  lemma ReadSchemeIsExact(d: bytes, c: nat, s: RsaScheme, next: nat)
    ensures ReadScheme(d, c) == Ok((s, next)) <==>
            SchemeCanonical(s) && At(d, c, MarshalScheme(s)) && next == c + |MarshalScheme(s)|
  {
    hide BE16, GetBE16;
    match s
    case NullScheme =>
      ReadU16IsExact(d, c, ALG_NULL);
    case Rsassa(hash) =>
      ReadU16IsExact(d, c, ALG_RSASSA);
      ReadU16IsExact(d, c + 2, hash);
      AtConcat(d, c, BE16(ALG_RSASSA), BE16(hash));
    case OtherScheme(id, rest) =>
      ReadU16IsExact(d, c, id);
      AtConcat(d, c, BE16(id), rest);
  }

  lemma ReadSymIsExact(d: bytes, c: nat, s: SymDefObject, next: nat)
    ensures ReadSym(d, c) == Ok((s, next)) <==>
            SymCanonical(s) && At(d, c, MarshalSym(s)) && next == c + |MarshalSym(s)|
  {
    hide BE16, GetBE16;
    ReadU16IsExact(d, c, s.alg);
    if s.alg == ALG_NULL {
      assert BE16(s.alg) + [] == BE16(s.alg);
    } else {
      ReadU16IsExact(d, c + 2, s.keyBits);
      ReadU16IsExact(d, c + 4, s.mode);
      AtConcat(d, c, BE16(s.alg), BE16(s.keyBits) + BE16(s.mode));
      AtConcat(d, c + 2, BE16(s.keyBits), BE16(s.mode));
    }
  }

  /** The six fields up to and including the scheme, and the three after it. */
  ghost predicate PublicHeadAt(d: bytes, c: nat, p: TpmtPublic, end: nat) {
    var c4 := c + 8 + |Sized(p.authPolicy)|;
    var c5 := c4 + |MarshalSym(p.symmetric)|;
    At(d, c, BE16(p.typeAlg)) && At(d, c + 2, BE16(p.nameAlg)) && At(d, c + 4, BE32(p.objectAttributes)) &&
    At(d, c + 8, Sized(p.authPolicy)) && At(d, c4, MarshalSym(p.symmetric)) &&
    At(d, c5, MarshalScheme(p.scheme)) && end == c5 + |MarshalScheme(p.scheme)|
  }

  lemma PublicParts(d: bytes, c: nat, p: TpmtPublic, mid: nat, next: nat)
    requires mid == c + 8 + |Sized(p.authPolicy)| + |MarshalSym(p.symmetric)| + |MarshalScheme(p.scheme)|
    requires next == mid + 6 + |Sized(p.unique)|
    ensures next == c + |MarshalPublic(p)|
    ensures At(d, c, MarshalPublic(p)) <==>
            PublicHeadAt(d, c, p, mid) &&
            At(d, mid, BE16(p.keyBits)) && At(d, mid + 2, BE32(p.exponent)) && At(d, mid + 6, Sized(p.unique))
  {
    hide BE16, BE32, Sized, MarshalSym, MarshalScheme, At;
    var t8 := Sized(p.unique);
    var t7 := BE32(p.exponent) + t8;
    var t6 := BE16(p.keyBits) + t7;
    var t5 := MarshalScheme(p.scheme) + t6;
    var t4 := MarshalSym(p.symmetric) + t5;
    var t3 := Sized(p.authPolicy) + t4;
    var t2 := BE32(p.objectAttributes) + t3;
    var t1 := BE16(p.nameAlg) + t2;
    AtConcat(d, c, BE16(p.typeAlg), t1);
    AtConcat(d, c + 2, BE16(p.nameAlg), t2);
    AtConcat(d, c + 4, BE32(p.objectAttributes), t3);
    AtConcat(d, c + 8, Sized(p.authPolicy), t4);
    AtConcat(d, c + 8 + |Sized(p.authPolicy)|, MarshalSym(p.symmetric), t5);
    AtConcat(d, c + 8 + |Sized(p.authPolicy)| + |MarshalSym(p.symmetric)|, MarshalScheme(p.scheme), t6);
    AtConcat(d, mid, BE16(p.keyBits), t7);
    AtConcat(d, mid + 2, BE32(p.exponent), t8);
  }

  /** The reader's answer for each field, if they all are as `p` says. */
  ghost predicate PublicFieldsRead(d: bytes, c: nat, p: TpmtPublic, next: nat) {
    var c4 := c + 8 + |Sized(p.authPolicy)|;
    var c5 := c4 + |MarshalSym(p.symmetric)|;
    var mid := c5 + |MarshalScheme(p.scheme)|;
    ReadU16(d, c) == Ok((p.typeAlg, c + 2)) && ReadU16(d, c + 2) == Ok((p.nameAlg, c + 4)) &&
    ReadU32(d, c + 4) == Ok((p.objectAttributes, c + 8)) && ReadSized(d, c + 8) == Ok((p.authPolicy, c4)) &&
    ReadSym(d, c4) == Ok((p.symmetric, c5)) && ReadScheme(d, c5) == Ok((p.scheme, mid)) &&
    ReadU16(d, mid) == Ok((p.keyBits, mid + 2)) && ReadU32(d, mid + 2) == Ok((p.exponent, mid + 6)) &&
    ReadSized(d, mid + 6) == Ok((p.unique, next)) && next == mid + 6 + |Sized(p.unique)|
  }

  lemma PublicFieldsStand(d: bytes, c: nat, p: TpmtPublic, next: nat)
    ensures PublicFieldsRead(d, c, p, next) <==>
            PublicCanonical(p) && At(d, c, MarshalPublic(p)) && next == c + |MarshalPublic(p)|
  {
    hide BE16, BE32, At, Sized, MarshalSym, MarshalScheme, ReadSized, ReadSym, ReadScheme, MarshalPublic, ReadU16,
         ReadU32, SymCanonical, SchemeCanonical;
    var c4 := c + 8 + |Sized(p.authPolicy)|;
    var c5 := c4 + |MarshalSym(p.symmetric)|;
    var mid := c5 + |MarshalScheme(p.scheme)|;
    var end := mid + 6 + |Sized(p.unique)|;
    PublicParts(d, c, p, mid, end);
    ReadU16IsExact(d, c, p.typeAlg);
    ReadU16IsExact(d, c + 2, p.nameAlg);
    ReadU32IsExact(d, c + 4, p.objectAttributes);
    ReadSizedIsExact(d, c + 8, p.authPolicy, c4);
    ReadSymIsExact(d, c4, p.symmetric, c5);
    ReadSchemeIsExact(d, c5, p.scheme, mid);
    ReadU16IsExact(d, mid, p.keyBits);
    ReadU32IsExact(d, mid + 2, p.exponent);
    ReadSizedIsExact(d, mid + 6, p.unique, end);
  }

  /** TPMT_PUBLIC: `unmarshal` answers exactly the canonical public areas whose encoding stands at the cursor. */
  lemma ReadPublicIsExact(d: bytes, c: nat, p: TpmtPublic, next: nat)
    ensures ReadPublic(d, c) == Ok((p, next)) <==>
            PublicCanonical(p) && At(d, c, MarshalPublic(p)) && next == c + |MarshalPublic(p)|
  {
    hide GetBE16, GetBE32, At, Sized, MarshalSym, MarshalScheme, ReadSized, ReadSym, ReadScheme, MarshalPublic,
         PublicCanonical;
    PublicFieldsStand(d, c, p, next);
    if ReadPublic(d, c) == Ok((p, next)) {
      PublicCursors(d, c);
    }
  }

  /** Where each field of a public area that was read ends. */
  lemma PublicCursors(d: bytes, c: nat)
    requires ReadPublic(d, c).Ok?
    ensures var p := ReadPublic(d, c).value.0;
            var c4 := c + 8 + |Sized(p.authPolicy)|;
            var c5 := c4 + |MarshalSym(p.symmetric)|;
            var mid := c5 + |MarshalScheme(p.scheme)|;
            ReadSized(d, c + 8) == Ok((p.authPolicy, c4)) && ReadSym(d, c4) == Ok((p.symmetric, c5)) &&
            ReadScheme(d, c5) == Ok((p.scheme, mid)) &&
            ReadSized(d, mid + 6) == Ok((p.unique, mid + 6 + |Sized(p.unique)|))
  {
    hide BE16, BE32, GetBE16, GetBE32, Sized, MarshalSym, MarshalScheme, ReadSized, ReadSym, ReadScheme,
         SymCanonical, SchemeCanonical;
    var c4 := ReadSized(d, c + 8).value.1;
    var c5 := ReadSym(d, c4).value.1;
    var mid := ReadScheme(d, c5).value.1;
    ReadSizedIsExact(d, c + 8, ReadSized(d, c + 8).value.0, c4);
    ReadSymIsExact(d, c4, ReadSym(d, c4).value.0, c5);
    ReadSchemeIsExact(d, c5, ReadScheme(d, c5).value.0, mid);
    ReadSizedIsExact(d, mid + 6, ReadSized(d, mid + 6).value.0, ReadSized(d, mid + 6).value.1);
  }

  /**
   TPM2B_PUBLIC at any offset of any buffer: the marshalled area comes back, with the cursor just
   behind it, exactly when it is canonical and no longer than its size field can say.
   */
  lemma Public2BRoundTrip(pre: bytes, p: TpmtPublic, post: bytes)
    ensures var e := Sized(MarshalPublic(p));
            ReadPublic2B(pre + e + post, |pre|) == Ok((p, |pre| + |e|)) <==>
            PublicCanonical(p) && |MarshalPublic(p)| < 0x1_0000
  {
    hide BE16, GetBE16, MarshalPublic, ReadPublic, PublicCanonical;
    var inner := MarshalPublic(p);
    var d := pre + Sized(inner) + post;
    AtInside(pre, Sized(inner), post);
    AtConcat(d, |pre|, BE16(|inner|), inner);
    var size := |inner| % 0x1_0000;
    BE16Wraps(|inner|);
    ReadU16IsExact(d, |pre|, size);
    ReadPublicIsExact(d, |pre| + 2, p, |pre| + 2 + |inner|);
    if ReadPublic(d, |pre| + 2).Ok? && ReadPublic(d, |pre| + 2).value.0 == p {
      ReadPublicIsExact(d, |pre| + 2, p, ReadPublic(d, |pre| + 2).value.1);
    }
  }

  /**
   `Tpm2bPublic::unmarshal` on any buffer: it answers the canonical area whose encoding stands behind the size, and
   sets the cursor by the size, which must lie in the buffer; it does not hold the two against each other.
   */
  lemma Public2BIsExact(d: bytes, c: nat, p: TpmtPublic, next: nat)
    ensures ReadPublic2B(d, c) == Ok((p, next)) <==>
            c + 2 <= |d| && next == c + 2 + BigEndian(d[c..c + 2]) <= |d| &&
            PublicCanonical(p) && At(d, c + 2, MarshalPublic(p))
  {
    hide GetBE16, BigEndian, MarshalPublic, ReadPublic, PublicCanonical;
    ReadersAreBigEndian(d, c);
    ReadPublicIsExact(d, c + 2, p, c + 2 + |MarshalPublic(p)|);
    if ReadPublic(d, c + 2).Ok? {
      ReadPublicIsExact(d, c + 2, ReadPublic(d, c + 2).value.0, ReadPublic(d, c + 2).value.1);
    }
  }

  lemma BE16Wraps(v: nat)
    ensures BE16(v) == BE16(v % 0x1_0000)
  {
    assert v / 0x100 == 0x100 * (v / 0x1_0000) + v % 0x1_0000 / 0x100;
  }

  // ---------------------------------------------------------------- points and signatures

  lemma ReadPointIsExact(d: bytes, c: nat, p: EccPoint, next: nat)
    ensures ReadPoint(d, c) == Ok((p, next)) <==>
            |p.x| < 0x1_0000 && |p.y| < 0x1_0000 && At(d, c, MarshalPoint(p)) && next == c + |MarshalPoint(p)|
  {
    hide Sized, ReadSized;
    var c1 := c + |Sized(p.x)|;
    AtConcat(d, c, Sized(p.x), Sized(p.y));
    ReadSizedIsExact(d, c, p.x, c1);
    ReadSizedIsExact(d, c1, p.y, c1 + |Sized(p.y)|);
    if ReadPoint(d, c) == Ok((p, next)) {
      ReadSizedIsExact(d, c, p.x, ReadSized(d, c).value.1);
      ReadSizedIsExact(d, c1, p.y, next);
    }
  }

  /** The signatures that come back: of a known scheme, with parts that their lengths can say. */
  predicate SignatureCanonical(s: Signature) {
    match s
    case RsassaSig(_, sig) => |sig| < 0x1_0000
    case EcdsaSig(_, r, s) => |r| < 0x1_0000 && |s| < 0x1_0000
    case NullSig => true
    case OtherRaw(_) => false
  }

  lemma RsassaIsExact(d: bytes, c: nat, hashAlg: u16, sig: bytes, next: nat)
    ensures ReadSignature(d, c) == Ok((RsassaSig(hashAlg, sig), next)) <==>
            |sig| < 0x1_0000 && At(d, c, MarshalSignature(RsassaSig(hashAlg, sig))) && next == c + 6 + |sig|
  {
    hide BE16, GetBE16, Sized, ReadSized;
    AtConcat(d, c, BE16(ALG_RSASSA), BE16(hashAlg) + Sized(sig));
    AtConcat(d, c + 2, BE16(hashAlg), Sized(sig));
    ReadU16IsExact(d, c, ALG_RSASSA);
    ReadU16IsExact(d, c + 2, hashAlg);
    ReadSizedIsExact(d, c + 4, sig, next);
  }

  lemma EcdsaIsExact(d: bytes, c: nat, hashAlg: u16, r: bytes, s: bytes, next: nat)
    ensures ReadSignature(d, c) == Ok((EcdsaSig(hashAlg, r, s), next)) <==>
            |r| < 0x1_0000 && |s| < 0x1_0000 && At(d, c, MarshalSignature(EcdsaSig(hashAlg, r, s))) &&
            next == c + 8 + |r| + |s|
  {
    hide BE16, GetBE16, Sized, ReadSized, At;
    AtConcat(d, c, BE16(ALG_ECDSA), BE16(hashAlg) + (Sized(r) + Sized(s)));
    AtConcat(d, c + 2, BE16(hashAlg), Sized(r) + Sized(s));
    AtConcat(d, c + 4, Sized(r), Sized(s));
    ReadU16IsExact(d, c, ALG_ECDSA);
    ReadU16IsExact(d, c + 2, hashAlg);
    ReadSizedIsExact(d, c + 4, r, c + 6 + |r|);
    ReadSizedIsExact(d, c + 6 + |r|, s, next);
  }

  lemma NullSigIsExact(d: bytes, c: nat, next: nat)
    ensures ReadSignature(d, c) == Ok((NullSig, next)) <==> At(d, c, MarshalSignature(NullSig)) && next == c + 2
  {
    hide BE16, GetBE16, Sized, ReadSized;
    ReadU16IsExact(d, c, ALG_NULL);
  }

  /** A signature of any other scheme is answered as the rest of the buffer, without its scheme. */
  lemma OtherRawIsExact(d: bytes, c: nat, raw: bytes, next: nat)
    ensures ReadSignature(d, c) == Ok((OtherRaw(raw), next)) <==>
            c + 2 <= |d| && BigEndian(d[c..c + 2]) !in {0x0014, 0x0018, 0x0010} && raw == d[c + 2..] && next == |d|
  {
    hide GetBE16, BigEndian, ReadSized;
    ReadersAreBigEndian(d, c);
  }

  /** TPMT_SIGNATURE at any offset of any buffer comes back exactly when its scheme is RSASSA, ECDSA or null. */
  lemma SignatureRoundTrip(pre: bytes, s: Signature, post: bytes)
    ensures var e := MarshalSignature(s);
            ReadSignature(pre + e + post, |pre|) == Ok((s, |pre| + |e|)) <==> SignatureCanonical(s)
  {
    hide BE16, GetBE16, ReadSized, Sized;
    var e := MarshalSignature(s);
    var d := pre + e + post;
    AtInside(pre, e, post);
    match s
    case RsassaSig(hashAlg, sig) => RsassaIsExact(d, |pre|, hashAlg, sig, |pre| + 6 + |sig|);
    case EcdsaSig(hashAlg, r, t) => EcdsaIsExact(d, |pre|, hashAlg, r, t, |pre| + 8 + |r| + |t|);
    case NullSig => NullSigIsExact(d, |pre|, |pre| + 2);
    case OtherRaw(raw) =>
      // The rest of the buffer is taken without the two scheme bytes, so the cursor or the length is off.
  }

  // ---------------------------------------------------------------- NV public areas

  lemma MaskKeepsOtherBits(a: u32)
    ensures Masked(a) % 0x2000_0000 == a % 0x2000_0000 && Masked(a) / 0x8000_0000 == a / 0x8000_0000
    ensures Masked(a) / 0x2000_0000 % 4 == 0
    ensures Masked(a) == a <==> a / 0x2000_0000 % 4 == 0
  {
  }

  lemma NvAreaParts(d: bytes, c: nat, p: NvPublic)
    requires At(d, c, NvArea(p))
    ensures At(d, c, BE32(p.nvIndex)) && At(d, c + 4, BE16(p.nameAlg)) && At(d, c + 6, BE32(p.attributes))
    ensures At(d, c + 10, Sized(p.authPolicy)) && At(d, c + 12 + |p.authPolicy|, BE16(p.dataSize))
  {
    hide BE16, BE32;
    var t3 := Sized(p.authPolicy) + BE16(p.dataSize);
    var t2 := BE32(p.attributes) + t3;
    var t1 := BE16(p.nameAlg) + t2;
    AtConcat(d, c, BE32(p.nvIndex), t1);
    AtConcat(d, c + 4, BE16(p.nameAlg), t2);
    AtConcat(d, c + 6, BE32(p.attributes), t3);
    AtConcat(d, c + 10, Sized(p.authPolicy), BE16(p.dataSize));
  }

  lemma NvAreaIsRead(d: bytes, c: nat, p: NvPublic)
    requires At(d, c, NvArea(p)) && |p.authPolicy| < 0x1_0000
    ensures ReadNvInner(d, c) == Ok(p)
  {
    hide BE16, BE32, GetBE16, GetBE32, NvArea, ReadSized;
    NvAreaParts(d, c, p);
    ReadU32IsExact(d, c, p.nvIndex);
    ReadU16IsExact(d, c + 4, p.nameAlg);
    ReadU32IsExact(d, c + 6, p.attributes);
    ReadSizedIsExact(d, c + 10, p.authPolicy, c + 12 + |p.authPolicy|);
    ReadU16IsExact(d, c + 12 + |p.authPolicy|, p.dataSize);
  }

  /** An NV public area and the name behind it are read as they were sent. */
  lemma NvPublicIsRead(d: bytes, c: nat, p: NvPublic, name: bytes)
    requires |NvArea(p)| < 0x1_0000 && |name| < 0x1_0000
    requires At(d, c, Sized(NvArea(p)) + Sized(name))
    ensures ReadNvPublic(d, c) == Ok(((p, name), c + |Sized(NvArea(p))| + |Sized(name)|))
  {
    hide BE16, GetBE16, NvArea, ReadNvInner, ReadSized;
    var inner := NvArea(p);
    AtConcat(d, c, Sized(inner), Sized(name));
    AtConcat(d, c, BE16(|inner|), inner);
    ReadU16IsExact(d, c, |inner|);
    ReadSizedIsExact(d, c + 2 + |inner|, name, c + 2 + |inner| + 2 + |name|);
    NvAreaIsRead(d, c + 2, p);
  }

  /** Where the buffer ends behind the area there is no name. */
  lemma NvPublicWithoutName(d: bytes, c: nat, p: NvPublic)
    requires |NvArea(p)| < 0x1_0000 && At(d, c, Sized(NvArea(p))) && |d| < c + |Sized(NvArea(p))| + 2
    ensures ReadNvPublic(d, c) == Ok(((p, []), c + |Sized(NvArea(p))|))
  {
    hide BE16, GetBE16, NvArea, ReadNvInner;
    var inner := NvArea(p);
    AtConcat(d, c, BE16(|inner|), inner);
    ReadU16IsExact(d, c, |inner|);
    NvAreaIsRead(d, c + 2, p);
  }

  /** The cursor behind what was read tells the size that was read in front of it. */
  lemma NvPublicEnds(d: bytes, c: nat, p: NvPublic, name: bytes, next: nat)
    requires ReadNvPublic(d, c) == Ok(((p, name), next))
    ensures |name| < 0x1_0000 && c + 2 <= |d|
    ensures next == c + 4 + GetBE16(d, c) + |name| || (name == [] && next == c + 2 + GetBE16(d, c))
  {
    hide GetBE16, ReadNvInner, ReadSized;
    var end := c + 2 + GetBE16(d, c);
    ReadSizedIsExact(d, end, name, end + 2 + |name|);
  }

  /**
   What the client marshals, with a name behind it, comes back at any offset of any buffer with bits 29 and 30
   of the attributes cleared, and with the cursor behind it, exactly when both lengths fit their sixteen bits.
   So it comes back unchanged exactly when those bits were clear.
   */
  lemma NvPublicRoundTrip(pre: bytes, p: NvPublic, name: bytes, post: bytes)
    ensures var e := MarshalNvPublic(p) + Sized(name);
            var sent := p.(attributes := Masked(p.attributes));
            (ReadNvPublic(pre + e + post, |pre|) == Ok(((sent, name), |pre| + |e|)) <==>
             |p.authPolicy| + 14 < 0x1_0000 && |name| < 0x1_0000) &&
            (sent == p <==> p.attributes / 0x2000_0000 % 4 == 0)
  {
    hide NvArea, ReadNvPublic, Masked, BE16, GetBE16;
    var e := MarshalNvPublic(p) + Sized(name);
    var sent := p.(attributes := Masked(p.attributes));
    var d := pre + e + post;
    AtInside(pre, e, post);
    MaskKeepsOtherBits(p.attributes);
    var n := |NvArea(sent)|;
    if n < 0x1_0000 && |name| < 0x1_0000 {
      NvPublicIsRead(d, |pre|, sent, name);
    }
    if ReadNvPublic(d, |pre|) == Ok(((sent, name), |pre| + |e|)) {
      NvPublicEnds(d, |pre|, sent, name, |pre| + |e|);
      AtConcat(d, |pre|, Sized(NvArea(sent)), Sized(name));
      AtConcat(d, |pre|, BE16(n), NvArea(sent));
      BE16Wraps(n);
      BE16At(d, |pre|, n % 0x1_0000);
    }
  }

  // ---------------------------------------------------------------- quotes

  predicate QuoteCanonical(q: Quote, k: QuoteContext) {
    SelectionsCanonical(q.selections) && SelectionsFit(q.selections) && |q.selections| < 0x1_0000_0000 &&
    |q.pcrDigest| < 0x1_0000 && |q.extraData| < 0x1_0000 &&
    |k.signer| < 0x1_0000 && |k.clockInfo| == 17 && |k.firmware| == 8
  }

  lemma QuoteParts(d: bytes, q: Quote, k: QuoteContext)
    requires QuoteCanonical(q, k)
    ensures var c4 := 6 + |Sized(k.signer)| + |Sized(q.extraData)|;
            var c7 := c4 + 25 + |MarshalSelections(q.selections)|;
            At(d, 0, MarshalQuote(q, k)) <==>
            At(d, 0, BE32(k.magic)) && At(d, 4, BE16(ATTEST_QUOTE)) && At(d, 6, Sized(k.signer)) &&
            At(d, 6 + |Sized(k.signer)|, Sized(q.extraData)) &&
            At(d, c4, k.clockInfo) && At(d, c4 + 17, k.firmware) &&
            At(d, c4 + 25, MarshalSelections(q.selections)) && At(d, c7, Sized(q.pcrDigest))
  {
    hide BE16, BE32, Sized, MarshalSelections, SelectionsCanonical, SelectionsFit, At;
    var t6 := MarshalSelections(q.selections) + Sized(q.pcrDigest);
    var t5 := k.firmware + t6;
    var t4 := k.clockInfo + t5;
    var t3 := Sized(q.extraData) + t4;
    var t2 := Sized(k.signer) + t3;
    var t1 := BE16(ATTEST_QUOTE) + t2;
    var c3 := 6 + |Sized(k.signer)|;
    var c4 := c3 + |Sized(q.extraData)|;
    AtConcat(d, 0, BE32(k.magic), t1);
    AtConcat(d, 4, BE16(ATTEST_QUOTE), t2);
    AtConcat(d, 6, Sized(k.signer), t3);
    AtConcat(d, c3, Sized(q.extraData), t4);
    AtConcat(d, c4, k.clockInfo, t5);
    AtConcat(d, c4 + 17, k.firmware, t6);
    AtConcat(d, c4 + 25, MarshalSelections(q.selections), Sized(q.pcrDigest));
  }

  lemma QuoteIsRead(d: bytes, q: Quote, k: QuoteContext)
    requires QuoteCanonical(q, k) && At(d, 0, MarshalQuote(q, k))
    ensures ReadQuote(d) == Ok(q)
  {
    hide BE16, BE32, GetBE16, GetBE32, Sized, ReadSized, MarshalSelections, SelectionsCanonical, SelectionsFit,
         ReadSelections, MarshalQuote;
    QuoteParts(d, q, k);
    var c3 := 6 + |Sized(k.signer)|;
    var c4 := c3 + |Sized(q.extraData)|;
    var c7 := c4 + 25 + |MarshalSelections(q.selections)|;
    ReadU32IsExact(d, 0, k.magic);
    ReadU16IsExact(d, 4, ATTEST_QUOTE);
    ReadSizedIsExact(d, 6, k.signer, c3);
    ReadSizedIsExact(d, c3, q.extraData, c4);
    ReadSelectionsIsExact(d, c4 + 25, q.selections, c7);
    ReadSizedIsExact(d, c7, q.pcrDigest, c7 + |Sized(q.pcrDigest)|);
  }

  ghost predicate QuoteStands(d: bytes, q: Quote, k: QuoteContext) {
    QuoteCanonical(q, k) && At(d, 0, MarshalQuote(q, k))
  }

  lemma ReadQuoteIsSound(d: bytes) returns (k: QuoteContext)
    requires ReadQuote(d).Ok?
    ensures QuoteStands(d, ReadQuote(d).value, k)
  {
    hide BE16, BE32, GetBE16, GetBE32, Sized, ReadSized, MarshalSelections, SelectionsCanonical, SelectionsFit,
         ReadSelections, MarshalQuote;
    var q := ReadQuote(d).value;
    var (signer, c3) := ReadSized(d, 6).value;
    var (extra, c4) := ReadSized(d, c3).value;
    var (sels, c7) := ReadSelections(d, c4 + 25).value;
    k := QuoteContext(GetBE32(d, 0), signer, d[c4..c4 + 17], d[c4 + 17..c4 + 25]);
    ReadU32IsExact(d, 0, k.magic);
    ReadU16IsExact(d, 4, ATTEST_QUOTE);
    ReadSizedIsExact(d, 6, signer, c3);
    ReadSizedIsExact(d, c3, extra, c4);
    SelectionsCount(d, c4 + 25);
    ReadSelectionsIsExact(d, c4 + 25, sels, c7);
    ReadSizedIsExact(d, c7, q.pcrDigest, ReadSized(d, c7).value.1);
    QuoteParts(d, q, k);
  }

  lemma SelectionsCount(d: bytes, c: nat)
    requires ReadSelections(d, c).Ok?
    ensures |ReadSelections(d, c).value.0| < 0x1_0000_0000
  {
    hide ReadEach, GetBE32;
  }

  /**
   `parse_quote_attestation` recovers a quote exactly when its body begins with an encoding of it, whatever is
   passed over.
   */
  lemma ReadQuoteIsExact(d: bytes, q: Quote)
    ensures ReadQuote(d) == Ok(q) <==> exists k :: QuoteStands(d, q, k)
  {
    hide ReadQuote, QuoteCanonical, MarshalQuote;
    if ReadQuote(d) == Ok(q) {
      var k := ReadQuoteIsSound(d);
    }
    if k :| QuoteStands(d, q, k) {
      QuoteIsRead(d, q, k);
    }
  }
}
