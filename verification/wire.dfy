/**
 TPM structures on the wire (TPM 2.0 Library, Part 2): what each `marshal`
 appends, and each `unmarshal` as a function of a buffer and a cursor. The
 unmarshalling loops are methods.
 */
module Wire {
  import opened Bytes
  import opened Errors

  const ALG_NULL: u16 := 0x0010
  const ALG_RSASSA: u16 := 0x0014
  const ALG_ECDSA: u16 := 0x0018
  const ATTEST_QUOTE: u16 := 0x8018

  // ---------------------------------------------------------------- primitives

  function ReadU8(d: bytes, c: nat): (r: Result<(byte, nat), Error>)
    ensures r.Ok? ==> r.value.1 == c + 1 <= |d|
  {
    if c + 1 > |d| then Err(UnexpectedEof) else Ok((d[c], c + 1))
  }

  function ReadU16(d: bytes, c: nat): (r: Result<(u16, nat), Error>)
    ensures r.Ok? ==> r.value.1 == c + 2 <= |d|
  {
    if c + 2 > |d| then Err(UnexpectedEof) else Ok((GetBE16(d, c), c + 2))
  }

  function ReadU32(d: bytes, c: nat): (r: Result<(u32, nat), Error>)
    ensures r.Ok? ==> r.value.1 == c + 4 <= |d|
  {
    if c + 4 > |d| then Err(UnexpectedEof) else Ok((GetBE32(d, c), c + 4))
  }

  function Take(d: bytes, c: nat, n: nat): (r: Result<(bytes, nat), Error>)
    ensures r.Ok? ==> r.value.1 == c + n <= |d| && |r.value.0| == n
  {
    if c + n > |d| then Err(UnexpectedEof) else Ok((d[c..c + n], c + n))
  }

  /** A TPM2B: its length in two bytes, cut to sixteen bits, and its content. */
  function Sized(x: bytes): (r: bytes)
    ensures |r| == 2 + |x|
  {
    BE16(|x|) + x
  }

  function ReadSized(d: bytes, c: nat): (r: Result<(bytes, nat), Error>)
    ensures r.Ok? ==> r.value.1 == c + 2 + |r.value.0| <= |d|
  {
    var (size, p) :- ReadU16(d, c);
    Take(d, p, size)
  }

  // ---------------------------------------------------------------- PCR selections

  datatype PcrSelection = PcrSelection(hashAlg: u16, sizeOfSelect: byte, select: bytes)

  function MarshalSelection(s: PcrSelection): bytes
    requires s.sizeOfSelect <= |s.select|
  {
    BE16(s.hashAlg) + ([s.sizeOfSelect] + s.select[..s.sizeOfSelect])
  }

  /** The selections that an array of three bytes can hold. */
  predicate SelectionFits(s: PcrSelection) {
    s.sizeOfSelect <= 3 && |s.select| == 3
  }

  predicate SelectionsFit(sels: seq<PcrSelection>) {
    sels == [] || (SelectionFits(sels[0]) && SelectionsFit(sels[1..]))
  }

  type Selections = sels: seq<PcrSelection> | SelectionsFit(sels) witness []

  function MarshalEach(sels: seq<PcrSelection>): bytes
    requires SelectionsFit(sels)
  {
    if sels == [] then [] else MarshalSelection(sels[0]) + MarshalEach(sels[1..])
  }

  function MarshalSelections(sels: seq<PcrSelection>): bytes
    requires SelectionsFit(sels)
  {
    BE32(|sels|) + MarshalEach(sels)
  }

  function PadSelect(x: bytes): (r: bytes)
    requires |x| <= 3
    ensures |r| == 3
  {
    x + seq(3 - |x|, _ => 0)
  }

  function ReadSelection(d: bytes, c: nat): (r: Result<(PcrSelection, nat), Error>)
    ensures r.Ok? ==> c < r.value.1 <= |d| && SelectionFits(r.value.0)
  {
    var (hashAlg, c1) :- ReadU16(d, c);
    var (size, c2) :- ReadU8(d, c1);
    if size > 3 then Err(InvalidData) else
    var (x, c3) :- Take(d, c2, size);
    Ok((PcrSelection(hashAlg, size, PadSelect(x)), c3))
  }

  function ReadEach(d: bytes, c: nat, n: nat): (r: Result<(seq<PcrSelection>, nat), Error>)
    ensures r.Ok? ==> c <= r.value.1 && |r.value.0| == n && SelectionsFit(r.value.0)
    decreases n
  {
    if n == 0 then Ok(([], c)) else
    var (s, c1) :- ReadSelection(d, c);
    var (rest, c2) :- ReadEach(d, c1, n - 1);
    assert ([s] + rest)[1..] == rest;
    Ok(([s] + rest, c2))
  }

  function ReadSelections(d: bytes, c: nat): (r: Result<(seq<PcrSelection>, nat), Error>)
    ensures r.Ok? ==> c <= r.value.1 && SelectionsFit(r.value.0)
  {
    var (n, c1) :- ReadU32(d, c);
    ReadEach(d, c1, n)
  }

  /** One turn of `PcrSelectionList::unmarshal`, which copies the bytes into an array of three. */
  method UnmarshalSelection(d: bytes, start: nat) returns (r: Result<(PcrSelection, nat), Error>)
    ensures r == ReadSelection(d, start)
  {
    hide GetBE16;
    var hashAlg :- ReadU16(d, start);
    var size :- ReadU8(d, start + 2);
    if size.0 > 3 {
      return Err(InvalidData);
    }
    var c := start + 3;
    if c + size.0 > |d| {
      return Err(UnexpectedEof);
    }
    var arr: bytes := [0, 0, 0];
    for k := 0 to size.0
      invariant |arr| == 3
      invariant forall j | 0 <= j < 3 :: arr[j] == if j < k then d[c + j] else 0
    {
      arr := arr[k := d[c + k]];
    }
    assert arr == PadSelect(d[c..c + size.0]);
    return Ok((PcrSelection(hashAlg.0, size.0, arr), c + size.0));
  }

  /** `PcrSelectionList::unmarshal` */
  method UnmarshalSelections(d: bytes, start: nat) returns (r: Result<(seq<PcrSelection>, nat), Error>)
    ensures r == ReadSelections(d, start)
  {
    hide GetBE32, ReadSelection;
    var count :- ReadU32(d, start);
    var c: nat, v := count.1, [];
    for i := 0 to count.0
      invariant match ReadEach(d, count.1, count.0)
                case Ok((all, end)) =>
                  var rest := ReadEach(d, c, count.0 - i);
                  rest.Ok? && all == v + rest.value.0 && end == rest.value.1
                case Err(e) => ReadEach(d, c, count.0 - i) == Err(e)
    {
      var parsed := UnmarshalSelection(d, c);
      var selection :- parsed;
      v := v + [selection.0];
      c := selection.1;
    }
    assert v + [] == v;
    return Ok((v, c));
  }

  // ---------------------------------------------------------------- digest lists

  function MarshalDigests(ds: seq<bytes>): bytes {
    if ds == [] then [] else Sized(ds[0]) + MarshalDigests(ds[1..])
  }

  function MarshalDigestList(ds: seq<bytes>): bytes {
    BE32(|ds|) + MarshalDigests(ds)
  }

  function ReadDigests(d: bytes, c: nat, n: nat): (r: Result<(seq<bytes>, nat), Error>)
    ensures r.Ok? ==> c <= r.value.1 && |r.value.0| == n
    decreases n
  {
    if n == 0 then Ok(([], c)) else
    var (x, c1) :- ReadSized(d, c);
    var (rest, c2) :- ReadDigests(d, c1, n - 1);
    Ok(([x] + rest, c2))
  }

  function ReadDigestList(d: bytes, c: nat): (r: Result<(seq<bytes>, nat), Error>)
    ensures r.Ok? ==> c <= r.value.1
  {
    var (n, c1) :- ReadU32(d, c);
    ReadDigests(d, c1, n)
  }

  /** `DigestList::unmarshal` */
  method UnmarshalDigestList(d: bytes, start: nat) returns (r: Result<(seq<bytes>, nat), Error>)
    ensures r == ReadDigestList(d, start)
  {
    hide GetBE16, GetBE32;
    var count :- ReadU32(d, start);
    var c: nat, out := count.1, [];
    for i := 0 to count.0
      invariant match ReadDigests(d, count.1, count.0)
                case Ok((all, end)) =>
                  var rest := ReadDigests(d, c, count.0 - i);
                  rest.Ok? && all == out + rest.value.0 && end == rest.value.1
                case Err(e) => ReadDigests(d, c, count.0 - i) == Err(e)
    {
      var size :- ReadU16(d, c);
      c := c + 2;
      if c + size.0 > |d| {
        return Err(UnexpectedEof);
      }
      out := out + [d[c..c + size.0]];
      c := c + size.0;
    }
    assert out + [] == out;
    return Ok((out, c));
  }

  // ---------------------------------------------------------------- public areas

  datatype RsaScheme = NullScheme | Rsassa(hash: u16) | OtherScheme(id: u16, rest: bytes)

  datatype SymDefObject = SymDefObject(alg: u16, keyBits: u16, mode: u16)

  datatype TpmtPublic = TpmtPublic(
    typeAlg: u16, nameAlg: u16, objectAttributes: u32, authPolicy: bytes,
    symmetric: SymDefObject, scheme: RsaScheme, keyBits: u16, exponent: u32, unique: bytes)

  function MarshalScheme(s: RsaScheme): bytes {
    match s
    case NullScheme => BE16(ALG_NULL)
    case Rsassa(hash) => BE16(ALG_RSASSA) + BE16(hash)
    case OtherScheme(id, rest) => BE16(id) + rest
  }

  function ReadScheme(d: bytes, c: nat): (r: Result<(RsaScheme, nat), Error>)
    ensures r.Ok? ==> c <= r.value.1 <= |d|
  {
    var (id, c1) :- ReadU16(d, c);
    if id == ALG_NULL then Ok((NullScheme, c1))
    else if id == ALG_RSASSA then
      var (hash, c2) :- ReadU16(d, c1);
      Ok((Rsassa(hash), c2))
    else Ok((OtherScheme(id, []), c1))
  }

  function MarshalSym(s: SymDefObject): bytes {
    BE16(s.alg) + if s.alg != ALG_NULL then BE16(s.keyBits) + BE16(s.mode) else []
  }

  function ReadSym(d: bytes, c: nat): (r: Result<(SymDefObject, nat), Error>)
    ensures r.Ok? ==> c <= r.value.1 <= |d|
  {
    var (alg, c1) :- ReadU16(d, c);
    if alg == ALG_NULL then Ok((SymDefObject(alg, 0, 0), c1)) else
    var (keyBits, c2) :- ReadU16(d, c1);
    var (mode, c3) :- ReadU16(d, c2);
    Ok((SymDefObject(alg, keyBits, mode), c3))
  }

  function MarshalPublic(p: TpmtPublic): bytes {
    BE16(p.typeAlg) + (BE16(p.nameAlg) + (BE32(p.objectAttributes) + (Sized(p.authPolicy) +
    (MarshalSym(p.symmetric) + (MarshalScheme(p.scheme) + (BE16(p.keyBits) + (BE32(p.exponent) + Sized(p.unique))))))))
  }

  function ReadPublic(d: bytes, c: nat): (r: Result<(TpmtPublic, nat), Error>)
  {
    var (typeAlg, c1) :- ReadU16(d, c);
    var (nameAlg, c2) :- ReadU16(d, c1);
    var (attributes, c3) :- ReadU32(d, c2);
    var (authPolicy, c4) :- ReadSized(d, c3);
    var (symmetric, c5) :- ReadSym(d, c4);
    var (scheme, c6) :- ReadScheme(d, c5);
    var (keyBits, c7) :- ReadU16(d, c6);
    var (exponent, c8) :- ReadU32(d, c7);
    var (unique, c9) :- ReadSized(d, c8);
    Ok((TpmtPublic(typeAlg, nameAlg, attributes, authPolicy, symmetric, scheme, keyBits, exponent, unique), c9))
  }

  /** `Tpm2bPublic::unmarshal`: the inner structure is not held to the size in front of it. */
  function ReadPublic2B(d: bytes, c: nat): Result<(TpmtPublic, nat), Error> {
    var (size, start) :- ReadU16(d, c);
    if start + size > |d| then Err(UnexpectedEof) else
    var (p, _) :- ReadPublic(d, start);
    Ok((p, start + size))
  }

  // ---------------------------------------------------------------- points and signatures

  datatype EccPoint = EccPoint(x: bytes, y: bytes)

  function MarshalPoint(p: EccPoint): bytes {
    Sized(p.x) + Sized(p.y)
  }

  function ReadPoint(d: bytes, c: nat): Result<(EccPoint, nat), Error> {
    var (x, c1) :- ReadSized(d, c);
    var (y, c2) :- ReadSized(d, c1);
    Ok((EccPoint(x, y), c2))
  }

  datatype Signature =
    | RsassaSig(hashAlg: u16, sig: bytes)
    | EcdsaSig(hashAlg: u16, r: bytes, s: bytes)
    | NullSig
    | OtherRaw(raw: bytes)

  function MarshalSignature(s: Signature): bytes {
    match s
    case RsassaSig(hashAlg, sig) => BE16(ALG_RSASSA) + (BE16(hashAlg) + Sized(sig))
    case EcdsaSig(hashAlg, r, s) => BE16(ALG_ECDSA) + (BE16(hashAlg) + (Sized(r) + Sized(s)))
    case NullSig => BE16(ALG_NULL)
    case OtherRaw(raw) => raw
  }

  function ReadSignature(d: bytes, c: nat): Result<(Signature, nat), Error> {
    var (scheme, c1) :- ReadU16(d, c);
    if scheme == ALG_RSASSA then
      var (hashAlg, c2) :- ReadU16(d, c1);
      var (sig, c3) :- ReadSized(d, c2);
      Ok((RsassaSig(hashAlg, sig), c3))
    else if scheme == ALG_ECDSA then
      var (hashAlg, c2) :- ReadU16(d, c1);
      var (r, c3) :- ReadSized(d, c2);
      var (s, c4) :- ReadSized(d, c3);
      Ok((EcdsaSig(hashAlg, r, s), c4))
    else if scheme == ALG_NULL then Ok((NullSig, c1))
    else Ok((OtherRaw(d[c1..]), |d|))
  }

  // ---------------------------------------------------------------- NV public areas

  datatype NvPublic = NvPublic(nvIndex: u32, nameAlg: u16, attributes: u32, authPolicy: bytes, dataSize: u16)

  /** The attributes with bits 29 (nv_written) and 30 (nv_platformcreate) cleared. */
  function Masked(attributes: u32): u32 {
    attributes % 0x2000_0000 + attributes / 0x8000_0000 * 0x8000_0000
  }

  /** TPMS_NV_PUBLIC as a TPM sends it. */
  function NvArea(p: NvPublic): (r: bytes)
    ensures |r| == 14 + |p.authPolicy|
  {
    BE32(p.nvIndex) + (BE16(p.nameAlg) + (BE32(p.attributes) + (Sized(p.authPolicy) + BE16(p.dataSize))))
  }

  /** `NvPublic::marshal`: with the two bits cleared that only the TPM may set. */
  function MarshalNvPublic(p: NvPublic): bytes {
    Sized(NvArea(p.(attributes := Masked(p.attributes))))
  }

  function ReadNvInner(d: bytes, c: nat): Result<NvPublic, Error> {
    if c + 12 > |d| then Err(UnexpectedEof) else
    var (nvIndex, c1) :- ReadU32(d, c);
    var (nameAlg, c2) :- ReadU16(d, c1);
    var (attributes, c3) :- ReadU32(d, c2);
    var (authPolicy, c4) :- ReadSized(d, c3);
    var (dataSize, _) :- ReadU16(d, c4);
    Ok(NvPublic(nvIndex, nameAlg, attributes, authPolicy, dataSize))
  }

  /** `NvReadPublicResponseParameters::unmarshal`: the public area, and the name if two more bytes are there. */
  function ReadNvPublic(d: bytes, c: nat): (r: Result<((NvPublic, bytes), nat), Error>)
    ensures r.Ok? ==> c <= r.value.1
  {
    var (size, start) :- ReadU16(d, c);
    if start + size > |d| then Err(UnexpectedEof) else
    var p :- ReadNvInner(d, start);
    if start + size + 2 <= |d| then
      var (name, c2) :- ReadSized(d, start + size);
      Ok(((p, name), c2))
    else
      Ok(((p, []), start + size))
  }

  // ---------------------------------------------------------------- quotes

  datatype Quote = Quote(selections: seq<PcrSelection>, pcrDigest: bytes, extraData: bytes)

  /** The parts of a quote body that the parser passes over. */
  datatype QuoteContext = QuoteContext(magic: u32, signer: bytes, clockInfo: bytes, firmware: bytes)

  function MarshalQuote(q: Quote, k: QuoteContext): bytes
    requires SelectionsFit(q.selections)
  {
    BE32(k.magic) + (BE16(ATTEST_QUOTE) + (Sized(k.signer) + (Sized(q.extraData) +
    (k.clockInfo + (k.firmware + (MarshalSelections(q.selections) + Sized(q.pcrDigest)))))))
  }

  /** `parse_quote_attestation` */
  function ReadQuote(d: bytes): Result<Quote, Error> {
    if |d| < 20 then Err(UnexpectedEof) else
    var (_, c1) :- ReadU32(d, 0);
    var (kind, c2) :- ReadU16(d, c1);
    if kind != ATTEST_QUOTE then Err(InvalidData) else
    var (_, c3) :- ReadSized(d, c2);
    var (extraData, c4) :- ReadSized(d, c3);
    var (_, c5) :- Take(d, c4, 17);
    var (_, c6) :- Take(d, c5, 8);
    var (selections, c7) :- ReadSelections(d, c6);
    var (pcrDigest, _) :- ReadSized(d, c7);
    Ok(Quote(selections, pcrDigest, extraData))
  }

  // ---------------------------------------------------------------- the cached TPM2B

  /** `Tpm2b<T>`: a structure whose prefixed encoding is built once and kept. */
  class Tpm2b<T> {
    const inner: T
    const marshal: T -> bytes
    var cached: Option<bytes>

    ghost predicate Valid()
      reads this
    {
      cached.Some? ==> cached.value == Sized(marshal(inner))
    }

    constructor (inner: T, marshal: T -> bytes)
      ensures Valid() && this.inner == inner && this.marshal == marshal && cached == None
    {
      this.inner := inner;
      this.marshal := marshal;
      cached := None;
    }

    /** `Tpm2b::bytes`: the same bytes whether or not they were kept. */
    method Bytes() returns (b: bytes)
      requires Valid()
      modifies this
      ensures Valid() && b == Sized(marshal(inner)) && cached == Some(b)
    {
      if cached.None? {
        var tmp := marshal(inner);
        cached := Some(BE16(|tmp|) + tmp);
      }
      b := cached.value;
    }
  }
}
