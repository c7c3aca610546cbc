/**
 What the client reads out of responses, on any bytes a device may answer: each value is answered exactly when the
 response is whole and holds its encoding.
 */
module Responses {
  import opened Bytes
  import opened Wire
  import opened WireExact
  import opened PcrBitmap
  import opened Framing
  import opened Commands

  /** PolicyGetDigest: of at least fourteen bytes, one sized value. */
  lemma DigestResponsesAreExact(d: bytes, x: bytes)
    ensures Parsed(LongEnough(Ok(d)), ReadSized) == Ok(x) <==>
            |d| >= 14 && HeaderTaken(d) && SizedParamsAt(d, 10, BigEndian(d[0..2]), x)
  {
    hide FromBytes, HeaderTaken, SizedParamsAt, ReadSized, BigEndian;
    SizedResponsesAreExact(d, x);
  }

  ghost predicate NonceFollows(d: bytes, tag: nat) {
    exists nonce :: SizedParamsAt(d, 14, tag, nonce)
  }

  /** StartAuthSession: the handle behind the header, and behind it the TPM's nonce. */
  lemma HandleResponsesAreExact(d: bytes, h: u32)
    ensures SessionHandle(LongEnough(Ok(d))) == Ok(h) <==>
            |d| >= 14 && HeaderTaken(d) && BigEndian(d[10..14]) == h as int && NonceFollows(d, BigEndian(d[0..2]))
  {
    hide GetBE16, GetBE32, BigEndian, HeaderTaken, ReadParams, ReadSized, SizedParamsAt, ParseHeader;
    HeaderTakenExactly(d);
    ReadersAreBigEndian(d, 10);
    if ParseHeader(d).Ok? {
      var tag := ParseHeader(d).value;
      var params := ReadParams(d, 14, tag, ReadSized);
      if params.Ok? {
        SizedParamsAreExact(d, 14, tag, params.value);
      }
      var number: nat := tag;
      if nonce :| SizedParamsAt(d, 14, number, nonce) {
        SizedParamsAreExact(d, 14, tag, nonce);
      }
    }
  }

  // ---------------------------------------------------------------- PCR_Read

  /** The indices of a selection are its bits, the low bit of the first octet first, whatever its number of octets. */
  lemma {:induction false} IndicesAreTheBits(s: PcrSelection, i: nat)
    requires SelectionFits(s)
    ensures forall q: nat :: q in IndicesFrom(s, i) <==> i <= q < 8 * s.sizeOfSelect && Bit(s.select[q / 8], q % 8)
    ensures forall j, k | 0 <= j < k < |IndicesFrom(s, i)| :: IndicesFrom(s, i)[j] < IndicesFrom(s, i)[k]
    decreases 24 - i
  {
    hide TestBit, Bit;
    if i < 8 * s.sizeOfSelect {
      TestBitIsBit(s.select[i / 8], i % 8);
      IndicesAreTheBits(s, i + 1);
      var rest := IndicesFrom(s, i + 1);
      forall k | 0 <= k < |rest|
        ensures rest[k] > i
      {
        assert rest[k] in rest;
      }
    }
  }

  /** The parameters of a response to PCR_Read: the update counter, the selections answered, their digests. */
  ghost predicate PcrParamsAt(d: bytes, c: nat, sels: seq<PcrSelection>, digests: seq<bytes>, next: nat) {
    SelectionsCanonical(sels) && SelectionsFit(sels) && |sels| < 0x1_0000_0000 &&
    AllSized(digests) && |digests| < 0x1_0000_0000 &&
    c + 4 <= |d| && At(d, c + 4, MarshalSelections(sels) + MarshalDigestList(digests)) &&
    next == c + 4 + |MarshalSelections(sels)| + |MarshalDigestList(digests)|
  }

  lemma PcrParamsAreExact(d: bytes, c: nat, sels: Selections, digests: seq<bytes>, next: nat)
    ensures ReadPcrParams(d, c) == Ok(((sels, digests), next)) <==> PcrParamsAt(d, c, sels, digests, next)
  {
    hide GetBE32, ReadSelections, ReadDigestList, MarshalSelections, MarshalDigestList, SelectionsCanonical, AllSized;
    var mid := c + 4 + |MarshalSelections(sels)|;
    AtConcat(d, c + 4, MarshalSelections(sels), MarshalDigestList(digests));
    if c + 4 <= |d| && ReadSelections(d, c + 4).Ok? {
      SelectionsCounted(d, c + 4);
      ReadSelectionsIsExact(d, c + 4, ReadSelections(d, c + 4).value.0, ReadSelections(d, c + 4).value.1);
      var c2 := ReadSelections(d, c + 4).value.1;
      if ReadDigestList(d, c2).Ok? {
        DigestsCounted(d, c2);
        ReadDigestListIsExact(d, c2, ReadDigestList(d, c2).value.0, ReadDigestList(d, c2).value.1);
      }
    }
    if |sels| < 0x1_0000_0000 && |digests| < 0x1_0000_0000 {
      ReadSelectionsIsExact(d, c + 4, sels, mid);
      ReadDigestListIsExact(d, mid, digests, mid + |MarshalDigestList(digests)|);
    }
  }

  lemma SelectionsCounted(d: bytes, c: nat)
    requires ReadSelections(d, c).Ok?
    ensures |ReadSelections(d, c).value.0| < 0x1_0000_0000
  {
    hide ReadEach, GetBE32;
  }

  lemma DigestsCounted(d: bytes, c: nat)
    requires ReadDigestList(d, c).Ok?
    ensures |ReadDigestList(d, c).value.0| < 0x1_0000_0000
  {
    hide ReadDigests, GetBE32;
  }

  /**
   Where the parameters of a response stand, and what they must end at: behind a session tag they have their
   size in front.
   */
  ghost predicate PcrResponse(d: bytes, sels: seq<PcrSelection>, digests: seq<bytes>, next: nat) {
    |d| >= 14 &&
    if BigEndian(d[0..2]) == 0x8002 then
      14 + BigEndian(d[10..14]) <= |d| && next == 14 + BigEndian(d[10..14]) && PcrParamsAt(d, 14, sels, digests, next)
    else PcrParamsAt(d, 10, sels, digests, next)
  }

  ghost predicate Answers(d: bytes, indices: seq<nat>, digests: seq<bytes>, sels: Selections, next: nat) {
    PcrResponse(d, sels, digests, next) && AllIndices(sels) == indices && |indices| == |digests|
  }

  /** PCR_Read: the indices of the selections answered, and as many digests; any other number is refused. */
  lemma PcrResponsesAreExact(d: bytes, indices: seq<nat>, digests: seq<bytes>)
    requires |indices| == |digests|
    ensures PcrsReturned(Ok(d)) == Ok((indices, digests)) <==>
            |d| >= 14 && HeaderTaken(d) &&
            exists sels: Selections, next: nat :: Answers(d, indices, digests, sels, next)
  {
    hide GetBE16, GetBE32, BigEndian, HeaderTaken, ReadPcrParams, PcrParamsAt, ParseHeader, AllIndices;
    HeaderTakenExactly(d);
    ReadersAreBigEndian(d, 10);
    if |d| >= 14 && ParseHeader(d).Ok? {
      var c := if ParseHeader(d).value == 0x8002 then 14 else 10;
      if ReadPcrParams(d, c).Ok? {
        var ((sels, ds), next) := ReadPcrParams(d, c).value;
        PcrParamsAreExact(d, c, sels, ds, next);
        if PcrsReturned(Ok(d)) == Ok((indices, digests)) {
          assert Answers(d, indices, digests, sels, next);
        }
      }
      if sels: Selections, next: nat :| Answers(d, indices, digests, sels, next) {
        PcrParamsAreExact(d, c, sels, digests, next);
      }
    }
  }
}
