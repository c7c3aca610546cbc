/** PCR selection bitmaps: three bytes, one bit for each of the PCRs 0 to 23. */
module PcrBitmap {
  import opened Bytes
  import opened Errors
  import opened Wire

  const PCR_COUNT := 24

  // ---------------------------------------------------------------- bits

  /** `1 << k` */
  function Pow2(k: nat): (r: nat)
    ensures r >= 1
  {
    if k == 0 then 1 else 2 * Pow2(k - 1)
  }

  /** `b & (1 << k) != 0` */
  predicate TestBit(b: nat, k: nat) {
    if k == 0 then b % 2 == 1 else TestBit(b / 2, k - 1)
  }

  /** `b | (1 << k)` */
  function SetBit(b: nat, k: nat): nat {
    if TestBit(b, k) then b else b + Pow2(k)
  }

  lemma {:induction false} SetBitSets(b: nat, k: nat, j: nat)
    ensures TestBit(SetBit(b, k), j) <==> j == k || TestBit(b, j)
    decreases k
  {
    if k > 0 && j > 0 {
      SetBitSets(b / 2, k - 1, j - 1);
    }
  }

  lemma HalfBit(b: nat, k: nat)
    requires k > 0
    ensures TestBit(b, k) <==> TestBit(b / 2, k - 1)
  {
  }

  lemma {:induction false} LowBit(b: nat)
    ensures TestBit(b, 0) <==> b % 2 == 1
  {
  }

  lemma Doubles(k: nat)
    ensures k > 0 ==> Pow2(k) == 2 * Pow2(k - 1)
    ensures k == 0 ==> Pow2(k) == 1
  {
  }

  lemma {:induction false} SetBitStaysBelow(b: nat, k: nat, n: nat)
    requires k < n && b < Pow2(n)
    ensures SetBit(b, k) < Pow2(n)
    decreases k
  {
    hide TestBit, Pow2;
    Doubles(n);
    if k > 0 {
      SetBitStaysBelow(b / 2, k - 1, n - 1);
      Doubles(k);
      HalfBit(b, k);
    } else {
      LowBit(b);
      Doubles(0);
    }
  }

  lemma ByteRange()
    ensures Pow2(8) == 0x100
  {
    assert Pow2(2) == 4;
    assert Pow2(4) == 16;
    assert Pow2(6) == 64;
  }

  lemma {:induction false} NoBitsInZero(k: nat)
    ensures !TestBit(0, k)
    decreases k
  {
    if k > 0 {
      NoBitsInZero(k - 1);
    }
  }

  /** Bit `k` of an octet, counted from the low end. */
  predicate Bit(b: byte, k: nat)
    requires k < 8
  {
    b / Weight(k) % 2 == 1
  }

  function Weight(k: nat): (r: nat)
    requires k < 8
    ensures r > 0
  {
    [1, 2, 4, 8, 16, 32, 64, 128][k]
  }

  lemma {:induction false} TestBitIsBit(b: byte, k: nat)
    requires k < 8
    ensures TestBit(b, k) <==> Bit(b, k)
    decreases k
  {
    if k > 0 {
      HalfBit(b, k);
      TestBitIsBit(b / 2, k - 1);
      HalfWeight(b, k);
    }
  }

  lemma HalfWeight(b: byte, k: nat)
    requires 0 < k < 8
    ensures b / Weight(k) == b / 2 / Weight(k - 1)
  {
    match k
    case 1 =>
    case 2 =>
    case 3 =>
    case 4 =>
    case 5 =>
    case 6 =>
    case _ =>
  }

  function One(c: bool): byte {
    if c then 1 else 0
  }

  /** The octet whose bits are the members of `s` from `8 * o` up. */
  function Octet(s: set<nat>, o: nat): byte {
    One(8 * o in s) + 2 * One(8 * o + 1 in s) + 4 * One(8 * o + 2 in s) + 8 * One(8 * o + 3 in s) +
    16 * One(8 * o + 4 in s) + 32 * One(8 * o + 5 in s) + 64 * One(8 * o + 6 in s) + 128 * One(8 * o + 7 in s)
  }

  /** The three octets of a selection (TPM 2.0 Library, Part 2, section 10.5.2): the low bit of the first is PCR 0. */
  function OctetsOf(s: set<nat>): Bitmap {
    [Octet(s, 0), Octet(s, 1), Octet(s, 2)]
  }

  lemma BitValues(b: byte)
    ensures One(Bit(b, 0)) == b % 2
    ensures One(Bit(b, 1)) == b / 2 % 2
    ensures One(Bit(b, 2)) == b / 4 % 2
    ensures One(Bit(b, 3)) == b / 8 % 2
    ensures One(Bit(b, 4)) == b / 16 % 2
    ensures One(Bit(b, 5)) == b / 32 % 2
    ensures One(Bit(b, 6)) == b / 64 % 2
    ensures One(Bit(b, 7)) == b / 128 % 2
  {
  }

  lemma OctetHasBits(s: set<nat>, o: nat, b: byte)
    requires forall k: nat | k < 8 :: Bit(b, k) <==> 8 * o + k in s
    ensures Octet(s, o) == b
  {
    hide Bit, One;
    BitValues(b);
    BitsAddUp(b);
    assert Bit(b, 0) <==> 8 * o in s;
  }

  lemma BitsAddUp(b: nat)
    requires b < 0x100
    ensures b == b % 2 + 2 * (b / 2 % 2) + 4 * (b / 4 % 2) + 8 * (b / 8 % 2) + 16 * (b / 16 % 2) +
                 32 * (b / 32 % 2) + 64 * (b / 64 % 2) + 128 * (b / 128 % 2)
  {
    assert b / 4 == b / 2 / 2 && b / 8 == b / 4 / 2 && b / 16 == b / 8 / 2;
    assert b / 32 == b / 16 / 2 && b / 64 == b / 32 / 2 && b / 128 == b / 64 / 2;
  }

  // ---------------------------------------------------------------- bitmaps

  type Bitmap = m: bytes | |m| == 3 witness [0, 0, 0]

  predicate Selected(m: Bitmap, p: nat) {
    p < PCR_COUNT && TestBit(m[p / 8], p % 8)
  }

  function WithPcr(m: Bitmap, p: nat): Bitmap {
    if p < PCR_COUNT then
      SetBitStaysBelow(m[p / 8], p % 8, 8);
      ByteRange();
      m[p / 8 := SetBit(m[p / 8], p % 8)]
    else m
  }

  function WithPcrs(m: Bitmap, pcrs: seq<u32>): Bitmap
    decreases |pcrs|
  {
    if pcrs == [] then m else WithPcrs(WithPcr(m, pcrs[0]), pcrs[1..])
  }

  function BitmapOf(pcrs: seq<u32>): Bitmap {
    WithPcrs([0, 0, 0], pcrs)
  }

  /** `PcrSelectionList::from_pcrs_with_alg`: indices over 23 are passed over. */
  method FromPcrs(pcrs: seq<u32>, hashAlg: u16) returns (r: seq<PcrSelection>)
    ensures r == SelectionOf(pcrs, hashAlg)
  {
    if pcrs == [] {
      return [];
    }
    var bitmap: Bitmap := [0, 0, 0];
    for i := 0 to |pcrs|
      invariant BitmapOf(pcrs) == WithPcrs(bitmap, pcrs[i..])
    {
      assert pcrs[i..][1..] == pcrs[i + 1..];
      var p := pcrs[i];
      if p <= 23 {
        SetBitStaysBelow(bitmap[p / 8], p % 8, 8);
        ByteRange();
        bitmap := bitmap[p / 8 := SetBit(bitmap[p / 8], p % 8)];
      }
    }
    return [PcrSelection(hashAlg, 3, bitmap)];
  }

  function SelectionOf(pcrs: seq<u32>, hashAlg: u16): seq<PcrSelection> {
    if pcrs == [] then [] else [PcrSelection(hashAlg, 3, BitmapOf(pcrs))]
  }

  /** `build_pcr_bitmap`: an index over 23 is an error. */
  method BuildPcrBitmap(pcrs: seq<u32>) returns (r: Result<Bitmap, Error>)
    ensures r == if forall p | p in pcrs :: p < PCR_COUNT then Ok(BitmapOf(pcrs)) else Err(InvalidInput)
  {
    var bitmap: Bitmap := [0, 0, 0];
    for i := 0 to |pcrs|
      invariant BitmapOf(pcrs) == WithPcrs(bitmap, pcrs[i..])
      invariant forall k | 0 <= k < i :: pcrs[k] < PCR_COUNT
    {
      assert pcrs[i..][1..] == pcrs[i + 1..];
      var p := pcrs[i];
      if p > 23 {
        assert pcrs[i] in pcrs;
        return Err(InvalidInput);
      }
      SetBitStaysBelow(bitmap[p / 8], p % 8, 8);
      ByteRange();
      bitmap := bitmap[p / 8 := SetBit(bitmap[p / 8], p % 8)];
    }
    return Ok(bitmap);
  }

  lemma WithPcrSelects(m: Bitmap, p: nat, q: nat)
    ensures Selected(WithPcr(m, p), q) <==> Selected(m, q) || (p == q && p < PCR_COUNT)
  {
    hide SetBit, TestBit;
    if p < PCR_COUNT && q < PCR_COUNT && p / 8 == q / 8 {
      SetBitSets(m[p / 8], p % 8, q % 8);
    }
  }

  lemma {:induction false} WithPcrsSelects(m: Bitmap, pcrs: seq<u32>, q: nat)
    ensures Selected(WithPcrs(m, pcrs), q) <==> Selected(m, q) || (q in pcrs && q < PCR_COUNT)
    decreases |pcrs|
  {
    hide Selected, WithPcr;
    if pcrs != [] {
      WithPcrSelects(m, pcrs[0], q);
      WithPcrsSelects(WithPcr(m, pcrs[0]), pcrs[1..], q);
      assert q in pcrs <==> q == pcrs[0] || q in pcrs[1..];
    }
  }

  /** A bitmap selects exactly the listed PCRs. */
  lemma BitmapSelects(pcrs: seq<u32>, q: nat)
    ensures Selected(BitmapOf(pcrs), q) <==> q in pcrs && q < PCR_COUNT
  {
    WithPcrsSelects([0, 0, 0], pcrs, q);
    if q < PCR_COUNT {
      NoBitsInZero(q % 8);
    }
  }

  /** The bitmap of a list, bit by bit as the standard has it. */
  lemma BitmapIsOctets(pcrs: seq<u32>, s: set<nat>)
    requires forall q: nat | q < PCR_COUNT :: q in pcrs <==> q in s
    ensures BitmapOf(pcrs) == OctetsOf(s)
  {
    hide BitmapOf, Bit, Octet;
    var m := BitmapOf(pcrs);
    forall o: nat | o < 3
      ensures Octet(s, o) == m[o]
    {
      forall k: nat | k < 8
        ensures Bit(m[o], k) <==> 8 * o + k in s
      {
        var q := 8 * o + k;
        BitmapSelects(pcrs, q);
        TestBitIsBit(m[o], k);
      }
      OctetHasBits(s, o, m[o]);
    }
    assert m == [m[0], m[1], m[2]];
  }

  // ---------------------------------------------------------------- from bitmaps to indices

  /** The PCRs of a set, from `i` up, in ascending order. */
  function AscendingFrom(s: set<nat>, i: nat): seq<u32>
    decreases PCR_COUNT - i
  {
    if i >= PCR_COUNT then []
    else (if i in s then [i] else []) + AscendingFrom(s, i + 1)
  }

  function Ascending(s: set<nat>): seq<u32> {
    AscendingFrom(s, 0)
  }

  /** The indices a selection names, from bit `i` up. */
  function IndicesFrom(s: PcrSelection, i: nat): seq<nat>
    requires SelectionFits(s)
    decreases 24 - i
  {
    if i >= 8 * s.sizeOfSelect then []
    else (if TestBit(s.select[i / 8], i % 8) then [i] else []) + IndicesFrom(s, i + 1)
  }

  function AllIndices(sels: seq<PcrSelection>): seq<nat>
    requires SelectionsFit(sels)
  {
    if sels == [] then [] else IndicesFrom(sels[0], 0) + AllIndices(sels[1..])
  }

  /** The loops of `read_pcrs_for_alg` over the bytes of one selection and the bits of each. */
  method CollectIndices(s: PcrSelection) returns (r: seq<nat>)
    requires SelectionFits(s)
    ensures r == IndicesFrom(s, 0)
  {
    hide TestBit, IndicesFrom;
    r := [];
    IndicesEnd(s);
    for octet := 0 to s.sizeOfSelect
      invariant IndicesFrom(s, 0) == r + IndicesFrom(s, 8 * octet)
    {
      var b := s.select[octet];
      for bit := 0 to 8
        invariant IndicesFrom(s, 0) == r + IndicesFrom(s, 8 * octet + bit)
      {
        IndicesStep(s, octet, bit);
        if TestBit(b, bit) {
          r := r + [8 * octet + bit];
        }
      }
    }
  }

  lemma {:induction false} IndicesEnd(s: PcrSelection)
    requires SelectionFits(s)
    ensures IndicesFrom(s, 8 * s.sizeOfSelect) == []
  {
  }

  lemma {:induction false} IndicesStep(s: PcrSelection, octet: nat, bit: nat)
    requires SelectionFits(s) && octet < s.sizeOfSelect && bit < 8
    ensures var i := 8 * octet + bit;
            IndicesFrom(s, i) == (if TestBit(s.select[octet], bit) then [i] else []) + IndicesFrom(s, i + 1)
  {
    hide TestBit;
    var i := 8 * octet + bit;
    assert i / 8 == octet && i % 8 == bit;
  }

  lemma {:induction false} IndicesOfSelection(hashAlg: u16, pcrs: seq<u32>, s: set<nat>, i: nat)
    requires forall q: nat | q < PCR_COUNT :: q in pcrs <==> q in s
    ensures IndicesFrom(PcrSelection(hashAlg, 3, BitmapOf(pcrs)), i) == AscendingFrom(s, i)
    decreases 24 - i
  {
    hide BitmapOf, TestBit;
    if i < PCR_COUNT {
      BitmapSelects(pcrs, i);
      IndicesOfSelection(hashAlg, pcrs, s, i + 1);
    }
  }

  lemma {:induction false} AscendingHolds(s: set<nat>, i: nat, q: nat)
    ensures q in AscendingFrom(s, i) <==> q in s && i <= q < PCR_COUNT
    decreases PCR_COUNT - i
  {
    if i < PCR_COUNT {
      AscendingHolds(s, i + 1, q);
    }
  }

  predicate StrictlyAscending(pcrs: seq<u32>) {
    forall i, j | 0 <= i < j < |pcrs| :: pcrs[i] < pcrs[j]
  }

  lemma {:induction false} AscendingOfList(pcrs: seq<u32>, s: set<nat>, i: nat)
    requires StrictlyAscending(pcrs) && forall p | p in pcrs :: i <= p < PCR_COUNT
    requires forall q: nat | i <= q :: q in s <==> q in pcrs
    ensures AscendingFrom(s, i) == pcrs
    decreases PCR_COUNT - i
  {
    if pcrs != [] {
      assert pcrs[0] in pcrs;
      if pcrs[0] == i {
        forall p | p in pcrs[1..]
          ensures i + 1 <= p < PCR_COUNT
        {
          assert p in pcrs;
        }
        AscendingOfList(pcrs[1..], s, i + 1);
      } else {
        forall p | p in pcrs
          ensures i + 1 <= p < PCR_COUNT
        {
          var k :| 0 <= k < |pcrs| && pcrs[k] == p;
        }
        AscendingOfList(pcrs, s, i + 1);
      }
    } else {
      if i < PCR_COUNT {
        AscendingOfList(pcrs, s, i + 1);
      }
    }
  }
}
