/**
 Byte buffers: fixed-width integers in both byte orders, and the predicate `At`,
 which places an encoding at an offset of a larger buffer.
 */
module Bytes {

  type byte = b: int | 0 <= b < 0x100
  type u16 = v: int | 0 <= v < 0x1_0000
  type u32 = v: int | 0 <= v < 0x1_0000_0000
  type u64 = v: int | 0 <= v < 0x1_0000_0000_0000_0000
  type bytes = seq<byte>

  /** A success value or an error; usable with `:-`. */
  datatype Result<+T, +E> = Ok(value: T) | Err(error: E) {
    predicate IsFailure() {
      Err?
    }

    function PropagateFailure<U>(): Result<U, E>
      requires Err?
    {
      Err(error)
    }

    function Extract(): T
      requires Ok?
    {
      value
    }
  }

  datatype Option<+T> = None | Some(value: T)

  // Writers truncate to their width, as the `as u16` and `as u32` casts do.

  function LE16(v: nat): (r: bytes)
    ensures |r| == 2
  {
    [v % 0x100, v / 0x100 % 0x100]
  }

  function LE32(v: nat): (r: bytes)
    ensures |r| == 4
  {
    LE16(v % 0x1_0000) + LE16(v / 0x1_0000)
  }

  function BE16(v: nat): (r: bytes)
    ensures |r| == 2
  {
    [v / 0x100 % 0x100, v % 0x100]
  }

  function BE32(v: nat): (r: bytes)
    ensures |r| == 4
  {
    BE16(v / 0x1_0000) + BE16(v % 0x1_0000)
  }

  function BE64(v: nat): (r: bytes)
    ensures |r| == 8
  {
    BE32(v / 0x1_0000_0000) + BE32(v % 0x1_0000_0000)
  }

  // Readers at an offset.

  function GetLE16(d: bytes, c: nat): u16
    requires c + 2 <= |d|
  {
    d[c] as int + 0x100 * d[c + 1] as int
  }

  function GetLE32(d: bytes, c: nat): u32
    requires c + 4 <= |d|
  {
    GetLE16(d, c) as int + 0x1_0000 * GetLE16(d, c + 2) as int
  }

  function GetBE16(d: bytes, c: nat): u16
    requires c + 2 <= |d|
  {
    0x100 * d[c] as int + d[c + 1] as int
  }

  function GetBE32(d: bytes, c: nat): u32
    requires c + 4 <= |d|
  {
    0x1_0000 * GetBE16(d, c) as int + GetBE16(d, c + 2) as int
  }

  function GetBE64(d: bytes, c: nat): u64
    requires c + 8 <= |d|
  {
    0x1_0000_0000 * GetBE32(d, c) as int + GetBE32(d, c + 4) as int
  }

  /** The bytes `e` stand in `d` at offset `c`. */
  ghost predicate At(d: bytes, c: nat, e: bytes) {
    c + |e| <= |d| && d[c..c + |e|] == e
  }

  lemma AtConcat(d: bytes, c: nat, a: bytes, b: bytes)
    ensures At(d, c, a + b) <==> At(d, c, a) && At(d, c + |a|, b)
  {
    if c + |a| + |b| <= |d| {
      var s := d[c..c + |a| + |b|];
      assert d[c..c + |a|] == s[..|a|];
      assert d[c + |a|..c + |a| + |b|] == s[|a|..];
      assert s == s[..|a|] + s[|a|..];
      assert (a + b)[..|a|] == a && (a + b)[|a|..] == b;
    }
  }

  lemma AtIndex(d: bytes, c: nat, e: bytes, k: nat)
    requires At(d, c, e) && k < |e|
    ensures d[c + k] == e[k]
  {
    assert d[c..c + |e|][k] == d[c + k];
  }

  lemma AtInside(pre: bytes, e: bytes, post: bytes)
    ensures At(pre + e + post, |pre|, e)
  {
    assert (pre + e + post)[|pre|..|pre| + |e|] == e;
  }

  // Reading what was written, and writing what was read.

  lemma LE16At(d: bytes, c: nat, v: u16)
    requires At(d, c, LE16(v))
    ensures GetLE16(d, c) == v
  {
    AtIndex(d, c, LE16(v), 0);
    AtIndex(d, c, LE16(v), 1);
  }

  lemma LE32At(d: bytes, c: nat, v: u32)
    requires At(d, c, LE32(v))
    ensures GetLE32(d, c) == v
  {
    AtConcat(d, c, LE16(v % 0x1_0000), LE16(v / 0x1_0000));
    LE16At(d, c, v % 0x1_0000);
    LE16At(d, c + 2, v / 0x1_0000);
  }

  lemma BE16At(d: bytes, c: nat, v: u16)
    requires At(d, c, BE16(v))
    ensures GetBE16(d, c) == v
  {
    AtIndex(d, c, BE16(v), 0);
    AtIndex(d, c, BE16(v), 1);
  }

  lemma BE32At(d: bytes, c: nat, v: u32)
    requires At(d, c, BE32(v))
    ensures GetBE32(d, c) == v
  {
    AtConcat(d, c, BE16(v / 0x1_0000), BE16(v % 0x1_0000));
    BE16At(d, c, v / 0x1_0000);
    BE16At(d, c + 2, v % 0x1_0000);
  }

  lemma BE64At(d: bytes, c: nat, v: u64)
    requires At(d, c, BE64(v))
    ensures GetBE64(d, c) == v
  {
    AtConcat(d, c, BE32(v / 0x1_0000_0000), BE32(v % 0x1_0000_0000));
    BE32At(d, c, v / 0x1_0000_0000);
    BE32At(d, c + 4, v % 0x1_0000_0000);
  }

  lemma LE32First(v: nat)
    ensures LE32(v)[0] == v % 0x100
  {
  }

  lemma GetLE16At(d: bytes, c: nat)
    requires c + 2 <= |d|
    ensures At(d, c, LE16(GetLE16(d, c)))
  {
    assert d[c..c + 2] == [d[c], d[c + 1]];
  }

  lemma GetLE32At(d: bytes, c: nat)
    requires c + 4 <= |d|
    ensures At(d, c, LE32(GetLE32(d, c)))
  {
    var lo: int, hi: int := GetLE16(d, c), GetLE16(d, c + 2);
    GetLE16At(d, c);
    GetLE16At(d, c + 2);
    assert (lo + 0x1_0000 * hi) % 0x1_0000 == lo;
    assert (lo + 0x1_0000 * hi) / 0x1_0000 == hi;
    AtConcat(d, c, LE16(lo), LE16(hi));
  }

  lemma GetBE16At(d: bytes, c: nat)
    requires c + 2 <= |d|
    ensures At(d, c, BE16(GetBE16(d, c)))
  {
    assert d[c..c + 2] == [d[c], d[c + 1]];
  }

  lemma GetBE32At(d: bytes, c: nat)
    requires c + 4 <= |d|
    ensures At(d, c, BE32(GetBE32(d, c)))
  {
    var hi: int, lo: int := GetBE16(d, c), GetBE16(d, c + 2);
    GetBE16At(d, c);
    GetBE16At(d, c + 2);
    assert (0x1_0000 * hi + lo) % 0x1_0000 == lo;
    assert (0x1_0000 * hi + lo) / 0x1_0000 == hi;
    AtConcat(d, c, BE16(hi), BE16(lo));
  }

  lemma GetBE64At(d: bytes, c: nat)
    requires c + 8 <= |d|
    ensures At(d, c, BE64(GetBE64(d, c)))
  {
    var hi: int, lo: int := GetBE32(d, c), GetBE32(d, c + 4);
    GetBE32At(d, c);
    GetBE32At(d, c + 4);
    assert (0x1_0000_0000 * hi + lo) / 0x1_0000_0000 == hi;
    assert (0x1_0000_0000 * hi + lo) % 0x1_0000_0000 == lo;
    AtConcat(d, c, BE32(hi), BE32(lo));
  }

  // ---------------------------------------------------------------- what the two byte orders mean

  /** The number that a big-endian byte string stands for: the last byte counts ones. */
  function BigEndian(x: bytes): nat {
    if x == [] then 0 else 256 * BigEndian(x[..|x| - 1]) + x[|x| - 1]
  }

  /** The number that a little-endian byte string stands for: the first byte counts ones. */
  function LittleEndian(x: bytes): nat {
    if x == [] then 0 else x[0] + 256 * LittleEndian(x[1..])
  }

  lemma {:induction false} BigEndianOf2(x: bytes)
    requires |x| == 2
    ensures BigEndian(x) == 256 * x[0] as int + x[1] as int
  {
    assert BigEndian(x[..1]) == 256 * BigEndian(x[..1][..0]) + x[0];
  }

  lemma {:induction false} BigEndianSplits(x: bytes, y: bytes)
    requires |y| == 2
    ensures BigEndian(x + y) == 0x1_0000 * BigEndian(x) + BigEndian(y)
  {
    BigEndianOf2(y);
    assert (x + y)[..|x| + 1] == x + [y[0]] && (x + [y[0]])[..|x|] == x;
    assert BigEndian(x + [y[0]]) == 256 * BigEndian(x) + y[0];
  }

  lemma {:induction false} LittleEndianOf2(x: bytes)
    requires |x| == 2
    ensures LittleEndian(x) == x[0] as int + 256 * x[1] as int
  {
    assert LittleEndian(x[1..]) == x[1] + 256 * LittleEndian(x[1..][1..]);
  }

  lemma {:induction false} LittleEndianSplits(x: bytes, y: bytes)
    requires |x| == 2
    ensures LittleEndian(x + y) == LittleEndian(x) + 0x1_0000 * LittleEndian(y)
  {
    LittleEndianOf2(x);
    assert (x + y)[1..] == [x[1]] + y && ([x[1]] + y)[1..] == y;
    assert LittleEndian([x[1]] + y) == x[1] + 256 * LittleEndian(y);
  }

  /** TPM structures and CBOR heads have their integers most significant byte first. */
  lemma ReadersAreBigEndian(d: bytes, c: nat)
    ensures c + 2 <= |d| ==> GetBE16(d, c) == BigEndian(d[c..c + 2])
    ensures c + 4 <= |d| ==> GetBE32(d, c) == BigEndian(d[c..c + 4])
    ensures c + 8 <= |d| ==> GetBE64(d, c) == BigEndian(d[c..c + 8])
  {
    hide BigEndian;
    if c + 2 <= |d| {
      BigEndianOf2(d[c..c + 2]);
    }
    if c + 4 <= |d| {
      WordIsBigEndian(d, c);
    }
    if c + 8 <= |d| {
      var x := d[c..c + 4];
      WordIsBigEndian(d, c);
      WordIsBigEndian(d, c + 4);
      assert d[c..c + 6] == x + d[c + 4..c + 6] && d[c..c + 8] == d[c..c + 6] + d[c + 6..c + 8];
      assert d[c + 4..c + 8] == d[c + 4..c + 6] + d[c + 6..c + 8];
      BigEndianSplits(x, d[c + 4..c + 6]);
      BigEndianSplits(d[c..c + 6], d[c + 6..c + 8]);
      BigEndianSplits(d[c + 4..c + 6], d[c + 6..c + 8]);
    }
  }

  lemma WordIsBigEndian(d: bytes, c: nat)
    requires c + 4 <= |d|
    ensures GetBE32(d, c) == BigEndian(d[c..c + 4])
  {
    hide BigEndian;
    assert d[c..c + 4] == d[c..c + 2] + d[c + 2..c + 4];
    BigEndianOf2(d[c..c + 2]);
    BigEndianOf2(d[c + 2..c + 4]);
    BigEndianSplits(d[c..c + 2], d[c + 2..c + 4]);
  }

  /** Event logs have theirs least significant byte first. */
  lemma ReadersAreLittleEndian(d: bytes, c: nat)
    ensures c + 2 <= |d| ==> GetLE16(d, c) == LittleEndian(d[c..c + 2])
    ensures c + 4 <= |d| ==> GetLE32(d, c) == LittleEndian(d[c..c + 4])
  {
    hide LittleEndian;
    if c + 2 <= |d| {
      LittleEndianOf2(d[c..c + 2]);
    }
    if c + 4 <= |d| {
      assert d[c..c + 4] == d[c..c + 2] + d[c + 2..c + 4];
      LittleEndianOf2(d[c + 2..c + 4]);
      LittleEndianSplits(d[c..c + 2], d[c + 2..c + 4]);
    }
  }
}
