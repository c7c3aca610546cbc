/**
 The definite-length subset of CBOR (RFC 8949, section 3) that the COSE parser
 walks over: a grammar of items with its encoder, and the skipper that must
 accept exactly that grammar.
 */
module Cbor {
  import opened Bytes

  datatype Error =
    | EndOfData
    | TruncatedArgument
    | UnsupportedInfo(addl: nat)
    | LengthOverflow
    | TruncatedString
    | NotAString(major: nat)

  /** The largest slice a Rust program can hold on a 64-bit target. */
  const ISIZE_MAX := 0x7FFF_FFFF_FFFF_FFFF

  const USIZE_MAX := 0xFFFF_FFFF_FFFF_FFFF

  // ---------------------------------------------------------------- grammar

  /** Where the argument of a head is kept: in the initial byte, or in 1, 2, 4 or 8 bytes after it. */
  datatype Width = Direct | One | Two | Four | Eight

  /**
   One definite-length item. The argument of a string or container is its length;
   a map holds its keys and values alternately.
   */
  datatype Item =
    | Scalar(major: nat, width: Width, arg: nat)
    | Text(major: nat, width: Width, content: bytes)
    | Array(width: Width, items: seq<Item>)
    | Map(width: Width, items: seq<Item>)
    | Tag(width: Width, arg: nat, inner: Item)

  predicate Fits(w: Width, arg: nat) {
    match w
    case Direct => arg < 24
    case One => arg < 0x100
    case Two => arg < 0x1_0000
    case Four => arg < 0x1_0000_0000
    case Eight => arg < 0x1_0000_0000_0000_0000
  }

  function Addl(w: Width, arg: nat): (a: nat)
    requires Fits(w, arg)
    ensures a < 28
  {
    match w
    case Direct => arg
    case One => 24
    case Two => 25
    case Four => 26
    case Eight => 27
  }

  function Argument(w: Width, arg: nat): bytes
    requires Fits(w, arg)
  {
    match w
    case Direct => []
    case One => [arg]
    case Two => BE16(arg)
    case Four => BE32(arg)
    case Eight => BE64(arg)
  }

  function EncodeHead(major: nat, w: Width, arg: nat): (r: bytes)
    requires major < 8 && Fits(w, arg)
    ensures |r| >= 1
  {
    [32 * major + Addl(w, arg)] + Argument(w, arg)
  }

  predicate Valid(i: Item) {
    match i
    case Scalar(m, w, arg) => m in {0, 1, 7} && Fits(w, arg)
    case Text(m, w, content) => m in {2, 3} && Fits(w, |content|)
    case Array(w, items) => Fits(w, |items|) && AllValid(items)
    case Map(w, items) => |items| % 2 == 0 && Fits(w, |items| / 2) && AllValid(items)
    case Tag(w, arg, inner) => Fits(w, arg) && Valid(inner)
  }

  predicate AllValid(items: seq<Item>) {
    items == [] || (Valid(items[0]) && AllValid(items[1..]))
  }

  function Encode(i: Item): (r: bytes)
    requires Valid(i)
  {
    match i
    case Scalar(m, w, arg) => EncodeHead(m, w, arg)
    case Text(m, w, content) => EncodeHead(m, w, |content|) + content
    case Array(w, items) => EncodeHead(4, w, |items|) + EncodeAll(items)
    case Map(w, items) => EncodeHead(5, w, |items| / 2) + EncodeAll(items)
    case Tag(w, arg, inner) => EncodeHead(6, w, arg) + Encode(inner)
  }

  function EncodeAll(items: seq<Item>): bytes
    requires AllValid(items)
  {
    if items == [] then [] else Encode(items[0]) + EncodeAll(items[1..])
  }

  // ---------------------------------------------------------------- heads

  datatype Head = Head(major: nat, arg: u64, next: nat)

  function ReadHead(data: bytes, pos: nat): (r: Result<Head, Error>)
    ensures r.Ok? ==> pos < r.value.next <= |data| && r.value.major < 8
  {
    if pos >= |data| then Err(EndOfData) else
    var (arg, next) :- ReadArgument(data, pos + 1, data[pos] % 32);
    Ok(Head(data[pos] / 32, arg, next))
  }

  /** The argument selected by the low five bits of the initial byte, and where the head ends. */
  function ReadArgument(data: bytes, p: nat, addl: nat): (r: Result<(u64, nat), Error>)
    requires p <= |data|
    ensures r.Ok? ==> p <= r.value.1 <= |data|
  {
    if addl <= 23 then Ok((addl, p))
    else if addl == 24 then
      if p >= |data| then Err(TruncatedArgument) else Ok((data[p], p + 1))
    else if addl == 25 then
      if p + 2 > |data| then Err(TruncatedArgument) else Ok((GetBE16(data, p), p + 2))
    else if addl == 26 then
      if p + 4 > |data| then Err(TruncatedArgument) else Ok((GetBE32(data, p), p + 4))
    else if addl == 27 then
      if p + 8 > |data| then Err(TruncatedArgument) else Ok((GetBE64(data, p), p + 8))
    else Err(UnsupportedInfo(addl))
  }

  /** The width a successfully read head was written in. */
  function WidthAt(data: bytes, pos: nat): Width
    requires ReadHead(data, pos).Ok?
  {
    var addl := data[pos] % 32;
    if addl <= 23 then Direct else if addl == 24 then One
    else if addl == 25 then Two else if addl == 26 then Four else Eight
  }

  lemma ReadHeadComplete(data: bytes, pos: nat, major: nat, w: Width, arg: nat)
    requires major < 8 && Fits(w, arg) && At(data, pos, EncodeHead(major, w, arg))
    ensures ReadHead(data, pos) == Ok(Head(major, arg, pos + |EncodeHead(major, w, arg)|))
    ensures WidthAt(data, pos) == w
  {
    hide Argument, ReadArgument;
    var initial: byte := 32 * major + Addl(w, arg);
    AtConcat(data, pos, [initial], Argument(w, arg));
    AtIndex(data, pos, [initial], 0);
    ArgumentComplete(data, pos + 1, w, arg);
  }

  lemma ArgumentComplete(data: bytes, p: nat, w: Width, arg: nat)
    requires p <= |data| && Fits(w, arg) && At(data, p, Argument(w, arg))
    ensures ReadArgument(data, p, Addl(w, arg)) == Ok((arg, p + |Argument(w, arg)|))
  {
    hide BE16, BE32, BE64, GetBE16, GetBE32, GetBE64;
    match w
    case Direct =>
    case One => AtIndex(data, p, [arg], 0);
    case Two => BE16At(data, p, arg);
    case Four => BE32At(data, p, arg);
    case Eight => BE64At(data, p, arg);
  }

  lemma ReadHeadSound(data: bytes, pos: nat)
    requires ReadHead(data, pos).Ok?
    ensures var h := ReadHead(data, pos).value;
            var w := WidthAt(data, pos);
            Fits(w, h.arg) && At(data, pos, EncodeHead(h.major, w, h.arg)) &&
            h.next == pos + |EncodeHead(h.major, w, h.arg)|
  {
    hide BE16, BE32, BE64, GetBE16, GetBE32, GetBE64;
    var h := ReadHead(data, pos).value;
    var w := WidthAt(data, pos);
    assert data[pos..pos + 1] == [data[pos]];
    match w {
      case Direct =>
      case One => assert data[pos + 1..pos + 2] == [data[pos + 1]];
      case Two => GetBE16At(data, pos + 1);
      case Four => GetBE32At(data, pos + 1);
      case Eight => GetBE64At(data, pos + 1);
    }
    assert 32 * h.major + Addl(w, h.arg) == data[pos];
    AtConcat(data, pos, [data[pos]], Argument(w, h.arg));
  }

  // ---------------------------------------------------------------- skipping

  ghost function Left(data: bytes, pos: nat): nat {
    if pos <= |data| then |data| - pos else 0
  }

  function SkipString(data: bytes, p: nat, len: nat): Result<nat, Error> {
    if p + len > USIZE_MAX then Err(LengthOverflow)
    else if p + len > |data| then Err(TruncatedString)
    else Ok(p + len)
  }

  /** What skipping one item at `pos` must answer. */
  function Skip(data: bytes, pos: nat): (r: Result<nat, Error>)
    ensures r.Ok? ==> pos < r.value <= |data|
    decreases Left(data, pos), 0
  {
    var h :- ReadHead(data, pos);
    SkipBody(data, h.next, h.major, h.arg)
  }

  /** Skips what follows a head that ended at `p`. */
  function SkipBody(data: bytes, p: nat, major: nat, arg: nat): (r: Result<nat, Error>)
    requires p <= |data|
    ensures r.Ok? ==> p <= r.value <= |data|
    decreases Left(data, p), 2
  {
    match major
    case 2 => SkipString(data, p, arg)
    case 3 => SkipString(data, p, arg)
    case 4 => SkipMany(data, p, arg)
    case 5 => SkipMany(data, p, 2 * arg)
    case 6 => Skip(data, p)
    case _ => Ok(p)
  }

  /** Skips `n` items one after the other. */
  function SkipMany(data: bytes, pos: nat, n: nat): (r: Result<nat, Error>)
    ensures r.Ok? ==> pos <= r.value && (pos <= |data| ==> r.value <= |data|)
    decreases Left(data, pos), 1
  {
    if n == 0 then Ok(pos) else
    var q :- Skip(data, pos);
    SkipMany(data, q, n - 1)
  }

  /** The number of heads that skipping one item at `pos` reads, whether or not it succeeds. */
  ghost function Heads(data: bytes, pos: nat): nat
    decreases Left(data, pos), 0
  {
    match ReadHead(data, pos)
    case Err(_) => 1
    case Ok(h) =>
      1 + if h.major == 4 then HeadsMany(data, h.next, h.arg)
          else if h.major == 5 then HeadsMany(data, h.next, 2 * h.arg)
          else if h.major == 6 then Heads(data, h.next)
          else 0
  }

  ghost function HeadsMany(data: bytes, pos: nat, n: nat): nat
    decreases Left(data, pos), 1
  {
    if n == 0 then 0 else
    Heads(data, pos) + match Skip(data, pos)
                       case Err(_) => 0
                       case Ok(q) => HeadsMany(data, q, n - 1)
  }

  /** `skip_cbor_item`, with a count of the heads it read. */
  method SkipCborItem(data: bytes, pos: nat) returns (r: Result<nat, Error>, ghost heads: nat)
    ensures r == Skip(data, pos)
    ensures heads == Heads(data, pos)
    decreases Left(data, pos), 1
  {
    heads := 1;
    var h :- ReadHead(data, pos);
    ghost var n := 0;
    if h.major == 2 || h.major == 3 {
      r := SkipString(data, h.next, h.arg);
    } else if h.major == 4 {
      r, n := SkipArray(data, h.next, h.arg);
    } else if h.major == 5 {
      r, n := SkipMap(data, h.next, h.arg);
    } else if h.major == 6 {
      r, n := SkipCborItem(data, h.next);
    } else {
      r := Ok(h.next);
    }
    heads := 1 + n;
  }

  /** The loop of `skip_cbor_item` over the elements of an array. */
  method SkipArray(data: bytes, p: nat, count: nat) returns (r: Result<nat, Error>, ghost heads: nat)
    ensures r == SkipMany(data, p, count)
    ensures heads == HeadsMany(data, p, count)
    decreases Left(data, p), 2
  {
    hide Skip, Heads;
    var cur, i := p, 0;
    heads := 0;
    while i < count
      invariant i <= count && p <= cur && Left(data, cur) <= Left(data, p)
      invariant SkipMany(data, p, count) == SkipMany(data, cur, count - i)
      invariant HeadsMany(data, p, count) == heads + HeadsMany(data, cur, count - i)
    {
      var q, n := SkipCborItem(data, cur);
      heads := heads + n;
      cur :- q;
      i := i + 1;
    }
    return Ok(cur), heads;
  }

  /** The loop of `skip_cbor_item` over the entries of a map: a key, then a value. */
  method SkipMap(data: bytes, p: nat, count: nat) returns (r: Result<nat, Error>, ghost heads: nat)
    ensures r == SkipMany(data, p, 2 * count)
    ensures heads == HeadsMany(data, p, 2 * count)
    decreases Left(data, p), 2
  {
    hide Skip, Heads;
    var cur, i := p, 0;
    heads := 0;
    while i < count
      invariant i <= count && p <= cur && Left(data, cur) <= Left(data, p)
      invariant SkipMany(data, p, 2 * count) == SkipMany(data, cur, 2 * (count - i))
      invariant HeadsMany(data, p, 2 * count) == heads + HeadsMany(data, cur, 2 * (count - i))
    {
      ghost var start, togo := cur, 2 * (count - i);
      var key, n := SkipCborItem(data, cur);
      heads := heads + n;
      cur :- key;
      assert SkipMany(data, start, togo) == SkipMany(data, cur, togo - 1);
      assert HeadsMany(data, start, togo) == n + HeadsMany(data, cur, togo - 1);
      var value, m := SkipCborItem(data, cur);
      heads := heads + m;
      cur :- value;
      i := i + 1;
    }
    return Ok(cur), heads;
  }

  // ---------------------------------------------------------------- linear work

  /**
   A run reads at most one head a byte, and one more if it fails; a success reads no more heads than it skips
   bytes.
   */
  lemma {:induction false} SkipIsLinear(data: bytes, pos: nat)
    requires pos <= |data|
    ensures Heads(data, pos) <= |data| - pos + 1
    ensures Skip(data, pos).Ok? ==> Heads(data, pos) <= Skip(data, pos).value - pos
    decreases Left(data, pos), 0
  {
    if ReadHead(data, pos).Ok? {
      var h := ReadHead(data, pos).value;
      if h.major == 4 {
        SkipManyIsLinear(data, h.next, h.arg);
      } else if h.major == 5 {
        SkipManyIsLinear(data, h.next, 2 * h.arg);
      } else if h.major == 6 {
        SkipIsLinear(data, h.next);
      }
    }
  }

  lemma {:induction false} SkipManyIsLinear(data: bytes, pos: nat, n: nat)
    requires pos <= |data|
    ensures HeadsMany(data, pos, n) <= |data| - pos + 1
    ensures SkipMany(data, pos, n).Ok? ==> HeadsMany(data, pos, n) <= SkipMany(data, pos, n).value - pos
    decreases Left(data, pos), 1
  {
    if n > 0 {
      SkipIsLinear(data, pos);
      if Skip(data, pos).Ok? {
        SkipManyIsLinear(data, Skip(data, pos).value, n - 1);
      }
    }
  }

  // ---------------------------------------------------------------- exactness

  /** The head and the body of an item's encoding. */
  function HeadOf(i: Item): (h: (nat, Width, nat))
    requires Valid(i)
    ensures h.0 < 8 && Fits(h.1, h.2)
  {
    match i
    case Scalar(m, w, arg) => (m, w, arg)
    case Text(m, w, content) => (m, w, |content|)
    case Array(w, items) => (4, w, |items|)
    case Map(w, items) => (5, w, |items| / 2)
    case Tag(w, arg, inner) => (6, w, arg)
  }

  function BodyOf(i: Item): bytes
    requires Valid(i)
  {
    match i
    case Scalar(m, w, arg) => []
    case Text(m, w, content) => content
    case Array(w, items) => EncodeAll(items)
    case Map(w, items) => EncodeAll(items)
    case Tag(w, arg, inner) => Encode(inner)
  }

  lemma {:induction false} EncodeIsHeadAndBody(i: Item)
    requires Valid(i)
    ensures var (m, w, a) := HeadOf(i);
            Encode(i) == EncodeHead(m, w, a) + BodyOf(i)
  {
    hide EncodeHead, EncodeAll, AllValid;
  }

  lemma {:induction false} HeadAndBodyAt(data: bytes, pos: nat, i: Item)
    requires Valid(i) && At(data, pos, Encode(i))
    ensures var (m, w, a) := HeadOf(i);
            Encode(i) == EncodeHead(m, w, a) + BodyOf(i) &&
            At(data, pos, EncodeHead(m, w, a)) &&
            At(data, pos + |EncodeHead(m, w, a)|, BodyOf(i))
  {
    hide EncodeHead, Encode, BodyOf, Valid;
    var (m, w, a) := HeadOf(i);
    EncodeIsHeadAndBody(i);
    AtConcat(data, pos, EncodeHead(m, w, a), BodyOf(i));
  }

  lemma {:induction false} SkipComplete(data: bytes, pos: nat, i: Item)
    requires |data| <= ISIZE_MAX
    requires Valid(i) && At(data, pos, Encode(i))
    ensures Skip(data, pos) == Ok(pos + |Encode(i)|)
    decreases i, 2
  {
    hide ReadHead, EncodeHead, BodyOf;
    var (m, w, a) := HeadOf(i);
    HeadAndBodyAt(data, pos, i);
    ReadHeadComplete(data, pos, m, w, a);
    BodyComplete(data, pos + |EncodeHead(m, w, a)|, i);
  }

  lemma {:induction false} BodyComplete(data: bytes, p: nat, i: Item)
    requires |data| <= ISIZE_MAX
    requires Valid(i) && At(data, p, BodyOf(i))
    ensures SkipBody(data, p, HeadOf(i).0, HeadOf(i).2) == Ok(p + |BodyOf(i)|)
    decreases i, 1
  {
    hide EncodeHead, ReadHead;
    match i
    case Scalar(_, _, _) =>
    case Text(_, _, content) =>
    case Array(_, items) => SkipManyComplete(data, p, items);
    case Map(_, items) => SkipManyComplete(data, p, items);
    case Tag(_, _, inner) => SkipComplete(data, p, inner);
  }

  lemma {:induction false} SkipManyComplete(data: bytes, pos: nat, items: seq<Item>)
    requires |data| <= ISIZE_MAX
    requires AllValid(items) && At(data, pos, EncodeAll(items))
    ensures SkipMany(data, pos, |items|) == Ok(pos + |EncodeAll(items)|)
    decreases items, 0
  {
    hide Skip, Encode, Valid;
    if items != [] {
      AtConcat(data, pos, Encode(items[0]), EncodeAll(items[1..]));
      SkipComplete(data, pos, items[0]);
      SkipManyComplete(data, pos + |Encode(items[0])|, items[1..]);
    }
  }

  /** The item `i` stands at `pos` and ends at `q`. */
  ghost predicate StandsAt(data: bytes, pos: nat, q: nat, i: Item) {
    Valid(i) && At(data, pos, Encode(i)) && q == pos + |Encode(i)|
  }

  lemma {:induction false} SkipSound(data: bytes, pos: nat) returns (i: Item)
    requires Skip(data, pos).Ok?
    ensures StandsAt(data, pos, Skip(data, pos).value, i)
    decreases Left(data, pos), 0
  {
    hide EncodeHead, BodyOf;
    var h := ReadHead(data, pos).value;
    var w := WidthAt(data, pos);
    ReadHeadSound(data, pos);
    i := BodySound(data, h.next, h.major, w, h.arg);
    EncodeIsHeadAndBody(i);
    AtConcat(data, pos, EncodeHead(h.major, w, h.arg), BodyOf(i));
  }

  lemma {:induction false} BodySound(data: bytes, p: nat, major: nat, w: Width, arg: nat) returns (i: Item)
    requires p <= |data| && major < 8 && Fits(w, arg)
    requires SkipBody(data, p, major, arg).Ok?
    ensures Valid(i) && HeadOf(i) == (major, w, arg)
    ensures At(data, p, BodyOf(i)) && SkipBody(data, p, major, arg).value == p + |BodyOf(i)|
    decreases Left(data, p), 2
  {
    hide ReadHead, EncodeHead, Encode, EncodeAll, Skip, SkipMany;
    match major
    case 2 => i := Text(major, w, data[p..p + arg]);
    case 3 => i := Text(major, w, data[p..p + arg]);
    case 4 =>
      var items := SkipManySound(data, p, arg);
      i := Array(w, items);
    case 5 =>
      var items := SkipManySound(data, p, 2 * arg);
      i := Map(w, items);
    case 6 =>
      var inner := SkipSound(data, p);
      i := Tag(w, arg, inner);
    case _ => i := Scalar(major, w, arg);
  }

  lemma {:induction false} SkipManySound(data: bytes, pos: nat, n: nat) returns (items: seq<Item>)
    requires pos <= |data| && SkipMany(data, pos, n).Ok?
    ensures |items| == n && AllValid(items) && At(data, pos, EncodeAll(items))
    ensures SkipMany(data, pos, n).value == pos + |EncodeAll(items)|
    decreases Left(data, pos), 1
  {
    hide Encode, Valid;
    if n == 0 {
      items := [];
    } else {
      var q := Skip(data, pos).value;
      var first := SkipSound(data, pos);
      var rest := SkipManySound(data, q, n - 1);
      items := [first] + rest;
      ConsItems(data, pos, first, rest);
    }
  }

  lemma {:induction false} ConsItems(data: bytes, pos: nat, first: Item, rest: seq<Item>)
    requires Valid(first) && At(data, pos, Encode(first))
    requires AllValid(rest) && At(data, pos + |Encode(first)|, EncodeAll(rest))
    ensures AllValid([first] + rest) && At(data, pos, EncodeAll([first] + rest))
    ensures EncodeAll([first] + rest) == Encode(first) + EncodeAll(rest)
  {
    hide Encode, Valid;
    var items := [first] + rest;
    assert items[1..] == rest && items[0] == first;
    AtConcat(data, pos, Encode(first), EncodeAll(rest));
  }

  /** `q` is the end of some definite-length item that starts at `pos`. */
  ghost predicate ItemAt(data: bytes, pos: nat, q: nat) {
    exists i :: StandsAt(data, pos, q, i)
  }

  /** The skipper accepts exactly the definite-length items, and answers where they end. */
  lemma {:induction false} SkipIsExact(data: bytes, pos: nat, q: nat)
    requires |data| <= ISIZE_MAX
    ensures Skip(data, pos) == Ok(q) <==> ItemAt(data, pos, q)
  {
    hide Skip, Encode, Valid;
    if Skip(data, pos) == Ok(q) {
      var i := SkipSound(data, pos);
    }
    if i :| StandsAt(data, pos, q, i) {
      SkipComplete(data, pos, i);
    }
  }

  // ---------------------------------------------------------------- unique decoding

  lemma SameHead(data: bytes, pos: nat, m1: nat, w1: Width, a1: nat, m2: nat, w2: Width, a2: nat)
    requires m1 < 8 && Fits(w1, a1) && At(data, pos, EncodeHead(m1, w1, a1))
    requires m2 < 8 && Fits(w2, a2) && At(data, pos, EncodeHead(m2, w2, a2))
    ensures m1 == m2 && w1 == w2 && a1 == a2
  {
    ReadHeadComplete(data, pos, m1, w1, a1);
    ReadHeadComplete(data, pos, m2, w2, a2);
  }

  /** No two different items can be read at one place: the code is uniquely decodable and so prefix-free. */
  lemma {:induction false} ItemsAreUnique(data: bytes, pos: nat, i: Item, j: Item)
    requires Valid(i) && At(data, pos, Encode(i))
    requires Valid(j) && At(data, pos, Encode(j))
    ensures i == j
    decreases i, 1
  {
    hide EncodeHead, ReadHead, Encode, EncodeAll;
    HeadAndBodyAt(data, pos, i);
    HeadAndBodyAt(data, pos, j);
    var (m, w, a) := HeadOf(i);
    var (m', w', a') := HeadOf(j);
    SameHead(data, pos, m, w, a, m', w', a');
    var body := pos + |EncodeHead(m, w, a)|;
    match i
    case Scalar(_, _, _) =>
    case Text(_, _, content) =>
    case Array(_, items) => SequencesAreUnique(data, body, items, j.items);
    case Map(_, items) => SequencesAreUnique(data, body, items, j.items);
    case Tag(_, _, inner) => ItemsAreUnique(data, body, inner, j.inner);
  }

  lemma {:induction false} SequencesAreUnique(data: bytes, pos: nat, s: seq<Item>, t: seq<Item>)
    requires |s| == |t|
    requires AllValid(s) && At(data, pos, EncodeAll(s))
    requires AllValid(t) && At(data, pos, EncodeAll(t))
    ensures s == t
    decreases s, 0
  {
    hide Encode, Valid;
    if s != [] {
      AtConcat(data, pos, Encode(s[0]), EncodeAll(s[1..]));
      AtConcat(data, pos, Encode(t[0]), EncodeAll(t[1..]));
      ItemsAreUnique(data, pos, s[0], t[0]);
      SequencesAreUnique(data, pos + |Encode(s[0])|, s[1..], t[1..]);
      assert s == [s[0]] + s[1..] && t == [t[0]] + t[1..];
    }
  }
}
