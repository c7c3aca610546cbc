/**
 The binary TCG event-log parsers (PC Client Platform Firmware Profile, sections
 10.2.1, 10.2.2 and 10.4.5.1). Each loop of the parser is a method, proved equal
 to a recursive function on the same buffer; that function also reports in which
 form, raw or length-prefixed, it took every digest.
 */
module EventLog {
  import opened Bytes
  import opened Algorithms

  const MAX_DIGEST_COUNT := 32
  const MAX_EVENT_DATA_SIZE := 2 * 1024 * 1024
  const SPEC_ID_EVENT_TYPE: u32 := 0x0000_0003

  /** The ASCII bytes of "Spec ID Event". */
  const SPEC_ID_SIGNATURE: bytes :=
    [0x53, 0x70, 0x65, 0x63, 0x20, 0x49, 0x44, 0x20, 0x45, 0x76, 0x65, 0x6E, 0x74]

  datatype EventDigest = EventDigest(algId: u16, digest: bytes)

  datatype Event = Event(pcrIndex: u32, eventType: u32, digests: seq<EventDigest>, data: bytes)

  datatype SpecAlgorithm = SpecAlgorithm(algId: u16, digestSize: u16)

  /** The signature is kept as its sixteen bytes. */
  datatype SpecId = SpecId(
    signature: bytes, platformClass: u32,
    major: byte, minor: byte, errata: byte, uintnSize: byte,
    algorithms: seq<SpecAlgorithm>, vendorInfo: bytes)

  datatype ParseError =
    | U16PastEnd
    | U32PastEnd
    | TruncatedEntry
    | DigestCountLimit
    | PrefixTruncated
    | UnknownDigestLength(algId: u16)
    | DigestExceedsBuffer
    | DataSizeLimit
    | DataExceedsBuffer
    | EmptySpecId
    | NoProgress
    | SpecIdTooShort
    | SpecIdSignature
    | SpecIdVersion
    | SpecIdCountLimit
    | SpecIdVendorMissing
    | SpecIdVendorTruncated
    | NotJson

  /** Digest sizes announced by Spec ID events; a size of zero is never entered. */
  type SizeTable = map<u16, nat>

  /** How the parser looks for a digest: by the known size, or always behind a length prefix. */
  datatype DigestEncoding = Auto | WithPrefix

  /** How one digest stands in the log. */
  datatype Form = Raw | Prefixed

  /** `data.len().saturating_sub(c)` */
  function Left(data: bytes, c: nat): nat {
    if c <= |data| then |data| - c else 0
  }

  // ---------------------------------------------------------------- integers

  function ReadU16(data: bytes, c: nat): (r: Result<(u16, nat), ParseError>)
    ensures r.Ok? ==> r.value.1 == c + 2 <= |data|
  {
    if c + 2 > |data| then Err(U16PastEnd) else Ok((GetLE16(data, c), c + 2))
  }

  function ReadU32(data: bytes, c: nat): (r: Result<(u32, nat), ParseError>)
    ensures r.Ok? ==> r.value.1 == c + 4 <= |data|
  {
    if c + 4 > |data| then Err(U32PastEnd) else Ok((GetLE32(data, c), c + 4))
  }

  // ---------------------------------------------------------------- Spec ID events

  function ReadSpecAlgorithms(data: bytes, c: nat, n: nat): (r: Result<(seq<SpecAlgorithm>, nat), ParseError>)
    requires c <= |data|
    ensures r.Ok? ==> c <= r.value.1 <= |data|
    decreases n
  {
    if n == 0 then Ok(([], c)) else
    var (alg, c1) :- ReadU16(data, c);
    var (size, c2) :- ReadU16(data, c1);
    var (rest, c3) :- ReadSpecAlgorithms(data, c2, n - 1);
    Ok(([SpecAlgorithm(alg, size)] + rest, c3))
  }

  function ReadVendorInfo(data: bytes, c: nat): Result<bytes, ParseError> {
    if c >= |data| then Err(SpecIdVendorMissing)
    else if c + 1 + data[c] > |data| then Err(SpecIdVendorTruncated)
    else Ok(data[c + 1..c + 1 + data[c]])
  }

  function ReadSpecId(data: bytes): Result<SpecId, ParseError> {
    if |data| < 16 then Err(SpecIdTooShort)
    else if data[..13] != SPEC_ID_SIGNATURE then Err(SpecIdSignature)
    else
      var (platformClass, _) :- ReadU32(data, 16);
      if 24 > |data| then Err(SpecIdVersion) else
      var (count, _) :- ReadU32(data, 24);
      if count > MAX_DIGEST_COUNT then Err(SpecIdCountLimit) else
      var (algorithms, c) :- ReadSpecAlgorithms(data, 28, count);
      var vendorInfo :- ReadVendorInfo(data, c);
      Ok(SpecId(data[..16], platformClass, data[20], data[21], data[22], data[23], algorithms, vendorInfo))
  }

  /** The loop of `parse_spec_id_event` over the announced algorithms. */
  method ParseSpecAlgorithms(data: bytes, start: nat, count: nat)
    returns (r: Result<(seq<SpecAlgorithm>, nat), ParseError>)
    requires start <= |data|
    ensures r == ReadSpecAlgorithms(data, start, count)
  {
    hide GetLE16;
    var algorithms, cursor: nat := [], start;
    for i := 0 to count
      invariant cursor <= |data|
      invariant match ReadSpecAlgorithms(data, start, count)
                case Ok((all, end)) =>
                  var rest := ReadSpecAlgorithms(data, cursor, count - i);
                  rest.Ok? && all == algorithms + rest.value.0 && end == rest.value.1
                case Err(e) => ReadSpecAlgorithms(data, cursor, count - i) == Err(e)
    {
      var algId :- ReadU16(data, cursor);
      var size :- ReadU16(data, cursor + 2);
      cursor := cursor + 4;
      algorithms := algorithms + [SpecAlgorithm(algId.0, size.0)];
    }
    assert algorithms + [] == algorithms;
    return Ok((algorithms, cursor));
  }

  /** `parse_spec_id_event` */
  method ParseSpecIdEvent(data: bytes) returns (r: Result<SpecId, ParseError>)
    ensures r == ReadSpecId(data)
  {
    hide ReadSpecAlgorithms, ReadVendorInfo, GetLE32;
    if |data| < 16 {
      return Err(SpecIdTooShort);
    }
    if data[..13] != SPEC_ID_SIGNATURE {
      return Err(SpecIdSignature);
    }
    var platformClass :- ReadU32(data, 16);
    var cursor := 20;
    if cursor + 4 > |data| {
      return Err(SpecIdVersion);
    }
    var major, minor, errata, uintnSize := data[cursor], data[cursor + 1], data[cursor + 2], data[cursor + 3];
    cursor := cursor + 4;
    var count :- ReadU32(data, cursor);
    cursor := cursor + 4;
    if count.0 > MAX_DIGEST_COUNT {
      return Err(SpecIdCountLimit);
    }
    var parsed := ParseSpecAlgorithms(data, cursor, count.0);
    var algorithms :- parsed;
    var vendorInfo :- ReadVendorInfo(data, algorithms.1);
    return Ok(SpecId(data[..16], platformClass.0, major, minor, errata, uintnSize, algorithms.0, vendorInfo));
  }

  /** The table after the sizes of `algorithms` are entered in order; zero sizes are passed over. */
  function Entered(table: SizeTable, algorithms: seq<SpecAlgorithm>): SizeTable
    decreases |algorithms|
  {
    if algorithms == [] then table else
    var a := algorithms[0];
    Entered(if a.digestSize == 0 then table else table[a.algId := a.digestSize], algorithms[1..])
  }

  /** The entry announces a size for the algorithm. */
  predicate Announces(a: SpecAlgorithm, id: u16) {
    a.algId == id && a.digestSize != 0
  }

  ghost predicate IsLastSize(algorithms: seq<SpecAlgorithm>, id: u16, i: nat) {
    i < |algorithms| && Announces(algorithms[i], id) && forall j | i < j < |algorithms| :: !Announces(algorithms[j], id)
  }

  ghost predicate Unannounced(algorithms: seq<SpecAlgorithm>, id: u16) {
    forall i | 0 <= i < |algorithms| :: !Announces(algorithms[i], id)
  }

  /** The algorithm has the last size announced for it that is not zero, or if there is none, what it had before. */
  ghost predicate HasLastSize(before: SizeTable, algorithms: seq<SpecAlgorithm>, after: SizeTable, id: u16) {
    (forall i: nat | IsLastSize(algorithms, id, i) :: id in after && after[id] == algorithms[i].digestSize as nat) &&
    (Unannounced(algorithms, id) ==> (id in after <==> id in before) && (id in before ==> after[id] == before[id]))
  }

  lemma {:induction false} EnteredIsTheLastSize(table: SizeTable, algorithms: seq<SpecAlgorithm>, id: u16)
    ensures HasLastSize(table, algorithms, Entered(table, algorithms), id)
    decreases |algorithms|
  {
    if algorithms != [] {
      var a, rest := algorithms[0], algorithms[1..];
      var next := if a.digestSize == 0 then table else table[a.algId := a.digestSize as nat];
      EnteredIsTheLastSize(next, rest, id);
      assert Unannounced(algorithms, id) ==> Unannounced(rest, id);
      forall i: nat | IsLastSize(algorithms, id, i)
        ensures id in Entered(table, algorithms) && Entered(table, algorithms)[id] == algorithms[i].digestSize as nat
      {
        if i == 0 {
          assert Unannounced(rest, id) by {
            assert forall j | 0 <= j < |rest| :: rest[j] == algorithms[j + 1];
          }
        } else {
          assert IsLastSize(rest, id, i - 1) by {
            assert forall j | i - 1 < j < |rest| :: rest[j] == algorithms[j + 1];
          }
        }
      }
    }
  }

  /** The loop that enters a Spec ID event's sizes in the table. */
  method EnterSizes(table: SizeTable, algorithms: seq<SpecAlgorithm>) returns (t: SizeTable)
    ensures t == Entered(table, algorithms)
    ensures forall id: u16 :: HasLastSize(table, algorithms, t, id)
  {
    hide HasLastSize;
    t := table;
    for i := 0 to |algorithms|
      invariant Entered(table, algorithms) == Entered(t, algorithms[i..])
    {
      var a := algorithms[i];
      assert algorithms[i..][1..] == algorithms[i + 1..];
      if a.digestSize != 0 {
        t := t[a.algId := a.digestSize];
      }
    }
    forall id: u16
      ensures HasLastSize(table, algorithms, t, id)
    {
      EnteredIsTheLastSize(table, algorithms, id);
    }
  }

  /** The table that the entries after `e` are parsed with. */
  function TableAfter(table: SizeTable, e: Event): SizeTable {
    if e.eventType == SPEC_ID_EVENT_TYPE && ReadSpecId(e.data).Ok?
    then Entered(table, ReadSpecId(e.data).value.algorithms)
    else table
  }

  /** The digest size of an algorithm: from the table, else built in, else zero for unknown. */
  function SizeOf(algId: u16, table: SizeTable): nat {
    if algId in table then table[algId] else
    match FromAlgId(algId)
    case Some(a) => a.DigestLen()
    case None => 0
  }

  // ---------------------------------------------------------------- crypto-agile digests

  datatype Field = Field(len: nat, form: Form, next: nat)

  datatype ParsedDigest = ParsedDigest(digest: EventDigest, form: Form, next: nat)

  datatype ParsedDigests = ParsedDigests(digests: seq<EventDigest>, forms: seq<Form>, next: nat)

  /** Decides where a digest of known size (zero if unknown) begins, and how long it is. */
  function LocateDigest(data: bytes, c: nat, known: nat, mode: DigestEncoding): (r: Result<Field, ParseError>)
    requires c <= |data|
    ensures r.Ok? ==> c <= r.value.next <= |data|
  {
    var remaining := |data| - c;
    if mode == WithPrefix || known == 0 then
      if remaining < 2 then Err(PrefixTruncated) else Ok(Field(GetLE16(data, c), Prefixed, c + 2))
    else if remaining >= 2 && GetLE16(data, c) == known && remaining >= known + 2 then
      Ok(Field(known, Prefixed, c + 2))
    else
      Ok(Field(known, Raw, c))
  }

  function ReadDigest(data: bytes, c: nat, eventType: u32, table: SizeTable, mode: DigestEncoding):
    (r: Result<ParsedDigest, ParseError>)
    ensures r.Ok? ==> c < r.value.next <= |data|
  {
    var (algId, c1) :- ReadU16(data, c);
    var f :- LocateDigest(data, c1, SizeOf(algId, table), mode);
    if f.len == 0 then
      if eventType == SPEC_ID_EVENT_TYPE then Ok(ParsedDigest(EventDigest(algId, []), f.form, f.next))
      else Err(UnknownDigestLength(algId))
    else if f.len > |data| - f.next then Err(DigestExceedsBuffer)
    else Ok(ParsedDigest(EventDigest(algId, data[f.next..f.next + f.len]), f.form, f.next + f.len))
  }

  function ReadDigests(data: bytes, c: nat, eventType: u32, n: nat, table: SizeTable, mode: DigestEncoding):
    (r: Result<ParsedDigests, ParseError>)
    ensures r.Ok? ==> c <= r.value.next && (c <= |data| ==> r.value.next <= |data|)
    ensures r.Ok? ==> |r.value.digests| == |r.value.forms| == n
    decreases n
  {
    if n == 0 then Ok(ParsedDigests([], [], c)) else
    var x :- ReadDigest(data, c, eventType, table, mode);
    var rest :- ReadDigests(data, x.next, eventType, n - 1, table, mode);
    Ok(ParsedDigests([x.digest] + rest.digests, [x.form] + rest.forms, rest.next))
  }

  /** One turn of the loop of `parse_event2_digests`. */
  method ParseEvent2Digest(data: bytes, start: nat, eventType: u32, table: SizeTable, mode: DigestEncoding)
    returns (r: Result<(EventDigest, nat), ParseError>)
    ensures r == match ReadDigest(data, start, eventType, table, mode)
                 case Ok(x) => Ok((x.digest, x.next))
                 case Err(e) => Err(e)
  {
    hide GetLE16, SizeOf;
    var algId :- ReadU16(data, start);
    var cursor := start + 2;
    var digestLen := SizeOf(algId.0, table);
    var remaining := |data| - cursor;
    if mode == WithPrefix || digestLen == 0 {
      if remaining < 2 {
        return Err(PrefixTruncated);
      }
      digestLen := GetLE16(data, cursor);
      cursor := cursor + 2;
    } else if remaining >= 2 {
      var possibleLen := GetLE16(data, cursor);
      if possibleLen == digestLen && remaining >= digestLen + 2 {
        cursor := cursor + 2;
      }
    }
    if digestLen == 0 {
      if eventType == SPEC_ID_EVENT_TYPE {
        return Ok((EventDigest(algId.0, []), cursor));
      }
      return Err(UnknownDigestLength(algId.0));
    }
    if digestLen > |data| - cursor {
      return Err(DigestExceedsBuffer);
    }
    return Ok((EventDigest(algId.0, data[cursor..cursor + digestLen]), cursor + digestLen));
  }

  /** `parse_event2_digests` */
  method ParseEvent2Digests(data: bytes, start: nat, eventType: u32, digestCount: nat, table: SizeTable,
                            mode: DigestEncoding)
    returns (r: Result<(seq<EventDigest>, nat), ParseError>)
    ensures r == match ReadDigests(data, start, eventType, digestCount, table, mode)
                 case Ok(p) => Ok((p.digests, p.next))
                 case Err(e) => Err(e)
  {
    hide ReadDigest;
    var digests, cursor: nat := [], start;
    for i := 0 to digestCount
      invariant match ReadDigests(data, start, eventType, digestCount, table, mode)
                case Ok(p) =>
                  var rest := ReadDigests(data, cursor, eventType, digestCount - i, table, mode);
                  rest.Ok? && p.digests == digests + rest.value.digests && p.next == rest.value.next
                case Err(e) => ReadDigests(data, cursor, eventType, digestCount - i, table, mode) == Err(e)
    {
      var parsed := ParseEvent2Digest(data, cursor, eventType, table, mode);
      var digest :- parsed;
      digests := digests + [digest.0];
      cursor := digest.1;
    }
    assert digests + [] == digests;
    return Ok((digests, cursor));
  }

  // ---------------------------------------------------------------- crypto-agile entries

  datatype ParsedEntry = ParsedEntry(event: Event, forms: seq<Form>, next: nat)

  /** The checks on the payload once its size is read; `c` is where the payload begins. */
  function ReadPayload(data: bytes, c: nat, pcrIndex: u32, eventType: u32, ds: ParsedDigests, size: u32):
    (r: Result<ParsedEntry, ParseError>)
    requires c <= |data|
    ensures r.Ok? ==> c <= r.value.next <= |data|
  {
    if size > MAX_EVENT_DATA_SIZE then Err(DataSizeLimit)
    else if c + size > |data| then Err(DataExceedsBuffer)
    else if size == 0 && eventType == SPEC_ID_EVENT_TYPE then Err(EmptySpecId)
    else Ok(ParsedEntry(Event(pcrIndex, eventType, ds.digests, data[c..c + size]), ds.forms, c + size))
  }

  function ReadEntry2(data: bytes, c: nat, table: SizeTable): (r: Result<ParsedEntry, ParseError>)
    ensures r.Ok? ==> r.value.next <= |data|
  {
    if Left(data, c) < 12 then Err(TruncatedEntry) else
    var pcrIndex, eventType, count := GetLE32(data, c), GetLE32(data, c + 4), GetLE32(data, c + 8);
    if count > MAX_DIGEST_COUNT then Err(DigestCountLimit) else
    var ds :- ReadDigests(data, c + 12, eventType, count, table, Auto);
    var (size, p) :- ReadU32(data, ds.next);
    if size > MAX_EVENT_DATA_SIZE || p + size > |data| then
      var ds' :- ReadDigests(data, c + 12, eventType, count, table, WithPrefix);
      var (size', p') :- ReadU32(data, ds'.next);
      ReadPayload(data, p', pcrIndex, eventType, ds', size')
    else
      ReadPayload(data, p, pcrIndex, eventType, ds, size)
  }

  datatype ParsedLog = ParsedLog(events: seq<Event>, forms: seq<seq<Form>>, table: SizeTable)

  function ReadEntries2(data: bytes, c: nat, table: SizeTable): (r: Result<ParsedLog, ParseError>)
    ensures r.Ok? ==> |r.value.events| == |r.value.forms|
    decreases Left(data, c)
  {
    if c >= |data| then Ok(ParsedLog([], [], table)) else
    var x :- ReadEntry2(data, c, table);
    if x.next <= c then Err(NoProgress) else
    var rest :- ReadEntries2(data, x.next, TableAfter(table, x.event));
    Ok(ParsedLog([x.event] + rest.events, [x.forms] + rest.forms, rest.table))
  }

  /** One turn of `parse_event2_entries_from`, with its reset of the cursor; answers the event and the new cursor. */
  method ParseEvent2Entry(data: bytes, start: nat, table: SizeTable) returns (r: Result<(Event, nat), ParseError>)
    requires start < |data|
    ensures r == match ReadEntry2(data, start, table)
                 case Ok(x) => Ok((x.event, x.next))
                 case Err(e) => Err(e)
  {
    hide ReadDigests, GetLE32;
    var cursor := start;
    if Left(data, cursor) < 12 {
      return Err(TruncatedEntry);
    }
    // Twelve bytes are left, so the three reads cannot fail.
    var pcrIndex, eventType := GetLE32(data, cursor), GetLE32(data, cursor + 4);
    var digestCount := GetLE32(data, cursor + 8);
    cursor := cursor + 12;
    if digestCount > MAX_DIGEST_COUNT {
      return Err(DigestCountLimit);
    }
    var afterHeader := cursor;

    var auto := ParseEvent2Digests(data, cursor, eventType, digestCount, table, Auto);
    var digests :- auto;
    cursor := digests.1;
    var size :- ReadU32(data, cursor);
    cursor := cursor + 4;
    if size.0 > MAX_EVENT_DATA_SIZE || cursor + size.0 > |data| {
      cursor := afterHeader;
      var prefixed := ParseEvent2Digests(data, cursor, eventType, digestCount, table, WithPrefix);
      digests :- prefixed;
      cursor := digests.1;
      size :- ReadU32(data, cursor);
      cursor := cursor + 4;
    }

    if size.0 > MAX_EVENT_DATA_SIZE {
      return Err(DataSizeLimit);
    }
    if cursor + size.0 > |data| {
      return Err(DataExceedsBuffer);
    }
    if size.0 == 0 && eventType == SPEC_ID_EVENT_TYPE {
      return Err(EmptySpecId);
    }
    var payload := data[cursor..cursor + size.0];
    cursor := cursor + size.0;
    return Ok((Event(pcrIndex, eventType, digests.0, payload), cursor));
  }

  /** `parse_event2_entries_from`: the events are pushed to `before`. */
  method ParseEvent2EntriesFrom(data: bytes, start: nat, before: seq<Event>, table: SizeTable)
    returns (r: Result<seq<Event>, ParseError>)
    ensures r == match ReadEntries2(data, start, table)
                 case Ok(log) => Ok(before + log.events)
                 case Err(e) => Err(e)
  {
    hide ReadEntry2, HasLastSize;
    var cursor: nat, events, sizes := start, before, table;
    while cursor < |data|
      invariant match ReadEntries2(data, start, table)
                case Ok(log) => ReadEntries2(data, cursor, sizes).Ok? &&
                                before + log.events == events + ReadEntries2(data, cursor, sizes).value.events
                case Err(e) => ReadEntries2(data, cursor, sizes) == Err(e)
      decreases Left(data, cursor)
    {
      var entryStart := cursor;
      var entry := ParseEvent2Entry(data, cursor, sizes);
      var parsed :- entry;
      cursor := parsed.1;
      if parsed.0.eventType == SPEC_ID_EVENT_TYPE {
        var spec := ParseSpecIdEvent(parsed.0.data);
        if spec.Ok? {
          sizes := EnterSizes(sizes, spec.value.algorithms);
        }
      }
      events := events + [parsed.0];
      if cursor <= entryStart {
        return Err(NoProgress);
      }
    }
    assert events + [] == events;
    return Ok(events);
  }

  // ---------------------------------------------------------------- SHA-1 entries

  function ReadEntry1(data: bytes, c: nat): (r: Result<(Event, nat), ParseError>)
    ensures r.Ok? ==> c + 32 <= r.value.1 <= |data|
  {
    if Left(data, c) < 28 then Err(TruncatedEntry) else
    var pcrIndex, eventType := GetLE32(data, c), GetLE32(data, c + 4);
    var digest := data[c + 8..c + 28];
    var (size, p) :- ReadU32(data, c + 28);
    if size > MAX_EVENT_DATA_SIZE then Err(DataSizeLimit)
    else if p + size > |data| then Err(DataExceedsBuffer)
    else Ok((Event(pcrIndex, eventType, [EventDigest(ALG_SHA1, digest)], data[p..p + size]), p + size))
  }

  function ReadEntries1(data: bytes, c: nat): Result<seq<Event>, ParseError>
    decreases Left(data, c)
  {
    if c >= |data| then Ok([]) else
    var (e, next) :- ReadEntry1(data, c);
    var rest :- ReadEntries1(data, next);
    Ok([e] + rest)
  }

  /** `parse_event1_entries_from`: the events are pushed to `before`. */
  method ParseEvent1EntriesFrom(data: bytes, start: nat, before: seq<Event>) returns (r: Result<seq<Event>, ParseError>)
    ensures r == match ReadEntries1(data, start)
                 case Ok(events) => Ok(before + events)
                 case Err(e) => Err(e)
  {
    hide ReadEntry1;
    var cursor: nat, events := start, before;
    while cursor < |data|
      invariant match ReadEntries1(data, start)
                case Ok(all) => ReadEntries1(data, cursor).Ok? &&
                                before + all == events + ReadEntries1(data, cursor).value
                case Err(e) => ReadEntries1(data, cursor) == Err(e)
      decreases Left(data, cursor)
    {
      var entry :- ReadEntry1(data, cursor);
      events := events + [entry.0];
      cursor := entry.1;
    }
    assert events + [] == events;
    return Ok(events);
  }

  // ---------------------------------------------------------------- the chain of alternatives

  /** A Spec ID event after which the log goes on in the crypto-agile layout. */
  predicate IsCryptoAgile(data: bytes) {
    match ReadSpecId(data)
    case Ok(spec) => spec.major >= 2 || exists a :: a in spec.algorithms && a.algId != ALG_SHA1
    case Err(_) => false
  }

  function AfterSpecId(data: bytes): SizeTable {
    match ReadSpecId(data)
    case Ok(spec) => Entered(map[], spec.algorithms)
    case Err(_) => map[]
  }

  /** What `parse_event_log_with_event1_spec` must answer. */
  function ReadSpecFirst(data: bytes): Result<seq<Event>, ParseError> {
    var (e, next) :- ReadEntry1(data, 0);
    if IsCryptoAgile(e.data) then
      var log :- ReadEntries2(data, next, AfterSpecId(e.data));
      Ok([e] + log.events)
    else
      var rest :- ReadEntries1(data, next);
      Ok([e] + rest)
  }

  function ReadAgile(data: bytes): Result<seq<Event>, ParseError> {
    var log :- ReadEntries2(data, 0, map[]);
    Ok(log.events)
  }

  function ReadSha1(data: bytes): Result<seq<Event>, ParseError> {
    ReadEntries1(data, 0)
  }

  function ReadLog(data: bytes, json: bytes -> Result<seq<Event>, ParseError>): Result<seq<Event>, ParseError> {
    if ReadSpecFirst(data).Ok? then ReadSpecFirst(data)
    else if ReadAgile(data).Ok? then ReadAgile(data)
    else if ReadSha1(data).Ok? then ReadSha1(data)
    else json(data)
  }

  /** `parse_event_log_with_event1_spec` */
  method ParseEventLogWithEvent1Spec(data: bytes) returns (r: Result<seq<Event>, ParseError>)
    ensures r == ReadSpecFirst(data)
  {
    hide ReadEntry1, ReadSpecId, Entered, ReadEntries1, ReadEntries2;
    var first :- ReadEntry1(data, 0);
    var table: SizeTable := map[];
    var major: byte, multiple := 0, false;
    var spec := ParseSpecIdEvent(first.0.data);
    if spec.Ok? {
      major := spec.value.major;
      table := EnterSizes(table, spec.value.algorithms);
      multiple := exists a :: a in spec.value.algorithms && a.algId != ALG_SHA1;
    }
    if major >= 2 || multiple {
      r := ParseEvent2EntriesFrom(data, first.1, [first.0], table);
    } else {
      r := ParseEvent1EntriesFrom(data, first.1, [first.0]);
    }
  }

  /** `parse_event_log`; the JSON reader, which is tried last, is a parameter. */
  method ParseEventLog(data: bytes, json: bytes -> Result<seq<Event>, ParseError>)
    returns (r: Result<seq<Event>, ParseError>)
    ensures r == ReadLog(data, json)
  {
    hide ReadSpecFirst, ReadEntries1, ReadEntries2;
    assert forall s: seq<Event> :: [] + s == s;
    r := ParseEventLogWithEvent1Spec(data);
    if r.Err? {
      r := ParseEvent2EntriesFrom(data, 0, [], map[]);
    }
    if r.Err? {
      r := ParseEvent1EntriesFrom(data, 0, []);
    }
    if r.Err? {
      r := json(data);
    }
  }
}
