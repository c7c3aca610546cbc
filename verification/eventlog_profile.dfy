/**
 Logs as the PC Client Platform Firmware Profile lets firmware write them, said without the parser: which sizes are
 known where in a log follows from the Spec ID events written so far. `parse_event_log` answers such logs exactly
 when no raw digest spells its own length.
 */
module EventLogProfile {
  import opened Bytes
  import opened Algorithms
  import opened EventLog
  import opened EventLogFormat
  import opened EventLogForms
  import opened EventLogLayouts

  // ---------------------------------------------------------------- announced sizes

  /** The sizes that hold when nothing is announced: of SHA-1, SHA-256 and SHA-384. */
  function BuiltIn(id: u16): nat {
    if id == 0x0004 then 20 else if id == 0x000B then 32 else if id == 0x000C then 48 else 0
  }

  /**
   The size known for an algorithm: the last one announced that is not zero, else the built-in one; zero if
   unknown.
   */
  function KnownSize(announced: seq<SpecAlgorithm>, id: u16): (r: nat)
    ensures r < 0x1_0000
  {
    if announced == [] then BuiltIn(id) else
    var a := announced[|announced| - 1];
    if a.algId == id && a.digestSize != 0 then a.digestSize else KnownSize(announced[..|announced| - 1], id)
  }

  lemma {:induction false} KnownSizeIsTheLast(announced: seq<SpecAlgorithm>, id: u16, i: nat)
    requires IsLastSize(announced, id, i)
    ensures KnownSize(announced, id) == announced[i].digestSize as nat
    decreases |announced|
  {
    var n := |announced| - 1;
    if i < n {
      assert !Announces(announced[n], id);
      KnownSizeIsTheLast(announced[..n], id, i);
    }
  }

  lemma {:induction false} KnownSizeIsBuiltIn(announced: seq<SpecAlgorithm>, id: u16)
    requires Unannounced(announced, id)
    ensures KnownSize(announced, id) == BuiltIn(id)
    decreases |announced|
  {
    if announced != [] {
      assert !Announces(announced[|announced| - 1], id);
      KnownSizeIsBuiltIn(announced[..|announced| - 1], id);
    }
  }

  /** The payload begins with an encoded Spec ID event. */
  ghost predicate Opens(payload: bytes, id: SpecId) {
    SpecIdWritable(id) && At(payload, 0, EncodeSpecId(id))
  }

  /** What an event announces, behind all that was announced before. */
  ghost function Announced(before: seq<SpecAlgorithm>, e: Event): seq<SpecAlgorithm> {
    if e.eventType == 3 && exists id :: Opens(e.data, id) then
      var id :| Opens(e.data, id);
      before + id.algorithms
    else before
  }

  lemma OpensOne(payload: bytes, id: SpecId)
    requires Opens(payload, id)
    ensures ReadSpecId(payload) == Ok(id)
    ensures forall other | Opens(payload, other) :: other == id
  {
    hide SpecIdWritable, EncodeSpecId, ReadSpecId;
    ReadSpecIdIsExact(payload, id);
    forall other | Opens(payload, other)
      ensures other == id
    {
      ReadSpecIdIsExact(payload, other);
    }
  }

  /** The parser's table and the announcements so far say the same of every algorithm. */
  ghost predicate Tracks(table: SizeTable, announced: seq<SpecAlgorithm>) {
    forall id: u16 :: SizeOf(id, table) == KnownSize(announced, id)
  }

  lemma NothingAnnounced()
    ensures Tracks(map[], [])
  {
  }

  lemma OneMoreTracks(table: SizeTable, announced: seq<SpecAlgorithm>, a: SpecAlgorithm)
    requires Tracks(table, announced)
    ensures Tracks(if a.digestSize == 0 then table else table[a.algId := a.digestSize as nat], announced + [a])
  {
    var next: SizeTable := if a.digestSize == 0 then table else table[a.algId := a.digestSize as nat];
    forall id: u16
      ensures SizeOf(id, next) == KnownSize(announced + [a], id)
    {
      assert (announced + [a])[..|announced|] == announced;
      assert SizeOf(id, table) == KnownSize(announced, id);
    }
  }

  lemma {:induction false} EnteredTracks(table: SizeTable, announced: seq<SpecAlgorithm>,
                                         algorithms: seq<SpecAlgorithm>)
    requires Tracks(table, announced)
    ensures Tracks(Entered(table, algorithms), announced + algorithms)
    decreases |algorithms|
  {
    hide Tracks;
    if algorithms == [] {
      assert announced + algorithms == announced;
    } else {
      var a := algorithms[0];
      OneMoreTracks(table, announced, a);
      var next: SizeTable := if a.digestSize == 0 then table else table[a.algId := a.digestSize as nat];
      EnteredTracks(next, announced + [a], algorithms[1..]);
      assert announced + [a] + algorithms[1..] == announced + algorithms;
    }
  }

  lemma TableAfterTracks(table: SizeTable, announced: seq<SpecAlgorithm>, e: Event)
    requires Tracks(table, announced)
    ensures Tracks(TableAfter(table, e), Announced(announced, e))
  {
    hide Tracks, SpecIdWritable, EncodeSpecId, ReadSpecId, Entered;
    if ReadSpecId(e.data).Ok? {
      var id := ReadSpecId(e.data).value;
      ReadSpecIdIsExact(e.data, id);
      OpensOne(e.data, id);
      EnteredTracks(table, announced, id.algorithms);
    } else if id :| Opens(e.data, id) {
      OpensOne(e.data, id);
      assert false;
    }
  }

  lemma AfterOpeningTracks(payload: bytes, id: SpecId)
    requires Opens(payload, id)
    ensures Tracks(AfterSpecId(payload), id.algorithms)
  {
    hide Opens, Tracks, ReadSpecId, Entered;
    OpensOne(payload, id);
    NothingAnnounced();
    EnteredTracks(map[], [], id.algorithms);
    assert [] + id.algorithms == id.algorithms;
  }

  // ---------------------------------------------------------------- logs of the profile

  predicate ProfileDigest(d: EventDigest, f: Form, eventType: u32, announced: seq<SpecAlgorithm>) {
    var n := KnownSize(announced, d.algId);
    if n > 0 then |d.digest| == n
    else f == Prefixed && |d.digest| < 0x1_0000 && (d.digest == [] ==> eventType == 3)
  }

  ghost predicate ProfileEntry(e: Event, fs: seq<Form>, announced: seq<SpecAlgorithm>) {
    |fs| == |e.digests| <= 32 &&
    (forall i | 0 <= i < |fs| :: ProfileDigest(e.digests[i], fs[i], e.eventType, announced)) &&
    |e.data| <= 2 * 1024 * 1024 && (e.eventType == 3 ==> e.data != [])
  }

  /** Each entry keeps to the sizes known where it stands. */
  ghost predicate ProfileLog(events: seq<Event>, forms: seq<seq<Form>>, announced: seq<SpecAlgorithm>)
    requires |events| == |forms|
  {
    events == [] ||
    (ProfileEntry(events[0], forms[0], announced) &&
     ProfileLog(events[1..], forms[1..], Announced(announced, events[0])))
  }

  /** A prefixed digest of an algorithm whose known size is the algorithm's own number. */
  ghost predicate OwnNumbered(e: Event, fs: seq<Form>, announced: seq<SpecAlgorithm>, i: nat) {
    i < |e.digests| && i < |fs| && fs[i] == Prefixed && e.digests[i].algId != 0 &&
    KnownSize(announced, e.digests[i].algId) == e.digests[i].algId as nat
  }

  ghost predicate NoneOwnNumbered(events: seq<Event>, forms: seq<seq<Form>>, announced: seq<SpecAlgorithm>)
    requires |events| == |forms|
  {
    events == [] ||
    ((forall i: nat :: !OwnNumbered(events[0], forms[0], announced, i)) &&
     NoneOwnNumbered(events[1..], forms[1..], Announced(announced, events[0])))
  }

  lemma DigestAgrees(d: EventDigest, f: Form, eventType: u32, table: SizeTable, announced: seq<SpecAlgorithm>)
    requires Tracks(table, announced)
    ensures DigestWritable(d, f, eventType, table) <==> ProfileDigest(d, f, eventType, announced)
  {
    hide SizeOf, KnownSize;
    assert SizeOf(d.algId, table) == KnownSize(announced, d.algId);
  }

  lemma {:induction false} DigestsAgree(ds: seq<EventDigest>, fs: seq<Form>, eventType: u32, table: SizeTable,
                                        announced: seq<SpecAlgorithm>)
    requires |ds| == |fs| && Tracks(table, announced)
    ensures DigestsWritable(ds, fs, eventType, table) <==>
            forall i | 0 <= i < |ds| :: ProfileDigest(ds[i], fs[i], eventType, announced)
    decreases |ds|
  {
    hide Tracks, DigestWritable, ProfileDigest;
    if ds != [] {
      DigestAgrees(ds[0], fs[0], eventType, table, announced);
      DigestsAgree(ds[1..], fs[1..], eventType, table, announced);
      assert forall i | 0 < i < |ds| :: ds[i] == ds[1..][i - 1] && fs[i] == fs[1..][i - 1];
    }
  }

  lemma EntryAgrees(e: Event, fs: seq<Form>, table: SizeTable, announced: seq<SpecAlgorithm>)
    requires Tracks(table, announced)
    ensures EntryWritable(e, fs, table) <==> ProfileEntry(e, fs, announced)
    ensures |e.digests| == |fs| ==>
            (NoneOwnSized(e.digests, fs, table) <==> forall i: nat :: !OwnNumbered(e, fs, announced, i))
  {
    hide SizeOf, KnownSize, ProfileDigest, DigestsWritable;
    if |fs| == |e.digests| {
      DigestsAgree(e.digests, fs, e.eventType, table, announced);
      forall i: nat | i < |fs|
        ensures OwnSized(e.digests[i], fs[i], table) <==> OwnNumbered(e, fs, announced, i)
      {
        assert SizeOf(e.digests[i].algId, table) == KnownSize(announced, e.digests[i].algId);
      }
    }
  }

  /** The logs that the parser's own table lets be written are those of the profile. */
  lemma {:induction false} WritableIsProfile(events: seq<Event>, forms: seq<seq<Form>>, table: SizeTable,
                                             announced: seq<SpecAlgorithm>)
    requires |events| == |forms| && Tracks(table, announced)
    ensures LogWritable(events, forms, table) <==> ProfileLog(events, forms, announced)
    decreases |events|
  {
    hide Tracks, EntryWritable, ProfileEntry, TableAfter, Announced, NoneOwnSized, OwnNumbered;
    if events != [] {
      EntryAgrees(events[0], forms[0], table, announced);
      TableAfterTracks(table, announced, events[0]);
      WritableIsProfile(events[1..], forms[1..], TableAfter(table, events[0]), Announced(announced, events[0]));
    }
  }

  lemma {:induction false} OwnSizedIsOwnNumbered(events: seq<Event>, forms: seq<seq<Form>>, table: SizeTable,
                                                 announced: seq<SpecAlgorithm>)
    requires FormsFit(events, forms) && Tracks(table, announced)
    ensures LogHasNoOwnSized(events, forms, table) <==> NoneOwnNumbered(events, forms, announced)
    decreases |events|
  {
    hide Tracks, EntryWritable, ProfileEntry, TableAfter, Announced, NoneOwnSized, OwnNumbered;
    if events != [] {
      EntryAgrees(events[0], forms[0], table, announced);
      TableAfterTracks(table, announced, events[0]);
      OwnSizedIsOwnNumbered(events[1..], forms[1..], TableAfter(table, events[0]), Announced(announced, events[0]));
    }
  }

  lemma {:induction false} ProfileFits(events: seq<Event>, forms: seq<seq<Form>>, announced: seq<SpecAlgorithm>)
    requires |events| == |forms| && ProfileLog(events, forms, announced)
    ensures FormsFit(events, forms)
    decreases |events|
  {
    hide Announced, ProfileDigest;
    if events != [] {
      ProfileFits(events[1..], forms[1..], Announced(announced, events[0]));
      assert forall i | 0 < i < |events| :: events[i] == events[1..][i - 1] && forms[i] == forms[1..][i - 1];
    }
  }

  // ---------------------------------------------------------------- which layout follows

  /**
   A Spec ID event behind which the log is in the crypto-agile layout: of version 2 or later, or of more than
   SHA-1.
   */
  predicate CallsForAgile(id: SpecId) {
    id.major >= 2 || exists i :: 0 <= i < |id.algorithms| && id.algorithms[i].algId != 0x0004
  }

  lemma CryptoAgileExactlyWhen(payload: bytes)
    ensures IsCryptoAgile(payload) <==> exists id :: Opens(payload, id) && CallsForAgile(id)
  {
    hide SpecIdWritable, EncodeSpecId, ReadSpecId;
    if ReadSpecId(payload).Ok? {
      var id := ReadSpecId(payload).value;
      ReadSpecIdIsExact(payload, id);
      assert Opens(payload, id);
      OpensOne(payload, id);
      CallsAgree(id);
    }
    if id :| Opens(payload, id) && CallsForAgile(id) {
      OpensOne(payload, id);
      CallsAgree(id);
    }
  }

  lemma CallsAgree(id: SpecId)
    ensures CallsForAgile(id) <==> id.major >= 2 || exists a :: a in id.algorithms && a.algId != ALG_SHA1
  {
    if a :| a in id.algorithms && a.algId != ALG_SHA1 {
      var i :| 0 <= i < |id.algorithms| && id.algorithms[i] == a;
    }
    if i :| 0 <= i < |id.algorithms| && id.algorithms[i].algId != 0x0004 {
      assert id.algorithms[i] in id.algorithms;
    }
  }

  // ---------------------------------------------------------------- which logs come back

  /** A first entry in the SHA-1 layout that carries the Spec ID event `id`, with zeros where its digest begins. */
  ghost predicate Opening(e: Event, id: SpecId) {
    Opens(e.data, id) && e.eventType == 3 && |e.data| <= 2 * 1024 * 1024 &&
    |e.digests| == 1 && e.digests[0].algId == 0x0004 && |e.digests[0].digest| == 20 &&
    forall k | 0 <= k < 8 :: e.digests[0].digest[k] == 0
  }

  lemma OpeningOpens(e: Event, id: SpecId)
    requires Opening(e, id) && CallsForAgile(id)
    ensures OpensCryptoAgile(e)
  {
    hide Opens, IsCryptoAgile, CallsForAgile;
    CryptoAgileExactlyWhen(e.data);
    assert e.digests[0].digest[..8] == LE32(0) + LE32(0);
  }

  /**
   `parse_event_log`, for every log of the profile behind a Spec ID entry that calls for the crypto-agile layout,
   of whatever version and with whatever algorithms announced there or later in the log: the events come back
   exactly when no raw field spells its own length. No prefixed digest may be of an algorithm numbered by its own
   size, and the JSON reader is taken not to answer the events by itself.
   */
  lemma {:induction false} ProfileLogsComeBack(opening: Event, id: SpecId, events: seq<Event>, forms: seq<seq<Form>>,
                                              json: bytes -> Result<seq<Event>, ParseError>)
    requires Opening(opening, id) && CallsForAgile(id)
    requires |events| == |forms| && ProfileLog(events, forms, id.algorithms)
    requires NoneOwnNumbered(events, forms, id.algorithms)
    ensures Writable1(opening) && FormsFit(events, forms)
    ensures var data := EncodeEntry1(opening) + EncodeLog2(events, forms);
            json(data) != Ok([opening] + events) ==>
            (ReadLog(data, json) == Ok([opening] + events) <==> LogUnambiguous(events, forms))
  {
    hide Opens, CallsForAgile, ProfileLog, NoneOwnNumbered, IsCryptoAgile, LogWritable, LogHasNoOwnSized,
         LogUnambiguous, EncodeLog2, EncodeEntry1, ReadLog, AfterSpecId, Tracks;
    OpeningOpens(opening, id);
    ProfileFits(events, forms, id.algorithms);
    AfterOpeningTracks(opening.data, id);
    WritableIsProfile(events, forms, AfterSpecId(opening.data), id.algorithms);
    OwnSizedIsOwnNumbered(events, forms, AfterSpecId(opening.data), id.algorithms);
    var data := EncodeEntry1(opening) + EncodeLog2(events, forms);
    if json(data) != Ok([opening] + events) {
      CryptoAgileExactly(opening, events, forms, json);
    }
  }

  /** The event loop, with nothing announced in front: for every log of the profile the same, by the built-in sizes. */
  lemma {:induction false} BareLogsComeBack(events: seq<Event>, forms: seq<seq<Form>>)
    requires |events| == |forms| && ProfileLog(events, forms, []) && NoneOwnNumbered(events, forms, [])
    ensures FormsFit(events, forms)
    ensures ReadAgile(EncodeLog2(events, forms)) == Ok(events) <==> LogUnambiguous(events, forms)
  {
    hide ProfileLog, NoneOwnNumbered, LogWritable, LogHasNoOwnSized, LogUnambiguous, EncodeLog2, ReadEntries2, Tracks;
    ProfileFits(events, forms, []);
    NothingAnnounced();
    WritableIsProfile(events, forms, map[], []);
    OwnSizedIsOwnNumbered(events, forms, map[], []);
    var data := EncodeLog2(events, forms);
    assert data[0..] == data;
    EventsComeBackExactly(data, 0, map[], events, forms);
  }

  /**
   So `parse_event_log` answers a crypto-agile log without an entry of the SHA-1 layout in front whenever the first
   alternative fails, also if the third would take it for a SHA-1 log.
   */
  lemma {:induction false} BareLogsComeSecond(events: seq<Event>, forms: seq<seq<Form>>,
                                              json: bytes -> Result<seq<Event>, ParseError>)
    requires |events| == |forms| && ProfileLog(events, forms, [])
    requires FormsFit(events, forms) && LogUnambiguous(events, forms)
    requires ReadSpecFirst(EncodeLog2(events, forms)).Err?
    ensures ReadLog(EncodeLog2(events, forms), json) == Ok(events)
  {
    hide ProfileLog, LogWritable, LogUnambiguous, EncodeLog2, ReadEntries2, Tracks, ReadSpecFirst, ReadSha1;
    NothingAnnounced();
    WritableIsProfile(events, forms, map[], []);
    var data := EncodeLog2(events, forms);
    assert data[0..] == data;
    WrittenLogsAreReadBack(data, 0, map[], events, forms);
  }

  /**
   Every other log whose first entry is in the SHA-1 layout is read on in that layout: no Spec ID, or an old one
   of SHA-1 alone.
   */
  lemma {:induction false} Sha1LogsComeBack(events: seq<Event>, json: bytes -> Result<seq<Event>, ParseError>)
    requires AllWritable1(events)
    requires events == [] || forall id | Opens(events[0].data, id) :: !CallsForAgile(id)
    ensures ReadLog(EncodeLog1(events), json) == Ok(events)
  {
    hide Opens, CallsForAgile, IsCryptoAgile, EncodeLog1, ReadLog, Writable1;
    if events != [] {
      CryptoAgileExactlyWhen(events[0].data);
    }
    Sha1RoundTrip(events, json);
  }

  // ---------------------------------------------------------------- one digest behind one announcement

  /** An event with one digest. */
  function OneDigest(pcrIndex: u32, eventType: u32, algId: u16, digest: bytes, payload: bytes): Event {
    Event(pcrIndex, eventType, [EventDigest(algId, digest)], payload)
  }

  lemma {:induction false} OneRawDigest(e: Event, announced: seq<SpecAlgorithm>)
    requires |e.digests| == 1 && e.eventType != 3 && |e.data| <= 2 * 1024 * 1024
    requires |e.digests[0].digest| >= 2 && KnownSize(announced, e.digests[0].algId) == |e.digests[0].digest|
    ensures ProfileLog([e], [[Raw]], announced) && NoneOwnNumbered([e], [[Raw]], announced)
    ensures FormsFit([e], [[Raw]])
    ensures LogUnambiguous([e], [[Raw]]) <==> !SpellsItsLength(e.digests[0].digest, 0)
  {
    hide KnownSize;
    var events, forms, fs := [e], [[Raw]], [Raw];
    assert forms[0] == fs;
    assert ProfileEntry(e, fs, announced);
    assert ProfileLog(events[1..], forms[1..], Announced(announced, e));
    assert NoneOwnNumbered(events[1..], forms[1..], Announced(announced, e));
    assert LogUnambiguous(events[1..], forms[1..]);
    assert DigestsUnambiguous(e.digests[1..], fs[1..], |e.data|);
  }

  /**
   A Spec ID event inside a log takes effect: behind it, a raw digest of the size that it announces last for the
   algorithm comes back, unless it spells its own length. The log has no entry in the SHA-1 layout in front.
   */
  lemma AnnouncementTakesEffect(first: Event, id: SpecId, i: nat, e: Event)
    requires Opens(first.data, id) && first.eventType == 3 && first.digests == [] && |first.data| <= 2 * 1024 * 1024
    requires |e.digests| == 1 && e.eventType != 3 && |e.data| <= 2 * 1024 * 1024 && |e.digests[0].digest| >= 2
    requires IsLastSize(id.algorithms, e.digests[0].algId, i)
    requires |e.digests[0].digest| == id.algorithms[i].digestSize as nat
    ensures FormsFit([first, e], [[], [Raw]])
    ensures ReadAgile(EncodeLog2([first, e], [[], [Raw]])) == Ok([first, e]) <==>
            !SpellsItsLength(e.digests[0].digest, 0)
  {
    hide KnownSize, ReadAgile, EncodeLog2, IsLastSize, ReadSpecId, Opens;
    var events, forms := [first, e], [[], [Raw]];
    KnownSizeIsTheLast(id.algorithms, e.digests[0].algId, i);
    OneRawDigest(e, id.algorithms);
    AnnouncedByOne(first, id);
    assert events[1..] == [e] && forms[1..] == [[Raw]];
    BareLogsComeBack(events, forms);
  }

  lemma AnnouncedByOne(e: Event, id: SpecId)
    requires Opens(e.data, id) && e.eventType == 3 && e.digests == [] && |e.data| <= 2 * 1024 * 1024
    ensures Announced([], e) == id.algorithms && ProfileEntry(e, [], [])
  {
    hide ReadSpecId, EncodeSpecId, SpecIdWritable;
    OpensOne(e.data, id);
    assert [] + id.algorithms == id.algorithms;
    PayloadIsThere(e.data, id);
  }

  lemma PayloadIsThere(payload: bytes, id: SpecId)
    requires Opens(payload, id)
    ensures payload != []
  {
    hide EncodeSpecId;
    SpecIdLength(id);
  }

  /** Without any announcement, raw digests of 20, 32 and 48 bytes come back for the three built-in algorithms. */
  lemma BuiltInSizesHold(e: Event)
    requires |e.digests| == 1 && e.eventType != 3 && |e.data| <= 2 * 1024 * 1024
    requires var d := e.digests[0];
             (d.algId == 0x0004 && |d.digest| == 20) || (d.algId == 0x000B && |d.digest| == 32) ||
             (d.algId == 0x000C && |d.digest| == 48)
    ensures FormsFit([e], [[Raw]])
    ensures ReadAgile(EncodeLog2([e], [[Raw]])) == Ok([e]) <==> !SpellsItsLength(e.digests[0].digest, 0)
  {
    hide ReadAgile, EncodeLog2;
    OneRawDigest(e, []);
    BareLogsComeBack([e], [[Raw]]);
  }
}
