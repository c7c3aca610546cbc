/**
 The SHA-1 layout, the Spec ID event, and the chain of alternatives in
 `parse_event_log`: which layouts it takes, and that it reads each of them back.
 */
module EventLogLayouts {
  import opened Bytes
  import opened EventLog
  import opened EventLogFormat
  import opened EventLogForms

  // ---------------------------------------------------------------- the SHA-1 layout

  predicate Writable1(e: Event) {
    |e.digests| == 1 && e.digests[0].algId == 0x0004 && |e.digests[0].digest| == 20 &&
    |e.data| <= PAYLOAD_AT_MOST
  }

  function EncodeEntry1(e: Event): (r: bytes)
    requires Writable1(e)
    ensures |r| == 32 + |e.data|
  {
    LE32(e.pcrIndex) + (LE32(e.eventType) + (e.digests[0].digest + EncodePayload(e.data)))
  }

  predicate AllWritable1(events: seq<Event>) {
    events == [] || (Writable1(events[0]) && AllWritable1(events[1..]))
  }

  function EncodeLog1(events: seq<Event>): bytes
    requires AllWritable1(events)
  {
    if events == [] then [] else EncodeEntry1(events[0]) + EncodeLog1(events[1..])
  }

  lemma Entry1At(data: bytes, c: nat, e: Event)
    requires Writable1(e)
    ensures At(data, c, EncodeEntry1(e)) <==>
            c + 32 <= |data| && GetLE32(data, c) == e.pcrIndex && GetLE32(data, c + 4) == e.eventType &&
            At(data, c + 8, e.digests[0].digest) &&
            GetLE32(data, c + 28) == |e.data| && At(data, c + 32, e.data)
  {
    hide LE32, GetLE32, EncodePayload;
    var digest, payload := e.digests[0].digest, EncodePayload(e.data);
    AtConcat(data, c, LE32(e.pcrIndex), LE32(e.eventType) + (digest + payload));
    AtConcat(data, c + 4, LE32(e.eventType), digest + payload);
    AtConcat(data, c + 8, digest, payload);
    PayloadAt(data, c + 28, e.data);
    if At(data, c, EncodeEntry1(e)) {
      LE32At(data, c, e.pcrIndex);
      LE32At(data, c + 4, e.eventType);
    }
    if c + 32 <= |data| {
      GetLE32At(data, c);
      GetLE32At(data, c + 4);
    }
  }

  /** One SHA-1 entry: reading and writing are inverse to each other. */
  lemma ReadEntry1IsExact(data: bytes, c: nat, e: Event, next: nat)
    ensures ReadEntry1(data, c) == Ok((e, next)) <==>
            Writable1(e) && At(data, c, EncodeEntry1(e)) && next == c + |EncodeEntry1(e)|
  {
    hide LE32, GetLE32, EncodeEntry1;
    if Writable1(e) {
      Entry1At(data, c, e);
      if At(data, c, EncodeEntry1(e)) {
        assert e.digests == [EventDigest(0x0004, data[c + 8..c + 28])];
      }
    }
  }

  /** The SHA-1 parser accepts exactly the written SHA-1 logs, and answers the events they were written from. */
  lemma {:induction false} ReadEntries1IsExact(data: bytes, c: nat, events: seq<Event>)
    requires c <= |data|
    ensures ReadEntries1(data, c) == Ok(events) <==> AllWritable1(events) && data[c..] == EncodeLog1(events)
    decreases |events|
  {
    hide ReadEntry1, EncodeEntry1, Writable1;
    if c < |data| && events != [] {
      if ReadEntries1(data, c) == Ok(events) {
        var (e, next) := ReadEntry1(data, c).value;
        ReadEntry1IsExact(data, c, e, next);
        assert events[1..] == ReadEntries1(data, next).value;
        ReadEntries1IsExact(data, next, events[1..]);
        assert data[c..] == data[c..next] + data[next..];
      }
      if AllWritable1(events) && data[c..] == EncodeLog1(events) {
        var next := c + |EncodeEntry1(events[0])|;
        assert data[c..next] == data[c..][..next - c] && data[next..] == data[c..][next - c..];
        ReadEntry1IsExact(data, c, events[0], next);
        ReadEntries1IsExact(data, next, events[1..]);
        assert events == [events[0]] + events[1..];
      }
    }
  }

  /** Every SHA-1 entry takes at least thirty-two bytes, which bounds their number. */
  lemma {:induction false} ReadEntries1Advances(data: bytes, c: nat)
    requires c <= |data| && ReadEntries1(data, c).Ok?
    ensures 32 * |ReadEntries1(data, c).value| <= |data| - c
    decreases Left(data, c)
  {
    hide ReadEntry1;
    if c < |data| {
      ReadEntries1Advances(data, ReadEntry1(data, c).value.1);
    }
  }

  // ---------------------------------------------------------------- the Spec ID event

  function EncodeAlgorithms(algorithms: seq<SpecAlgorithm>): (r: bytes)
    ensures |r| == 4 * |algorithms|
  {
    if algorithms == [] then [] else
    LE16(algorithms[0].algId) + LE16(algorithms[0].digestSize) + EncodeAlgorithms(algorithms[1..])
  }

  function Code(c: char): byte {
    if c as int < 0x80 then c as int else 0
  }

  /** The codes of the characters of an ASCII text. */
  function Ascii(text: string): (r: bytes)
    ensures |r| == |text|
  {
    seq(|text|, i requires 0 <= i < |text| => Code(text[i]))
  }

  predicate SpecIdWritable(s: SpecId) {
    |s.signature| == 16 && s.signature[..13] == Ascii("Spec ID Event") &&
    |s.algorithms| <= DIGESTS_AT_MOST && |s.vendorInfo| < 0x100
  }

  function EncodeSpecId(s: SpecId): bytes
    requires SpecIdWritable(s)
  {
    s.signature +
    (LE32(s.platformClass) + ([s.major, s.minor, s.errata, s.uintnSize] +
    (LE32(|s.algorithms|) + (EncodeAlgorithms(s.algorithms) + ([|s.vendorInfo|] + s.vendorInfo)))))
  }

  lemma {:induction false} ReadSpecAlgorithmsIsExact(data: bytes, c: nat, algorithms: seq<SpecAlgorithm>)
    requires c <= |data|
    ensures ReadSpecAlgorithms(data, c, |algorithms|) == Ok((algorithms, c + 4 * |algorithms|)) <==>
            At(data, c, EncodeAlgorithms(algorithms))
    decreases |algorithms|
  {
    hide LE16, GetLE16;
    if algorithms != [] {
      var a := algorithms[0];
      AtConcat(data, c, LE16(a.algId) + LE16(a.digestSize), EncodeAlgorithms(algorithms[1..]));
      AtConcat(data, c, LE16(a.algId), LE16(a.digestSize));
      if c + 4 <= |data| {
        GetLE16At(data, c);
        GetLE16At(data, c + 2);
        ReadSpecAlgorithmsIsExact(data, c + 4, algorithms[1..]);
        assert algorithms == [a] + algorithms[1..];
      }
      if At(data, c, EncodeAlgorithms(algorithms)) {
        LE16At(data, c, a.algId);
        LE16At(data, c + 2, a.digestSize);
      }
    }
  }

  lemma {:induction false} ReadSpecAlgorithmsNext(data: bytes, c: nat, n: nat)
    requires c <= |data| && ReadSpecAlgorithms(data, c, n).Ok?
    ensures |ReadSpecAlgorithms(data, c, n).value.0| == n
    ensures ReadSpecAlgorithms(data, c, n).value.1 == c + 4 * n
    decreases n
  {
    hide GetLE16;
    if n > 0 {
      ReadSpecAlgorithmsNext(data, c + 4, n - 1);
    }
  }

  lemma VendorInfoAt(data: bytes, c: nat, vendorInfo: bytes)
    requires |vendorInfo| < 0x100
    ensures ReadVendorInfo(data, c) == Ok(vendorInfo) <==> At(data, c, [|vendorInfo|] + vendorInfo)
  {
    AtConcat(data, c, [|vendorInfo|], vendorInfo);
    if c < |data| {
      assert data[c..c + 1] == [data[c]];
    }
  }

  /** Where the fields of an encoded Spec ID event stand. */
  lemma SpecIdParts(data: bytes, s: SpecId)
    requires SpecIdWritable(s)
    ensures At(data, 0, EncodeSpecId(s)) <==>
            At(data, 0, s.signature) && At(data, 16, LE32(s.platformClass)) &&
            At(data, 20, [s.major, s.minor, s.errata, s.uintnSize]) && At(data, 24, LE32(|s.algorithms|)) &&
            At(data, 28, EncodeAlgorithms(s.algorithms)) &&
            At(data, 28 + 4 * |s.algorithms|, [|s.vendorInfo|] + s.vendorInfo)
  {
    hide LE32, EncodeAlgorithms;
    var vendor := [|s.vendorInfo|] + s.vendorInfo;
    var version := [s.major, s.minor, s.errata, s.uintnSize];
    var algorithms := EncodeAlgorithms(s.algorithms);
    AtConcat(data, 28, algorithms, vendor);
    AtConcat(data, 24, LE32(|s.algorithms|), algorithms + vendor);
    AtConcat(data, 20, version, LE32(|s.algorithms|) + (algorithms + vendor));
    AtConcat(data, 16, LE32(s.platformClass), version + (LE32(|s.algorithms|) + (algorithms + vendor)));
    AtConcat(data, 0, s.signature,
             LE32(s.platformClass) + (version + (LE32(|s.algorithms|) + (algorithms + vendor))));
  }

  lemma SpecIdIsRead(data: bytes, s: SpecId)
    requires SpecIdWritable(s) && At(data, 0, EncodeSpecId(s))
    ensures ReadSpecId(data) == Ok(s)
  {
    hide LE32, GetLE32, EncodeSpecId, EncodeAlgorithms, ReadSpecAlgorithms, ReadVendorInfo;
    SpecIdParts(data, s);
    LE32At(data, 16, s.platformClass);
    LE32At(data, 24, |s.algorithms|);
    var version := [s.major, s.minor, s.errata, s.uintnSize];
    assert data[20] == version[0] && data[21] == version[1] && data[22] == version[2] && data[23] == version[3] by {
      AtIndex(data, 20, version, 0);
      AtIndex(data, 20, version, 1);
      AtIndex(data, 20, version, 2);
      AtIndex(data, 20, version, 3);
    }
    assert data[..16] == s.signature && data[..13] == data[..16][..13];
    ReadSpecAlgorithmsIsExact(data, 28, s.algorithms);
    VendorInfoAt(data, 28 + 4 * |s.algorithms|, s.vendorInfo);
  }

  lemma ReadSpecIdIsSound(data: bytes)
    requires ReadSpecId(data).Ok?
    ensures SpecIdWritable(ReadSpecId(data).value) && At(data, 0, EncodeSpecId(ReadSpecId(data).value))
  {
    hide LE32, GetLE32, EncodeSpecId, EncodeAlgorithms, ReadSpecAlgorithms, ReadVendorInfo;
    var s := ReadSpecId(data).value;
    ReadSpecAlgorithmsNext(data, 28, GetLE32(data, 24));
    assert |s.vendorInfo| < 0x100 by {
      VendorIsShort(data, 28 + 4 * |s.algorithms|);
    }
    assert data[..13] == data[..16][..13];
    GetLE32At(data, 16);
    GetLE32At(data, 24);
    assert data[20..24] == [s.major, s.minor, s.errata, s.uintnSize];
    ReadSpecAlgorithmsIsExact(data, 28, s.algorithms);
    VendorInfoAt(data, 28 + 4 * |s.algorithms|, s.vendorInfo);
    SpecIdParts(data, s);
  }

  lemma VendorIsShort(data: bytes, c: nat)
    requires ReadVendorInfo(data, c).Ok?
    ensures |ReadVendorInfo(data, c).value| < 0x100
  {
  }

  /** A payload is taken for a Spec ID event exactly when it begins with an encoded one. */
  lemma ReadSpecIdIsExact(data: bytes, s: SpecId)
    ensures ReadSpecId(data) == Ok(s) <==> SpecIdWritable(s) && At(data, 0, EncodeSpecId(s))
  {
    hide ReadSpecId, EncodeSpecId, SpecIdWritable;
    if ReadSpecId(data) == Ok(s) {
      ReadSpecIdIsSound(data);
    }
    if SpecIdWritable(s) && At(data, 0, EncodeSpecId(s)) {
      SpecIdIsRead(data, s);
    }
  }

  // ---------------------------------------------------------------- the chain

  /** The log begins with a SHA-1 entry that announces the crypto-agile layout. */
  predicate BeginsCryptoAgile(data: bytes) {
    ReadEntry1(data, 0).Ok? && IsCryptoAgile(ReadEntry1(data, 0).value.0.data)
  }

  /** Without such a beginning the first and the third alternative are the same parser, errors included. */
  lemma FirstAndThirdAgree(data: bytes)
    requires data != [] && !BeginsCryptoAgile(data)
    ensures ReadSpecFirst(data) == ReadSha1(data)
  {
    hide ReadEntry1, IsCryptoAgile;
  }

  /** So the SHA-1 retry decides the outcome only for a log that did announce the crypto-agile layout. */
  lemma RetryNeedsCryptoAgileBeginning(data: bytes)
    requires ReadSpecFirst(data).Err? && ReadAgile(data).Err? && ReadSha1(data).Ok?
    ensures BeginsCryptoAgile(data)
  {
    hide ReadSpecFirst, ReadEntry1, IsCryptoAgile, ReadEntry2;
    if !BeginsCryptoAgile(data) {
      assert data != [];
      FirstAndThirdAgree(data);
    }
  }

  /** The layouts a log can be in. */
  ghost predicate Sha1Layout(data: bytes, events: seq<Event>) {
    AllWritable1(events) && data == EncodeLog1(events)
  }

  ghost predicate AgileLayout(data: bytes, events: seq<Event>) {
    exists forms :: FormsFit(events, forms) && data == EncodeLog2(events, forms)
  }

  ghost predicate SpecFirstLayout(data: bytes, events: seq<Event>) {
    events != [] && Writable1(events[0]) && IsCryptoAgile(events[0].data) &&
    exists forms :: FormsFit(events[1..], forms) && data == EncodeEntry1(events[0]) + EncodeLog2(events[1..], forms)
  }

  lemma SpecFirstIsLossless(data: bytes)
    requires ReadSpecFirst(data).Ok?
    ensures Sha1Layout(data, ReadSpecFirst(data).value) || SpecFirstLayout(data, ReadSpecFirst(data).value)
  {
    hide ReadEntry1, EncodeEntry1, IsCryptoAgile, ReadEntries2, EncodeLog2, ReadEntries1, AfterSpecId, Writable1;
    var (e, next) := ReadEntry1(data, 0).value;
    var events := ReadSpecFirst(data).value;
    ReadEntry1IsExact(data, 0, e, next);
    if IsCryptoAgile(e.data) {
      ReadEntries2IsLossless(data, next, AfterSpecId(e.data));
      var log := ReadEntries2(data, next, AfterSpecId(e.data)).value;
      assert events[1..] == log.events;
      assert data == data[..next] + data[next..];
      assert FormsFit(events[1..], log.forms) && data == EncodeEntry1(e) + EncodeLog2(events[1..], log.forms);
    } else {
      FirstAndThirdAgree(data);
      ReadEntries1IsExact(data, 0, events);
      assert data[0..] == data;
    }
  }

  /** Whatever a binary alternative accepts is, byte for byte, one of the three layouts of the events it answers. */
  lemma ParseIsLossless(data: bytes, json: bytes -> Result<seq<Event>, ParseError>)
    requires ReadSpecFirst(data).Ok? || ReadAgile(data).Ok? || ReadSha1(data).Ok?
    ensures ReadLog(data, json).Ok?
    ensures var events := ReadLog(data, json).value;
            Sha1Layout(data, events) || AgileLayout(data, events) || SpecFirstLayout(data, events)
  {
    hide ReadSpecFirst, ReadEntries2, EncodeLog2, ReadEntries1, EncodeLog1, Sha1Layout, SpecFirstLayout;
    assert data[0..] == data;
    if ReadSpecFirst(data).Ok? {
      SpecFirstIsLossless(data);
    } else if ReadAgile(data).Ok? {
      ReadEntries2IsLossless(data, 0, map[]);
      var log := ReadEntries2(data, 0, map[]).value;
      assert FormsFit(log.events, log.forms) && data == EncodeLog2(log.events, log.forms);
    } else {
      Sha1IsLossless(data);
    }
  }

  lemma Sha1IsLossless(data: bytes)
    requires ReadSha1(data).Ok?
    ensures Sha1Layout(data, ReadSha1(data).value)
  {
    hide EncodeLog1, ReadEntries1;
    ReadEntries1IsExact(data, 0, ReadSha1(data).value);
    assert data[0..] == data;
  }

  /** A crypto-agile log with its Spec ID entry in front comes back from `parse_event_log` event for event. */
  lemma {:induction false} CryptoAgileRoundTrip(spec: Event, events: seq<Event>, forms: seq<seq<Form>>,
                                               json: bytes -> Result<seq<Event>, ParseError>)
    requires Writable1(spec) && IsCryptoAgile(spec.data)
    requires |events| == |forms| && FormsFit(events, forms)
    requires LogWritable(events, forms, AfterSpecId(spec.data)) && LogUnambiguous(events, forms)
    ensures ReadLog(EncodeEntry1(spec) + EncodeLog2(events, forms), json) == Ok([spec] + events)
  {
    hide ReadEntry1, EncodeEntry1, IsCryptoAgile, ReadEntries2, EncodeLog2, AfterSpecId, LogWritable, LogUnambiguous,
         FormsFit, Writable1;
    var head, tail := EncodeEntry1(spec), EncodeLog2(events, forms);
    var data := head + tail;
    assert data[0..|head|] == head && data[|head|..] == tail;
    ReadEntry1IsExact(data, 0, spec, |head|);
    WrittenLogsAreReadBack(data, |head|, AfterSpecId(spec.data), events, forms);
  }

  /** A SHA-1 log that does not announce the crypto-agile layout comes back event for event; so does the empty log. */
  lemma {:induction false} Sha1RoundTrip(events: seq<Event>, json: bytes -> Result<seq<Event>, ParseError>)
    requires AllWritable1(events) && (events == [] || !IsCryptoAgile(events[0].data))
    ensures ReadLog(EncodeLog1(events), json) == Ok(events)
  {
    hide IsCryptoAgile, ReadEntry1, EncodeEntry1, Writable1;
    var data := EncodeLog1(events);
    if events == [] {
      EmptyLog(data);
    } else {
      assert data[0..] == data;
      ReadEntries1IsExact(data, 0, events);
      assert data[0..|EncodeEntry1(events[0])|] == EncodeEntry1(events[0]);
      ReadEntry1IsExact(data, 0, events[0], |EncodeEntry1(events[0])|);
      FirstAndThirdAgree(data);
    }
  }

  lemma EmptyLog(data: bytes)
    requires data == []
    ensures ReadSpecFirst(data).Err? && ReadAgile(data) == Ok([])
  {
  }

  // ---------------------------------------------------------------- what an ambiguous field does

  lemma OneEntryLog(e: Event, fs: seq<Form>)
    requires |e.digests| == |fs|
    ensures FormsFit([e], [fs]) && EncodeLog2([e], [fs]) == EncodeEntry2(e, fs)
  {
    hide EncodeEntry2;
    var rest, restForms := [e][1..], [fs][1..];
    assert EncodeLog2(rest, restForms) == [];
    assert EncodeEntry2(e, fs) + [] == EncodeEntry2(e, fs);
  }

  lemma OneDigestWritable(table: SizeTable, e: Event, d: EventDigest, f: Form)
    requires e.digests == [d] && e.data == [] && e.eventType != EV_NO_ACTION
    requires DigestWritable(d, f, e.eventType, table)
    ensures EntryWritable(e, [f], table)
  {
    hide DigestWritable;
    var ds, fs := e.digests, [f];
    assert DigestsWritable(ds[1..], fs[1..], e.eventType, table);
    assert DigestsWritable(ds, fs, e.eventType, table);
  }

  /**
   A raw field that spells its own length is not read back: the rest of a log that consists of one such
   digest and no payload is refused, the first pass finding no size behind it.
   */
  lemma {:induction false} AmbiguousFieldIsRefused(data: bytes, c: nat, table: SizeTable, e: Event, d: EventDigest)
    requires e.digests == [d] && e.data == [] && e.eventType != EV_NO_ACTION
    requires DigestWritable(d, Raw, e.eventType, table) && |d.digest| >= 2 && SpellsItsLength(d.digest, 0)
    requires c <= |data| && FormsFit([e], [[Raw]]) && data[c..] == EncodeLog2([e], [[Raw]])
    ensures EntryWritable(e, [Raw], table)
    ensures ReadEntries2(data, c, table) == Err(U32PastEnd)
  {
    hide EncodeEntry2, ReadEntry2, EncodeLog2, FormsFit;
    OneEntryLog(e, [Raw]);
    OneDigestWritable(table, e, d, Raw);
    AmbiguousEntryIsRefused(data, c, table, e, d);
  }

  lemma AmbiguousEntryIsRefused(data: bytes, c: nat, table: SizeTable, e: Event, d: EventDigest)
    requires e.digests == [d] && e.data == [] && e.eventType != EV_NO_ACTION
    requires DigestWritable(d, Raw, e.eventType, table) && |d.digest| >= 2 && SpellsItsLength(d.digest, 0)
    requires c <= |data| && data[c..] == EncodeEntry2(e, [Raw])
    ensures ReadEntry2(data, c, table) == Err(U32PastEnd)
  {
    hide EncodeHeader, EncodeEntry2, LE32, GetLE32, LE16, GetLE16, SizeOf;
    EntryParts(data, c, e, [Raw]);
    HeaderAt(data, c, e);
    var tail := Tail([], [], []);
    TailSplits([d], [Raw], []);
    AtConcat(data, c + 12, EncodeDigest(d, Raw), tail);
    TailBegins(data, c + 12 + |EncodeDigest(d, Raw)|, [], [], []);
    AtConcat(data, c + 12, LE16(d.algId), EncodeField(d, Raw));
    LE16At(data, c + 12, d.algId);
    LocateDigestDecides(data, c + 14, d, Raw, SizeOf(d.algId, table), FollowingByte([], 0));
    assert |data| == c + 14 + |d.digest| + 4;
    var r := ReadDigests(data, c + 12, e.eventType, 1, table, Auto);
    assert r.Ok? && r.value.next == c + 16 + |d.digest|;
  }

  // ---------------------------------------------------------------- logs that only the later alternatives decide

  /** A Spec ID entry as firmware writes it: of the event type for it, with zeros where a digest begins. */
  predicate OpensCryptoAgile(spec: Event) {
    Writable1(spec) && IsCryptoAgile(spec.data) && spec.eventType == EV_NO_ACTION &&
    spec.digests[0].digest[..8] == LE32(0) + LE32(0)
  }

  /** There are such entries: one that announces SHA-256 under version 2.0. */
  lemma OpeningsExist() returns (spec: Event)
    ensures OpensCryptoAgile(spec) && AfterSpecId(spec.data) == map[0x000B := 32]
  {
    hide ReadSpecId, EncodeSpecId;
    var id := SpecId(Ascii("Spec ID Event") + [0, 0, 0], 0, 2, 0, 0, 2, [SpecAlgorithm(0x000B, 32)], []);
    assert id.signature[..13] == Ascii("Spec ID Event");
    var payload := EncodeSpecId(id);
    assert At(payload, 0, EncodeSpecId(id));
    ReadSpecIdIsExact(payload, id);
    SpecIdLength(id);
    var digest: bytes := seq(20, _ => 0);
    assert digest[..8] == LE32(0) + LE32(0);
    assert Entered(map[0x000B := 32], id.algorithms[1..]) == map[0x000B := 32];
    spec := Event(0, EV_NO_ACTION, [EventDigest(0x0004, digest)], payload);
  }

  lemma SpecIdLength(s: SpecId)
    requires SpecIdWritable(s)
    ensures |EncodeSpecId(s)| == 29 + 4 * |s.algorithms| + |s.vendorInfo|
  {
    hide LE32, EncodeAlgorithms;
  }

  /** Read in the crypto-agile layout, such an entry has no digests and an empty payload, which is refused. */
  lemma AgileRefusesTheOpening(spec: Event, rest: bytes)
    requires OpensCryptoAgile(spec)
    ensures ReadAgile(EncodeEntry1(spec) + rest) == Err(EmptySpecId)
  {
    hide LE32, GetLE32, EncodeEntry1, IsCryptoAgile;
    var head := EncodeEntry1(spec);
    var data := head + rest;
    assert At(data, 0, head);
    Entry1At(data, 0, spec);
    var digest := spec.digests[0].digest;
    assert digest == digest[..8] + digest[8..];
    AtConcat(data, 8, digest[..8], digest[8..]);
    AtConcat(data, 8, LE32(0), LE32(0));
    LE32At(data, 8, 0);
    LE32At(data, 12, 0);
  }

  lemma SpecFirstReads(spec: Event, rest: bytes)
    requires Writable1(spec) && IsCryptoAgile(spec.data)
    ensures var data := EncodeEntry1(spec) + rest;
            ReadEntry1(data, 0) == Ok((spec, |EncodeEntry1(spec)|)) &&
            ReadSpecFirst(data) == match ReadEntries2(data, |EncodeEntry1(spec)|, AfterSpecId(spec.data))
                                   case Ok(log) => Ok([spec] + log.events)
                                   case Err(e) => Err(e)
  {
    hide ReadEntry1, EncodeEntry1, IsCryptoAgile, ReadEntries2, AfterSpecId, Writable1;
    var head := EncodeEntry1(spec);
    var data := head + rest;
    assert data[0..|head|] == head;
    ReadEntry1IsExact(data, 0, spec, |head|);
  }

  lemma WordInside(data: bytes, c: nat, x: bytes, k: nat)
    requires At(data, c, x) && k + 4 <= |x|
    ensures c + k + 4 <= |data| && GetLE32(data, c + k) == GetLE32(x, k)
  {
    AtIndex(data, c, x, k);
    AtIndex(data, c, x, k + 1);
    AtIndex(data, c, x, k + 2);
    AtIndex(data, c, x, k + 3);
  }

  /**
   Where the SHA-1 layout would have the size of the payload, an entry with one long digest has bytes of that
   digest.
   */
  lemma AmbiguousAsSha1(data: bytes, c: nat, e: Event, d: EventDigest)
    requires e.digests == [d] && e.data == [] && |d.digest| >= 18 && GetLE32(d.digest, 14) > PAYLOAD_AT_MOST
    requires c <= |data| && data[c..] == EncodeEntry2(e, [Raw])
    ensures ReadEntry1(data, c) == Err(DataSizeLimit)
  {
    hide EncodeHeader, EncodeEntry2, LE32, LE16, GetLE16;
    EntryParts(data, c, e, [Raw]);
    TailSplits([d], [Raw], []);
    AtConcat(data, c + 12, EncodeDigest(d, Raw), Tail([], [], []));
    AtConcat(data, c + 12, LE16(d.algId), EncodeField(d, Raw));
    assert EncodeField(d, Raw) == d.digest;
    WordInside(data, c + 14, d.digest, 14);
  }

  /**
   So `parse_event_log` as a whole refuses logs that were written as the profile says: behind a Spec ID entry,
   one event whose raw digest spells its own length. No binary alternative takes it, and the JSON reader decides.
   */
  lemma AmbiguousLogIsRefused(spec: Event, e: Event, d: EventDigest, json: bytes -> Result<seq<Event>, ParseError>)
    requires OpensCryptoAgile(spec) && e.digests == [d] && e.data == [] && e.eventType != EV_NO_ACTION
    requires DigestWritable(d, Raw, e.eventType, AfterSpecId(spec.data)) && SpellsItsLength(d.digest, 0)
    requires |d.digest| >= 18 && GetLE32(d.digest, 14) > PAYLOAD_AT_MOST
    ensures LogWritable([e], [[Raw]], AfterSpecId(spec.data)) && FormsFit([e], [[Raw]])
    ensures var data := EncodeEntry1(spec) + EncodeLog2([e], [[Raw]]);
            ReadLog(data, json) == json(data)
  {
    hide ReadEntry1, EncodeEntry1, IsCryptoAgile, ReadEntries2, EncodeLog2, EncodeEntry2, AfterSpecId, EntryWritable,
         GetLE32, DigestWritable, SpellsItsLength, TableAfter;
    OneEntryLog(e, [Raw]);
    var head, tail := EncodeEntry1(spec), EncodeLog2([e], [[Raw]]);
    var data := head + tail;
    var c := |head|;
    assert data[c..] == tail;
    SpecFirstReads(spec, tail);
    AmbiguousFieldIsRefused(data, c, AfterSpecId(spec.data), e, d);
    AgileRefusesTheOpening(spec, tail);
    AmbiguousAsSha1(data, c, e, d);
    OneWritable(e, [Raw], AfterSpecId(spec.data));
    assert tail != [];
    assert ReadEntries1(data, c) == Err(DataSizeLimit);
  }

  lemma {:induction false} OneWritable(e: Event, fs: seq<Form>, table: SizeTable)
    requires EntryWritable(e, fs, table)
    ensures LogWritable([e], [fs], table)
  {
    hide EntryWritable, TableAfter;
    assert LogWritable([e][1..], [fs][1..], TableAfter(table, e));
  }

  /**
   The SHA-1 retry does decide: a crypto-agile beginning with an entry of the SHA-1 layout behind it, whose digest
   begins with more than thirty-two where the crypto-agile layout counts digests, is taken by it alone.
   */
  lemma RetryDecides(spec: Event, e: Event, json: bytes -> Result<seq<Event>, ParseError>)
    requires OpensCryptoAgile(spec) && Writable1(e) && GetLE32(e.digests[0].digest, 0) > DIGESTS_AT_MOST
    ensures var data := EncodeEntry1(spec) + EncodeEntry1(e);
            ReadSpecFirst(data) == Err(DigestCountLimit) && ReadAgile(data) == Err(EmptySpecId) &&
            ReadLog(data, json) == Ok([spec, e])
  {
    hide ReadEntry1, EncodeEntry1, IsCryptoAgile, AfterSpecId, ReadDigests, GetLE32;
    var head, tail := EncodeEntry1(spec), EncodeEntry1(e);
    var data := head + tail;
    var c := |head|;
    SpecFirstReads(spec, tail);
    AgileRefusesTheOpening(spec, tail);
    assert data[c..] == tail && At(data, c, tail);
    ReadEntry1IsExact(data, c, e, |data|);
    SecondCount(data, c, e);
    var none: seq<Event> := [];
    assert ReadEntries1(data, |data|) == Ok(none);
    assert ReadEntries1(data, c) == Ok([e] + none);
    assert [e] + none == [e] && [spec] + [e] == [spec, e];
    assert ReadEntries1(data, 0) == Ok([spec] + [e]);
  }

  /** Where the crypto-agile layout counts the digests, the SHA-1 layout has the beginning of its digest. */
  lemma SecondCount(data: bytes, c: nat, e: Event)
    requires Writable1(e) && At(data, c, EncodeEntry1(e))
    ensures c + 32 <= |data| && GetLE32(data, c + 8) == GetLE32(e.digests[0].digest, 0)
  {
    hide EncodeEntry1;
    Entry1At(data, c, e);
    WordInside(data, c + 8, e.digests[0].digest, 0);
  }

  // ---------------------------------------------------------------- exactly when a crypto-agile log comes back

  /** In the crypto-agile layout SHA-1 events take more room. */
  lemma {:induction false} Sha1IsShorter(events: seq<Event>, forms: seq<seq<Form>>)
    requires AllWritable1(events) && FormsFit(events, forms)
    ensures |EncodeLog1(events)| + 6 * |events| <= |EncodeLog2(events, forms)|
    decreases |events|
  {
    hide EncodeEntry1, EncodeEntry2, EncodeDigest;
    if events != [] {
      var e, fs := events[0], forms[0];
      EntryLength(e, fs);
      DigestLength(e.digests[0], fs[0]);
      assert EncodeDigests(e.digests[1..], fs[1..]) == [];
      Sha1IsShorter(events[1..], forms[1..]);
    }
  }

  /** So a crypto-agile log is not the SHA-1 log of its own events. */
  lemma {:induction false} NotReadAsSha1(spec: Event, events: seq<Event>, forms: seq<seq<Form>>)
    requires Writable1(spec) && FormsFit(events, forms) && events != []
    ensures ReadSha1(EncodeEntry1(spec) + EncodeLog2(events, forms)) != Ok([spec] + events)
  {
    hide EncodeEntry1, EncodeLog2, ReadEntries1, Writable1;
    var all := [spec] + events;
    var data := EncodeEntry1(spec) + EncodeLog2(events, forms);
    assert data[0..] == data && all[1..] == events;
    ReadEntries1IsExact(data, 0, all);
    if AllWritable1(all) {
      Sha1IsShorter(events, forms);
    }
  }

  /**
   The first alternative answers the written events, in whatever forms it finds them, exactly for the
   unambiguous logs.
   */
  lemma {:induction false} SpecFirstReadsBackExactly(spec: Event, events: seq<Event>, forms: seq<seq<Form>>)
    requires Writable1(spec) && IsCryptoAgile(spec.data)
    requires |events| == |forms| && FormsFit(events, forms)
    requires LogWritable(events, forms, AfterSpecId(spec.data))
    requires LogHasNoOwnSized(events, forms, AfterSpecId(spec.data))
    ensures ReadSpecFirst(EncodeEntry1(spec) + EncodeLog2(events, forms)) == Ok([spec] + events) <==>
            LogUnambiguous(events, forms)
  {
    hide ReadEntry1, EncodeEntry1, IsCryptoAgile, ReadEntries2, EncodeLog2, AfterSpecId, LogWritable, LogUnambiguous,
         FormsFit, Writable1, LogHasNoOwnSized, ReadSpecFirst;
    var head, tail := EncodeEntry1(spec), EncodeLog2(events, forms);
    var data := head + tail;
    assert data[|head|..] == tail;
    SpecFirstReads(spec, tail);
    EventsComeBackExactly(data, |head|, AfterSpecId(spec.data), events, forms);
    var log := ReadEntries2(data, |head|, AfterSpecId(spec.data));
    if log.Ok? {
      assert ([spec] + log.value.events)[1..] == log.value.events && ([spec] + events)[1..] == events;
    }
  }

  /**
   `parse_event_log` as a whole: a crypto-agile log comes back event for event exactly when no raw field spells
   its own length. The two other binary alternatives never answer its events; the JSON reader is taken not to.
   */
  lemma {:induction false} CryptoAgileExactly(spec: Event, events: seq<Event>, forms: seq<seq<Form>>,
                                             json: bytes -> Result<seq<Event>, ParseError>)
    requires OpensCryptoAgile(spec)
    requires |events| == |forms| && FormsFit(events, forms)
    requires LogWritable(events, forms, AfterSpecId(spec.data))
    requires LogHasNoOwnSized(events, forms, AfterSpecId(spec.data))
    requires json(EncodeEntry1(spec) + EncodeLog2(events, forms)) != Ok([spec] + events)
    ensures ReadLog(EncodeEntry1(spec) + EncodeLog2(events, forms), json) == Ok([spec] + events) <==>
            LogUnambiguous(events, forms)
  {
    hide EncodeEntry1, IsCryptoAgile, EncodeLog2, AfterSpecId, LogWritable, FormsFit, Writable1, LogHasNoOwnSized,
         ReadSpecFirst, ReadAgile, ReadSha1;
    SpecFirstReadsBackExactly(spec, events, forms);
    AgileRefusesTheOpening(spec, EncodeLog2(events, forms));
    if events != [] {
      NotReadAsSha1(spec, events, forms);
    }
  }
}
