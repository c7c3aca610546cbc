/**
 The wire format of event logs, written independently of the parsers, and what
 ties the parsers to it: they lose nothing, they read back every log that was
 written unambiguously, and they always move forward.
 */
module EventLogFormat {
  import opened Bytes
  import opened EventLog

  // The limits and the event type that writers keep to.
  const DIGESTS_AT_MOST := 32
  const PAYLOAD_AT_MOST := 0x20_0000
  const EV_NO_ACTION: u32 := 0x0000_0003

  // ---------------------------------------------------------------- the crypto-agile layout

  function EncodeField(d: EventDigest, f: Form): bytes {
    (if f == Prefixed then LE16(|d.digest|) else []) + d.digest
  }

  function EncodeDigest(d: EventDigest, f: Form): bytes {
    LE16(d.algId) + EncodeField(d, f)
  }

  function EncodeDigests(ds: seq<EventDigest>, fs: seq<Form>): bytes
    requires |ds| == |fs|
  {
    if ds == [] then [] else EncodeDigest(ds[0], fs[0]) + EncodeDigests(ds[1..], fs[1..])
  }

  function EncodeHeader(e: Event): (r: bytes)
    ensures |r| == 12
  {
    LE32(e.pcrIndex) + (LE32(e.eventType) + LE32(|e.digests|))
  }

  function EncodePayload(payload: bytes): (r: bytes)
    ensures |r| == 4 + |payload|
  {
    LE32(|payload|) + payload
  }

  function EncodeEntry2(e: Event, fs: seq<Form>): (r: bytes)
    requires |e.digests| == |fs|
    ensures |r| >= 16
  {
    EncodeHeader(e) + (EncodeDigests(e.digests, fs) + EncodePayload(e.data))
  }

  predicate FormsFit(events: seq<Event>, forms: seq<seq<Form>>) {
    |events| == |forms| && forall i | 0 <= i < |events| :: |events[i].digests| == |forms[i]|
  }

  function EncodeLog2(events: seq<Event>, forms: seq<seq<Form>>): bytes
    requires FormsFit(events, forms)
  {
    if events == [] then [] else EncodeEntry2(events[0], forms[0]) + EncodeLog2(events[1..], forms[1..])
  }

  // ---------------------------------------------------------------- losslessness

  lemma LocateDigestIsLossless(data: bytes, c: nat, known: nat, mode: DigestEncoding)
    requires c <= |data| && LocateDigest(data, c, known, mode).Ok?
    ensures var f := LocateDigest(data, c, known, mode).value;
            if f.form == Prefixed then At(data, c, LE16(f.len)) && f.next == c + 2 else f.next == c
  {
    hide LE16, GetLE16;
    if c + 2 <= |data| {
      GetLE16At(data, c);
    }
  }

  lemma ReadDigestIsLossless(data: bytes, c: nat, eventType: u32, table: SizeTable, mode: DigestEncoding)
    requires ReadDigest(data, c, eventType, table, mode).Ok?
    ensures var x := ReadDigest(data, c, eventType, table, mode).value;
            At(data, c, EncodeDigest(x.digest, x.form)) && x.next == c + |EncodeDigest(x.digest, x.form)|
  {
    hide SizeOf, LE16, GetLE16, LocateDigest;
    var x := ReadDigest(data, c, eventType, table, mode).value;
    GetLE16At(data, c);
    LocateDigestIsLossless(data, c + 2, SizeOf(x.digest.algId, table), mode);
    AtConcat(data, c + 2, if x.form == Prefixed then LE16(|x.digest.digest|) else [], x.digest.digest);
    AtConcat(data, c, LE16(x.digest.algId), EncodeField(x.digest, x.form));
  }

  lemma {:induction false} ReadDigestsIsLossless(data: bytes, c: nat, eventType: u32, n: nat, table: SizeTable,
                                                 mode: DigestEncoding)
    requires c <= |data| && ReadDigests(data, c, eventType, n, table, mode).Ok?
    ensures var p := ReadDigests(data, c, eventType, n, table, mode).value;
            At(data, c, EncodeDigests(p.digests, p.forms)) && p.next == c + |EncodeDigests(p.digests, p.forms)|
    decreases n
  {
    hide ReadDigest, EncodeDigest;
    if n > 0 {
      var x := ReadDigest(data, c, eventType, table, mode).value;
      ReadDigestIsLossless(data, c, eventType, table, mode);
      ReadDigestsIsLossless(data, x.next, eventType, n - 1, table, mode);
      var p := ReadDigests(data, c, eventType, n, table, mode).value;
      assert p.digests[1..] == ReadDigests(data, x.next, eventType, n - 1, table, mode).value.digests;
      assert p.forms[1..] == ReadDigests(data, x.next, eventType, n - 1, table, mode).value.forms;
      AtConcat(data, c, EncodeDigest(x.digest, x.form), EncodeDigests(p.digests[1..], p.forms[1..]));
    }
  }

  lemma HeaderAt(data: bytes, c: nat, e: Event)
    requires |e.digests| < 0x1_0000_0000
    ensures At(data, c, EncodeHeader(e)) <==>
            c + 12 <= |data| && GetLE32(data, c) == e.pcrIndex &&
            GetLE32(data, c + 4) == e.eventType && GetLE32(data, c + 8) == |e.digests|
  {
    hide LE32, GetLE32;
    AtConcat(data, c, LE32(e.pcrIndex), LE32(e.eventType) + LE32(|e.digests|));
    AtConcat(data, c + 4, LE32(e.eventType), LE32(|e.digests|));
    if At(data, c, EncodeHeader(e)) {
      LE32At(data, c, e.pcrIndex);
      LE32At(data, c + 4, e.eventType);
      LE32At(data, c + 8, |e.digests|);
    }
    if c + 12 <= |data| {
      GetLE32At(data, c);
      GetLE32At(data, c + 4);
      GetLE32At(data, c + 8);
    }
  }

  /** The payload `payload` stands at `c` behind its size. */
  lemma PayloadAt(data: bytes, c: nat, payload: bytes)
    requires |payload| < 0x1_0000_0000
    ensures At(data, c, EncodePayload(payload)) <==>
            c + 4 <= |data| && GetLE32(data, c) == |payload| && At(data, c + 4, payload)
  {
    hide LE32, GetLE32;
    AtConcat(data, c, LE32(|payload|), payload);
    if At(data, c, LE32(|payload|)) {
      LE32At(data, c, |payload|);
    }
    if c + 4 <= |data| {
      GetLE32At(data, c);
    }
  }

  /** An entry is what some digest pass read behind the header, and its payload. */
  lemma ReadEntry2Shape(data: bytes, c: nat, table: SizeTable) returns (mode: DigestEncoding)
    requires ReadEntry2(data, c, table).Ok?
    ensures var x := ReadEntry2(data, c, table).value;
            c + 12 <= |data| && At(data, c, EncodeHeader(x.event)) && |x.event.digests| <= DIGESTS_AT_MOST &&
            var ds := ReadDigests(data, c + 12, x.event.eventType, |x.event.digests|, table, mode);
            ds.Ok? && ds.value.digests == x.event.digests && ds.value.forms == x.forms &&
            At(data, ds.value.next, EncodePayload(x.event.data)) &&
            x.next == ds.value.next + |EncodePayload(x.event.data)| &&
            |x.event.data| <= PAYLOAD_AT_MOST &&
            (x.event.eventType == EV_NO_ACTION ==> x.event.data != [])
  {
    hide ReadDigests, GetLE32, EncodeHeader, EncodePayload;
    var x := ReadEntry2(data, c, table).value;
    var first := ReadDigests(data, c + 12, x.event.eventType, GetLE32(data, c + 8), table, Auto).value;
    var size := GetLE32(data, first.next);
    mode := if size > PAYLOAD_AT_MOST || first.next + 4 + size > |data| then WithPrefix else Auto;
    HeaderAt(data, c, x.event);
    var found := ReadDigests(data, c + 12, x.event.eventType, GetLE32(data, c + 8), table, mode).value;
    PayloadAt(data, found.next, x.event.data);
  }

  lemma ReadEntry2IsLossless(data: bytes, c: nat, table: SizeTable)
    requires ReadEntry2(data, c, table).Ok?
    ensures var x := ReadEntry2(data, c, table).value;
            |x.event.digests| == |x.forms| &&
            At(data, c, EncodeEntry2(x.event, x.forms)) && x.next == c + |EncodeEntry2(x.event, x.forms)|
  {
    hide ReadEntry2, EncodeHeader, EncodePayload, ReadDigests;
    var x := ReadEntry2(data, c, table).value;
    var mode := ReadEntry2Shape(data, c, table);
    ReadDigestsIsLossless(data, c + 12, x.event.eventType, |x.event.digests|, table, mode);
    var body := EncodeDigests(x.event.digests, x.forms);
    AtConcat(data, c + 12, body, EncodePayload(x.event.data));
    AtConcat(data, c, EncodeHeader(x.event), body + EncodePayload(x.event.data));
  }

  /** Whatever the event loop accepts, the events in the forms they were found in are exactly the bytes it consumed. */
  lemma {:induction false} ReadEntries2IsLossless(data: bytes, c: nat, table: SizeTable)
    requires c <= |data| && ReadEntries2(data, c, table).Ok?
    ensures var log := ReadEntries2(data, c, table).value;
            FormsFit(log.events, log.forms) && data[c..] == EncodeLog2(log.events, log.forms)
    decreases Left(data, c)
  {
    hide ReadEntry2, EncodeEntry2, TableAfter;
    if c < |data| {
      var x := ReadEntry2(data, c, table).value;
      var rest := ReadEntries2(data, x.next, TableAfter(table, x.event)).value;
      ReadEntry2IsLossless(data, c, table);
      ReadEntries2IsLossless(data, x.next, TableAfter(table, x.event));
      var log := ReadEntries2(data, c, table).value;
      assert log.events[1..] == rest.events && log.forms[1..] == rest.forms;
      assert data[c..] == data[c..x.next] + data[x.next..];
    }
  }

  // ---------------------------------------------------------------- progress

  /** Every crypto-agile entry takes at least sixteen bytes, also after the cursor was set back. */
  lemma ReadEntry2Advances(data: bytes, c: nat, table: SizeTable)
    requires ReadEntry2(data, c, table).Ok?
    ensures c + 16 <= ReadEntry2(data, c, table).value.next
  {
    hide EncodeEntry2, ReadEntry2;
    ReadEntry2IsLossless(data, c, table);
  }

  /** The "made no progress" error never happens, and a log holds at most one event in sixteen bytes. */
  lemma {:induction false} ReadEntries2Advances(data: bytes, c: nat, table: SizeTable)
    requires c <= |data|
    ensures ReadEntries2(data, c, table) != Err(NoProgress)
    ensures ReadEntries2(data, c, table).Ok? ==> 16 * |ReadEntries2(data, c, table).value.events| <= |data| - c
    decreases Left(data, c)
  {
    hide ReadEntry2, TableAfter;
    if c < |data| {
      EntryErrors(data, c, table);
      if ReadEntry2(data, c, table).Ok? {
        var x := ReadEntry2(data, c, table).value;
        ReadEntry2Advances(data, c, table);
        ReadEntries2Advances(data, x.next, TableAfter(table, x.event));
      }
    }
  }

  lemma EntryErrors(data: bytes, c: nat, table: SizeTable)
    ensures ReadEntry2(data, c, table) != Err(NoProgress)
  {
    hide ReadDigests, GetLE32;
    if c + 12 <= |data| {
      DigestErrors(data, c + 12, GetLE32(data, c + 4), GetLE32(data, c + 8), table, Auto);
      DigestErrors(data, c + 12, GetLE32(data, c + 4), GetLE32(data, c + 8), table, WithPrefix);
    }
  }

  lemma {:induction false} DigestErrors(data: bytes, c: nat, eventType: u32, n: nat, table: SizeTable,
                                        mode: DigestEncoding)
    ensures ReadDigests(data, c, eventType, n, table, mode) != Err(NoProgress)
    decreases n
  {
    hide GetLE16, SizeOf;
    if n > 0 && ReadDigest(data, c, eventType, table, mode).Ok? {
      DigestErrors(data, ReadDigest(data, c, eventType, table, mode).value.next, eventType, n - 1, table, mode);
    }
  }

  // ---------------------------------------------------------------- which logs are read back

  /** A digest as the firmware profile lets it be written, given the sizes announced so far. */
  predicate DigestWritable(d: EventDigest, f: Form, eventType: u32, table: SizeTable) {
    var known := SizeOf(d.algId, table);
    if known > 0 then |d.digest| == known && (f == Prefixed ==> known < 0x1_0000)
    else f == Prefixed && |d.digest| < 0x1_0000 && (d.digest == [] ==> eventType == EV_NO_ACTION)
  }

  predicate DigestsWritable(ds: seq<EventDigest>, fs: seq<Form>, eventType: u32, table: SizeTable)
    requires |ds| == |fs|
  {
    ds == [] || (DigestWritable(ds[0], fs[0], eventType, table) && DigestsWritable(ds[1..], fs[1..], eventType, table))
  }

  predicate EntryWritable(e: Event, fs: seq<Form>, table: SizeTable) {
    |fs| == |e.digests| <= DIGESTS_AT_MOST && DigestsWritable(e.digests, fs, e.eventType, table) &&
    |e.data| <= PAYLOAD_AT_MOST && (e.eventType == EV_NO_ACTION ==> e.data != [])
  }

  /** Every entry is writable with the table as the entries before it have left it. */
  predicate LogWritable(events: seq<Event>, forms: seq<seq<Form>>, table: SizeTable)
    requires |events| == |forms|
  {
    events == [] ||
    (EntryWritable(events[0], forms[0], table) && LogWritable(events[1..], forms[1..], TableAfter(table, events[0])))
  }

  lemma {:induction false} WritableFits(events: seq<Event>, forms: seq<seq<Form>>, table: SizeTable)
    requires |events| == |forms| && LogWritable(events, forms, table)
    ensures FormsFit(events, forms)
    decreases |events|
  {
    hide EntryWritable, TableAfter;
    if events != [] {
      WritableFits(events[1..], forms[1..], TableAfter(table, events[0]));
      assert |events[0].digests| == |forms[0]| by {
        HasForms(events[0], forms[0], table);
      }
      forall i | 0 <= i < |events|
        ensures |events[i].digests| == |forms[i]|
      {
        if i > 0 {
          assert events[i] == events[1..][i - 1] && forms[i] == forms[1..][i - 1];
        }
      }
    }
  }

  lemma HasForms(e: Event, fs: seq<Form>, table: SizeTable)
    requires EntryWritable(e, fs, table)
    ensures |e.digests| == |fs|
  {
  }

  /** A raw field whose first two bytes spell its own length; `follow` is the byte after a one-byte field. */
  predicate SpellsItsLength(digest: bytes, follow: byte) {
    digest != [] && digest[0] as int + 0x100 * (if |digest| >= 2 then digest[1] else follow) as int == |digest|
  }

  /** The byte that follows a digest: of the next algorithm identifier, or of the payload size. */
  function FollowingByte(rest: seq<EventDigest>, payloadSize: nat): byte {
    if rest == [] then payloadSize % 0x100 else rest[0].algId % 0x100
  }

  predicate DigestsUnambiguous(ds: seq<EventDigest>, fs: seq<Form>, payloadSize: nat)
    requires |ds| == |fs|
  {
    ds == [] ||
    ((fs[0] == Raw ==> !SpellsItsLength(ds[0].digest, FollowingByte(ds[1..], payloadSize))) &&
     DigestsUnambiguous(ds[1..], fs[1..], payloadSize))
  }

  predicate LogUnambiguous(events: seq<Event>, forms: seq<seq<Form>>)
    requires FormsFit(events, forms)
  {
    events == [] ||
    (DigestsUnambiguous(events[0].digests, forms[0], |events[0].data|) && LogUnambiguous(events[1..], forms[1..]))
  }

  /** The bytes after a digest list, up to the payload. */
  function Tail(ds: seq<EventDigest>, fs: seq<Form>, payload: bytes): bytes
    requires |ds| == |fs|
  {
    EncodeDigests(ds, fs) + EncodePayload(payload)
  }

  lemma TailSplits(ds: seq<EventDigest>, fs: seq<Form>, payload: bytes)
    requires |ds| == |fs| > 0
    ensures Tail(ds, fs, payload) == EncodeDigest(ds[0], fs[0]) + Tail(ds[1..], fs[1..], payload)
  {
    hide EncodeDigest, EncodePayload;
  }

  lemma TailBegins(data: bytes, c: nat, ds: seq<EventDigest>, fs: seq<Form>, payload: bytes)
    requires |ds| == |fs| && At(data, c, Tail(ds, fs, payload))
    ensures c + 4 <= |data| && data[c] == FollowingByte(ds, |payload|)
  {
    hide EncodeField, LE32;
    AtConcat(data, c, EncodeDigests(ds, fs), EncodePayload(payload));
    if ds == [] {
      AtConcat(data, c, LE32(|payload|), payload);
      AtIndex(data, c, LE32(|payload|), 0);
      LE32First(|payload|);
    } else {
      AtConcat(data, c, EncodeDigest(ds[0], fs[0]), EncodeDigests(ds[1..], fs[1..]));
      AtConcat(data, c, LE16(ds[0].algId), EncodeField(ds[0], fs[0]));
      AtIndex(data, c, LE16(ds[0].algId), 0);
    }
  }

  /** Where a writable digest is looked for, under a size that is known or (zero) not. */
  lemma LocateDigestDecides(data: bytes, c: nat, d: EventDigest, f: Form, known: nat, follow: byte)
    requires if known > 0 then |d.digest| == known else f == Prefixed
    requires f == Prefixed ==> |d.digest| < 0x1_0000
    requires At(data, c, EncodeField(d, f))
    requires var end := c + |EncodeField(d, f)|; end + 4 <= |data| && data[end] == follow
    ensures LocateDigest(data, c, known, Auto) ==
            if f == Prefixed then Ok(Field(|d.digest|, Prefixed, c + 2))
            else if SpellsItsLength(d.digest, follow) then Ok(Field(known, Prefixed, c + 2))
            else Ok(Field(known, Raw, c))
  {
    hide LE16, GetLE16, SpellsItsLength;
    if f == Prefixed {
      AtConcat(data, c, LE16(|d.digest|), d.digest);
      LE16At(data, c, |d.digest|);
    } else {
      assert EncodeField(d, f) == d.digest;
      RawFieldWord(data, c, d.digest, follow);
    }
  }

  /**
   The decision at one digest: a writable digest is read in the form it stands in, unless it is raw and spells
   its length.
   */
  lemma ReadDigestDecides(data: bytes, c: nat, d: EventDigest, f: Form, eventType: u32, table: SizeTable,
                          ds: seq<EventDigest>, fs: seq<Form>, payload: bytes)
    requires |ds| == |fs| && DigestWritable(d, f, eventType, table)
    requires At(data, c, EncodeDigest(d, f)) && At(data, c + |EncodeDigest(d, f)|, Tail(ds, fs, payload))
    ensures var misread := f == Raw && SpellsItsLength(d.digest, FollowingByte(ds, |payload|));
            var r := ReadDigest(data, c, eventType, table, Auto);
            if misread then r.Ok? ==> r.value.form == Prefixed
            else r == Ok(ParsedDigest(d, f, c + |EncodeDigest(d, f)|))
  {
    hide SizeOf, LE16, GetLE16, Tail, FollowingByte, LocateDigest, SpellsItsLength, EncodeField;
    TailBegins(data, c + |EncodeDigest(d, f)|, ds, fs, payload);
    AtConcat(data, c, LE16(d.algId), EncodeField(d, f));
    LE16At(data, c, d.algId);
    LocateDigestDecides(data, c + 2, d, f, SizeOf(d.algId, table), FollowingByte(ds, |payload|));
    FieldParts(data, c + 2, d, f);
  }

  lemma FieldParts(data: bytes, c: nat, d: EventDigest, f: Form)
    requires At(data, c, EncodeField(d, f))
    ensures var p := if f == Prefixed then c + 2 else c;
            At(data, p, d.digest) && c + |EncodeField(d, f)| == p + |d.digest|
  {
    hide LE16;
    AtConcat(data, c, if f == Prefixed then LE16(|d.digest|) else [], d.digest);
  }

  lemma RawFieldWord(data: bytes, c: nat, digest: bytes, follow: byte)
    requires digest != [] && At(data, c, digest)
    requires c + |digest| + 4 <= |data| && data[c + |digest|] == follow
    ensures (GetLE16(data, c) == |digest|) <==> SpellsItsLength(digest, follow)
  {
    AtIndex(data, c, digest, 0);
    if |digest| >= 2 {
      AtIndex(data, c, digest, 1);
    }
  }

  lemma {:induction false} UnambiguousDigestsAreRead(data: bytes, c: nat, ds: seq<EventDigest>, fs: seq<Form>,
                                                     eventType: u32, table: SizeTable, payload: bytes)
    requires |ds| == |fs| && DigestsWritable(ds, fs, eventType, table)
    requires At(data, c, Tail(ds, fs, payload)) && DigestsUnambiguous(ds, fs, |payload|)
    ensures ReadDigests(data, c, eventType, |ds|, table, Auto) == Ok(ParsedDigests(ds, fs, c + |EncodeDigests(ds, fs)|))
    decreases |ds|
  {
    hide ReadDigest, EncodeDigest, Tail, DigestWritable, SpellsItsLength, FollowingByte, At;
    if ds != [] {
      var first := EncodeDigest(ds[0], fs[0]);
      TailSplits(ds, fs, payload);
      AtConcat(data, c, first, Tail(ds[1..], fs[1..], payload));
      ReadDigestDecides(data, c, ds[0], fs[0], eventType, table, ds[1..], fs[1..], payload);
      UnambiguousDigestsAreRead(data, c + |first|, ds[1..], fs[1..], eventType, table, payload);
      assert ds == [ds[0]] + ds[1..] && fs == [fs[0]] + fs[1..];
    }
  }

  lemma {:induction false} AmbiguousDigestsAreMisread(data: bytes, c: nat, ds: seq<EventDigest>, fs: seq<Form>,
                                                      eventType: u32, table: SizeTable, payload: bytes)
    requires |ds| == |fs| && DigestsWritable(ds, fs, eventType, table)
    requires At(data, c, Tail(ds, fs, payload)) && !DigestsUnambiguous(ds, fs, |payload|)
    ensures var r := ReadDigests(data, c, eventType, |ds|, table, Auto);
            r.Ok? ==> r.value.forms != fs
    decreases |ds|
  {
    hide ReadDigest, EncodeDigest, Tail, DigestWritable, SpellsItsLength, FollowingByte, At;
    var first := EncodeDigest(ds[0], fs[0]);
    TailSplits(ds, fs, payload);
    AtConcat(data, c, first, Tail(ds[1..], fs[1..], payload));
    ReadDigestDecides(data, c, ds[0], fs[0], eventType, table, ds[1..], fs[1..], payload);
    var r := ReadDigests(data, c, eventType, |ds|, table, Auto);
    if r.Ok? && r.value.forms == fs {
      var next := ReadDigest(data, c, eventType, table, Auto).value.next;
      var rest := ReadDigests(data, next, eventType, |ds| - 1, table, Auto).value;
      assert r.value.forms[0] == fs[0] && rest.forms == r.value.forms[1..];
      AmbiguousDigestsAreMisread(data, c + |first|, ds[1..], fs[1..], eventType, table, payload);
    }
  }

  /** Behind length prefixes every digest is read as prefixed, so raw forms never come back from the second pass. */
  lemma {:induction false} PrefixPassReadsNoRaw(data: bytes, c: nat, eventType: u32, n: nat, table: SizeTable, i: nat)
    requires ReadDigests(data, c, eventType, n, table, WithPrefix).Ok? && i < n
    ensures ReadDigests(data, c, eventType, n, table, WithPrefix).value.forms[i] == Prefixed
    decreases n
  {
    var x := ReadDigest(data, c, eventType, table, WithPrefix).value;
    assert x.form == Prefixed;
    hide ReadDigest;
    if i > 0 {
      PrefixPassReadsNoRaw(data, x.next, eventType, n - 1, table, i - 1);
    }
  }

  lemma {:induction false} AmbiguousHasRaw(ds: seq<EventDigest>, fs: seq<Form>, payloadSize: nat) returns (i: nat)
    requires |ds| == |fs| && !DigestsUnambiguous(ds, fs, payloadSize)
    ensures i < |fs| && fs[i] == Raw
    decreases |ds|
  {
    hide SpellsItsLength, FollowingByte;
    if fs[0] == Raw {
      i := 0;
    } else {
      i := AmbiguousHasRaw(ds[1..], fs[1..], payloadSize);
      i := i + 1;
    }
  }

  lemma {:induction false} EntryParts(data: bytes, c: nat, e: Event, fs: seq<Form>)
    requires |fs| == |e.digests| <= DIGESTS_AT_MOST && |e.data| <= PAYLOAD_AT_MOST
    requires At(data, c, EncodeEntry2(e, fs))
    ensures At(data, c, EncodeHeader(e)) && At(data, c + 12, Tail(e.digests, fs, e.data))
    ensures var p := c + 12 + |EncodeDigests(e.digests, fs)|;
            p + 4 <= |data| && GetLE32(data, p) == |e.data| && At(data, p + 4, e.data) &&
            c + |EncodeEntry2(e, fs)| == p + 4 + |e.data|
  {
    hide EncodeHeader, EncodePayload, GetLE32, EncodeDigests;
    AtConcat(data, c, EncodeHeader(e), Tail(e.digests, fs, e.data));
    AtConcat(data, c + 12, EncodeDigests(e.digests, fs), EncodePayload(e.data));
    PayloadAt(data, c + 12 + |EncodeDigests(e.digests, fs)|, e.data);
  }

  /** A writable entry is read back in the forms it was written in exactly when it is unambiguous. */
  lemma {:induction false} ReadEntry2Decides(data: bytes, c: nat, e: Event, fs: seq<Form>, table: SizeTable)
    requires EntryWritable(e, fs, table) && At(data, c, EncodeEntry2(e, fs))
    ensures var r := ReadEntry2(data, c, table);
            if DigestsUnambiguous(e.digests, fs, |e.data|) then r == Ok(ParsedEntry(e, fs, c + |EncodeEntry2(e, fs)|))
            else r.Ok? ==> r.value.forms != fs
  {
    hide ReadDigests, EncodeEntry2, EncodeHeader, EncodeDigests, Tail, DigestsUnambiguous, DigestsWritable, GetLE32;
    EntryParts(data, c, e, fs);
    HeaderAt(data, c, e);
    if DigestsUnambiguous(e.digests, fs, |e.data|) {
      UnambiguousDigestsAreRead(data, c + 12, e.digests, fs, e.eventType, table, e.data);
    } else {
      AmbiguousDigestsAreMisread(data, c + 12, e.digests, fs, e.eventType, table, e.data);
      var i := AmbiguousHasRaw(e.digests, fs, |e.data|);
      if ReadDigests(data, c + 12, e.eventType, |e.digests|, table, WithPrefix).Ok? {
        PrefixPassReadsNoRaw(data, c + 12, e.eventType, |e.digests|, table, i);
      }
    }
  }

  // ---------------------------------------------------------------- the second pass

  /** Digests that all carry their prefix, of whatever lengths: the table has no say. */
  predicate AllPrefixed(ds: seq<EventDigest>, fs: seq<Form>, eventType: u32)
    requires |ds| == |fs|
  {
    ds == [] ||
    (fs[0] == Prefixed && |ds[0].digest| < 0x1_0000 && (ds[0].digest == [] ==> eventType == EV_NO_ACTION) &&
     AllPrefixed(ds[1..], fs[1..], eventType))
  }

  lemma PrefixedDigestIsRead(data: bytes, c: nat, d: EventDigest, eventType: u32, table: SizeTable)
    requires |d.digest| < 0x1_0000 && (d.digest == [] ==> eventType == EV_NO_ACTION)
    requires At(data, c, EncodeDigest(d, Prefixed))
    ensures ReadDigest(data, c, eventType, table, WithPrefix) ==
            Ok(ParsedDigest(d, Prefixed, c + |EncodeDigest(d, Prefixed)|))
  {
    hide SizeOf, LE16, GetLE16;
    AtConcat(data, c, LE16(d.algId), EncodeField(d, Prefixed));
    AtConcat(data, c + 2, LE16(|d.digest|), d.digest);
    LE16At(data, c, d.algId);
    LE16At(data, c + 2, |d.digest|);
  }

  lemma {:induction false} AllPrefixedSplits(ds: seq<EventDigest>, fs: seq<Form>, eventType: u32)
    requires |ds| == |fs| > 0 && AllPrefixed(ds, fs, eventType)
    ensures fs[0] == Prefixed && |ds[0].digest| < 0x1_0000 && (ds[0].digest == [] ==> eventType == EV_NO_ACTION)
    ensures AllPrefixed(ds[1..], fs[1..], eventType)
  {
  }

  lemma {:induction false} DigestsSplit(ds: seq<EventDigest>, fs: seq<Form>)
    requires |ds| == |fs| > 0
    ensures EncodeDigests(ds, fs) == EncodeDigest(ds[0], fs[0]) + EncodeDigests(ds[1..], fs[1..])
  {
    hide EncodeDigest;
  }

  lemma {:induction false} PrefixedDigestsAreRead(data: bytes, c: nat, ds: seq<EventDigest>, fs: seq<Form>,
                                                  eventType: u32, table: SizeTable)
    requires |ds| == |fs| && AllPrefixed(ds, fs, eventType) && At(data, c, EncodeDigests(ds, fs))
    ensures ReadDigests(data, c, eventType, |ds|, table, WithPrefix) ==
            Ok(ParsedDigests(ds, fs, c + |EncodeDigests(ds, fs)|))
    decreases |ds|
  {
    hide ReadDigest, EncodeDigest, EncodeDigests, AllPrefixed, At;
    if ds == [] {
      NothingEncoded(ds, fs);
    } else {
      AllPrefixedSplits(ds, fs, eventType);
      DigestsSplit(ds, fs);
      var first := EncodeDigest(ds[0], fs[0]);
      AtConcat(data, c, first, EncodeDigests(ds[1..], fs[1..]));
      PrefixedDigestIsRead(data, c, ds[0], eventType, table);
      PrefixedDigestsAreRead(data, c + |first|, ds[1..], fs[1..], eventType, table);
      assert ds == [ds[0]] + ds[1..] && fs == [fs[0]] + fs[1..];
    }
  }

  lemma {:induction false} NothingEncoded(ds: seq<EventDigest>, fs: seq<Form>)
    requires |ds| == |fs| == 0
    ensures EncodeDigests(ds, fs) == []
  {
  }

  /**
   Setting the cursor back recovers an entry whose digests all carry a prefix but have other lengths than
   the table says, whenever the first pass ran to its end and left an implausible payload size.
   */
  lemma {:induction false} SecondPassRecovers(data: bytes, c: nat, e: Event, fs: seq<Form>, table: SizeTable)
    requires |fs| == |e.digests| <= DIGESTS_AT_MOST && AllPrefixed(e.digests, fs, e.eventType)
    requires |e.data| <= PAYLOAD_AT_MOST && (e.eventType == EV_NO_ACTION ==> e.data != [])
    requires At(data, c, EncodeEntry2(e, fs))
    requires var first := ReadDigests(data, c + 12, e.eventType, |e.digests|, table, Auto);
             first.Ok? && first.value.next + 4 <= |data| &&
             var size := GetLE32(data, first.value.next);
             size > PAYLOAD_AT_MOST || first.value.next + 4 + size > |data|
    ensures ReadEntry2(data, c, table) == Ok(ParsedEntry(e, fs, c + |EncodeEntry2(e, fs)|))
  {
    hide ReadDigests, EncodeEntry2, EncodeHeader, EncodeDigests, GetLE32, AllPrefixed;
    EntryParts(data, c, e, fs);
    HeaderAt(data, c, e);
    AtConcat(data, c + 12, EncodeDigests(e.digests, fs), EncodePayload(e.data));
    PrefixedDigestsAreRead(data, c + 12, e.digests, fs, e.eventType, table);
  }

  // ---------------------------------------------------------------- whole logs

  /** The whole log is read back, in its own forms. */
  ghost predicate ReadsBack(data: bytes, c: nat, table: SizeTable, events: seq<Event>, forms: seq<seq<Form>>) {
    var r := ReadEntries2(data, c, table);
    r.Ok? && r.value.events == events && r.value.forms == forms
  }

  /**
   A writable log comes back as it was written, in every digest the form it was written in,
   if and only if no raw field spells its own length.
   */
  lemma {:induction false} WrittenLogsAreReadBack(data: bytes, c: nat, table: SizeTable, events: seq<Event>,
                                                  forms: seq<seq<Form>>)
    requires |events| == |forms| && LogWritable(events, forms, table) && FormsFit(events, forms)
    requires c <= |data| && data[c..] == EncodeLog2(events, forms)
    ensures ReadsBack(data, c, table, events, forms) <==> LogUnambiguous(events, forms)
    decreases |events|
  {
    hide ReadEntry2, EncodeEntry2, TableAfter, EntryWritable, DigestsUnambiguous;
    if events != [] {
      var first := EncodeEntry2(events[0], forms[0]);
      var next := c + |first|;
      assert data[c..] == first + EncodeLog2(events[1..], forms[1..]);
      assert data[c..next] == first && data[next..] == EncodeLog2(events[1..], forms[1..]);
      ReadEntry2Decides(data, c, events[0], forms[0], table);
      if ReadEntry2(data, c, table) == Ok(ParsedEntry(events[0], forms[0], next)) {
        WrittenLogsAreReadBack(data, next, TableAfter(table, events[0]), events[1..], forms[1..]);
        assert events == [events[0]] + events[1..] && forms == [forms[0]] + forms[1..];
      }
    }
  }

  /** Two unambiguous writings of one list of events parse alike, whichever digests carry a prefix. */
  lemma {:induction false} RawAndPrefixedParseAlike(table: SizeTable, events: seq<Event>, f: seq<seq<Form>>,
                                                    g: seq<seq<Form>>)
    requires |events| == |f| == |g| && LogWritable(events, f, table) && LogWritable(events, g, table)
    requires FormsFit(events, f) && FormsFit(events, g) && LogUnambiguous(events, f) && LogUnambiguous(events, g)
    ensures ReadEntries2(EncodeLog2(events, f), 0, table).Ok? && ReadEntries2(EncodeLog2(events, g), 0, table).Ok?
    ensures ReadEntries2(EncodeLog2(events, f), 0, table).value.events == events
    ensures ReadEntries2(EncodeLog2(events, g), 0, table).value.events == events
  {
    hide ReadEntries2, LogWritable, EncodeLog2;
    WrittenLogsAreReadBack(EncodeLog2(events, f), 0, table, events, f);
    WrittenLogsAreReadBack(EncodeLog2(events, g), 0, table, events, g);
  }
}
