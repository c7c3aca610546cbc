/**
 Whether the events of a written log come back, whatever forms the reader finds the digests in. Two writings of
 the same events in the same bytes shift their digests against each other by whole length prefixes, and can only
 come together again at a digest whose algorithm number is its own size.
 */
module EventLogForms {
  import opened Bytes
  import opened EventLog
  import opened EventLogFormat

  // ---------------------------------------------------------------- algorithms numbered by their own size

  /** A prefixed digest of an algorithm whose known size is the algorithm's own number. */
  predicate OwnSized(d: EventDigest, f: Form, table: SizeTable) {
    f == Prefixed && d.algId != 0 && SizeOf(d.algId, table) == d.algId as nat
  }

  ghost predicate NoneOwnSized(ds: seq<EventDigest>, fs: seq<Form>, table: SizeTable)
    requires |ds| == |fs|
  {
    forall i | 0 <= i < |ds| :: !OwnSized(ds[i], fs[i], table)
  }

  /** No entry has such a digest, under the sizes as the entries before it have left them. */
  ghost predicate LogHasNoOwnSized(events: seq<Event>, forms: seq<seq<Form>>, table: SizeTable)
    requires FormsFit(events, forms)
  {
    events == [] ||
    (NoneOwnSized(events[0].digests, forms[0], table) &&
     LogHasNoOwnSized(events[1..], forms[1..], TableAfter(table, events[0])))
  }

  // ---------------------------------------------------------------- shifted writings

  /** Where the first writing has a prefix and the second has none, the length is not the algorithm number. */
  ghost predicate Apart(ds: seq<EventDigest>, fs: seq<Form>, gs: seq<Form>)
    requires |ds| == |fs| == |gs|
  {
    forall i | 0 <= i < |ds| && fs[i] == Prefixed && gs[i] == Raw ::
      |ds[i].digest| < 0x1_0000 && |ds[i].digest| != ds[i].algId as nat
  }

  /** How far the second writing has fallen behind the first: by one prefix or several, or by none. */
  predicate Behind(s: int) {
    s >= 2 && s % 2 == 0
  }

  lemma DigestLength(d: EventDigest, f: Form)
    ensures |EncodeDigest(d, f)| == 2 + (if f == Prefixed then 2 else 0) + |d.digest|
  {
    hide LE16;
  }

  lemma DigestBegins(data: bytes, c: nat, d: EventDigest, f: Form)
    requires At(data, c, EncodeDigest(d, f)) && |d.digest| < 0x1_0000
    ensures c + 2 <= |data| && GetLE16(data, c) == d.algId
    ensures f == Prefixed ==> c + 4 <= |data| && GetLE16(data, c + 2) == |d.digest|
  {
    hide LE16, GetLE16;
    AtConcat(data, c, LE16(d.algId), EncodeField(d, f));
    LE16At(data, c, d.algId);
    if f == Prefixed {
      AtConcat(data, c + 2, LE16(|d.digest|), d.digest);
      LE16At(data, c + 2, |d.digest|);
    }
  }

  /** One digest written behind itself: what is behind stays behind. */
  lemma DigestStaysBehind(data: bytes, c: nat, s: nat, d: EventDigest, f: Form, g: Form)
    requires Behind(s) && At(data, c, EncodeDigest(d, f)) && At(data, c + s, EncodeDigest(d, g))
    requires f == Prefixed && g == Raw ==> |d.digest| < 0x1_0000 && |d.digest| != d.algId as nat
    ensures Behind(s + |EncodeDigest(d, g)| - |EncodeDigest(d, f)|)
  {
    hide EncodeDigest, GetLE16;
    DigestLength(d, f);
    DigestLength(d, g);
    if f == Prefixed && g == Raw {
      DigestBegins(data, c, d, f);
      DigestBegins(data, c + s, d, g);
    }
  }

  lemma {:induction false} DigestsStayBehind(data: bytes, c: nat, s: nat, ds: seq<EventDigest>, fs: seq<Form>,
                                             gs: seq<Form>)
    requires |ds| == |fs| == |gs| && Behind(s) && Apart(ds, fs, gs)
    requires At(data, c, EncodeDigests(ds, fs)) && At(data, c + s, EncodeDigests(ds, gs))
    ensures Behind(s + |EncodeDigests(ds, gs)| - |EncodeDigests(ds, fs)|)
    decreases |ds|
  {
    hide EncodeDigest, At, Behind;
    if ds != [] {
      var f, g := EncodeDigest(ds[0], fs[0]), EncodeDigest(ds[0], gs[0]);
      AtConcat(data, c, f, EncodeDigests(ds[1..], fs[1..]));
      AtConcat(data, c + s, g, EncodeDigests(ds[1..], gs[1..]));
      DigestStaysBehind(data, c, s, ds[0], fs[0], gs[0]);
      BehindIsPositive(s + |g| - |f|);
      DigestsStayBehind(data, c + |f|, s + |g| - |f|, ds[1..], fs[1..], gs[1..]);
    }
  }

  lemma BehindIsPositive(s: int)
    requires Behind(s)
    ensures s >= 2
  {
  }

  ghost predicate LogApart(events: seq<Event>, f: seq<seq<Form>>, g: seq<seq<Form>>)
    requires FormsFit(events, f) && FormsFit(events, g)
  {
    events == [] || (Apart(events[0].digests, f[0], g[0]) && LogApart(events[1..], f[1..], g[1..]))
  }

  lemma {:induction false} EntryLength(e: Event, fs: seq<Form>)
    requires |e.digests| == |fs|
    ensures |EncodeEntry2(e, fs)| == 16 + |EncodeDigests(e.digests, fs)| + |e.data|
  {
    hide EncodeHeader, EncodeDigests, EncodePayload;
  }

  lemma {:induction false} EntryDigestsAt(data: bytes, c: nat, e: Event, fs: seq<Form>)
    requires |e.digests| == |fs| && At(data, c, EncodeEntry2(e, fs))
    ensures At(data, c + 12, EncodeDigests(e.digests, fs))
  {
    hide EncodeHeader, EncodeDigests, EncodePayload;
    var body := EncodeDigests(e.digests, fs) + EncodePayload(e.data);
    AtConcat(data, c, EncodeHeader(e), body);
    AtConcat(data, c + 12, EncodeDigests(e.digests, fs), EncodePayload(e.data));
  }

  /** A log written behind itself never catches up. */
  lemma {:induction false} LogStaysBehind(data: bytes, c: nat, s: nat, events: seq<Event>, f: seq<seq<Form>>,
                                          g: seq<seq<Form>>)
    requires FormsFit(events, f) && FormsFit(events, g) && Behind(s) && LogApart(events, f, g)
    requires At(data, c, EncodeLog2(events, f)) && At(data, c + s, EncodeLog2(events, g))
    ensures Behind(s + |EncodeLog2(events, g)| - |EncodeLog2(events, f)|)
    decreases |events|
  {
    hide EncodeEntry2, EncodeDigests, At, Behind, Apart;
    if events != [] {
      var e := events[0];
      var x, y := EncodeEntry2(e, f[0]), EncodeEntry2(e, g[0]);
      AtConcat(data, c, x, EncodeLog2(events[1..], f[1..]));
      AtConcat(data, c + s, y, EncodeLog2(events[1..], g[1..]));
      EntryDigestsAt(data, c, e, f[0]);
      EntryDigestsAt(data, c + s, e, g[0]);
      DigestsStayBehind(data, c + 12, s, e.digests, f[0], g[0]);
      EntryLength(e, f[0]);
      EntryLength(e, g[0]);
      BehindIsPositive(s + |y| - |x|);
      LogStaysBehind(data, c + |x|, s + |y| - |x|, events[1..], f[1..], g[1..]);
    }
  }

  // ---------------------------------------------------------------- what the reader finds

  lemma RawDigestIsKnown(data: bytes, c: nat, eventType: u32, table: SizeTable, mode: DigestEncoding)
    requires ReadDigest(data, c, eventType, table, mode).Ok?
    ensures var x := ReadDigest(data, c, eventType, table, mode).value;
            x.form == Raw ==> SizeOf(x.digest.algId, table) > 0
  {
    hide SizeOf, GetLE16;
  }

  /** The reader takes a digest as raw only when it knows the size. */
  lemma {:induction false} RawIsKnown(data: bytes, c: nat, eventType: u32, n: nat, table: SizeTable,
                                      mode: DigestEncoding, i: nat)
    requires ReadDigests(data, c, eventType, n, table, mode).Ok? && i < n
    ensures var p := ReadDigests(data, c, eventType, n, table, mode).value;
            p.forms[i] == Raw ==> SizeOf(p.digests[i].algId, table) > 0
    decreases n
  {
    hide ReadDigest, SizeOf;
    RawDigestIsKnown(data, c, eventType, table, mode);
    if i > 0 {
      var x := ReadDigest(data, c, eventType, table, mode).value;
      RawIsKnown(data, x.next, eventType, n - 1, table, mode, i - 1);
    }
  }

  lemma {:induction false} WritableAt(ds: seq<EventDigest>, fs: seq<Form>, eventType: u32, table: SizeTable, i: nat)
    requires |ds| == |fs| && DigestsWritable(ds, fs, eventType, table) && i < |ds|
    ensures DigestWritable(ds[i], fs[i], eventType, table)
    decreases |ds|
  {
    hide DigestWritable;
    if i > 0 {
      WritableAt(ds[1..], fs[1..], eventType, table, i - 1);
    }
  }

  lemma {:induction false} FoundApart(data: bytes, c: nat, ds: seq<EventDigest>, fs: seq<Form>, eventType: u32,
                                      table: SizeTable, mode: DigestEncoding)
    requires |ds| == |fs| && DigestsWritable(ds, fs, eventType, table) && NoneOwnSized(ds, fs, table)
    requires var r := ReadDigests(data, c, eventType, |ds|, table, mode); r.Ok? && r.value.digests == ds
    ensures Apart(ds, fs, ReadDigests(data, c, eventType, |ds|, table, mode).value.forms)
  {
    hide ReadDigests, SizeOf, DigestsWritable;
    var gs := ReadDigests(data, c, eventType, |ds|, table, mode).value.forms;
    forall i | 0 <= i < |ds| && fs[i] == Prefixed && gs[i] == Raw
      ensures |ds[i].digest| < 0x1_0000 && |ds[i].digest| != ds[i].algId as nat
    {
      RawIsKnown(data, c, eventType, |ds|, table, mode, i);
      WritableAt(ds, fs, eventType, table, i);
      assert !OwnSized(ds[i], fs[i], table);
    }
  }

  /** The digests of an entry, found by the first pass: in the forms they were written in, or falling behind. */
  lemma {:induction false} FoundInFormsOrBehind(data: bytes, c: nat, ds: seq<EventDigest>, fs: seq<Form>,
                                                eventType: u32, table: SizeTable, payload: bytes)
    requires |ds| == |fs| && DigestsWritable(ds, fs, eventType, table) && NoneOwnSized(ds, fs, table)
    requires At(data, c, Tail(ds, fs, payload))
    requires var r := ReadDigests(data, c, eventType, |ds|, table, Auto); r.Ok? && r.value.digests == ds
    ensures var gs := ReadDigests(data, c, eventType, |ds|, table, Auto).value.forms;
            gs == fs || Behind(|EncodeDigests(ds, gs)| - |EncodeDigests(ds, fs)|)
    decreases |ds|
  {
    hide ReadDigest, EncodeDigest, DigestWritable, SpellsItsLength, FollowingByte, At, EncodePayload, Behind,
         OwnSized, Apart;
    if ds != [] {
      var gs := ReadDigests(data, c, eventType, |ds|, table, Auto).value.forms;
      var x := ReadDigest(data, c, eventType, table, Auto).value;
      var rest := ReadDigests(data, x.next, eventType, |ds| - 1, table, Auto).value;
      assert rest.digests == ds[1..] && rest.forms == gs[1..] && x.form == gs[0];
      assert NoneOwnSized(ds[1..], fs[1..], table);
      var first := EncodeDigest(ds[0], fs[0]);
      TailSplits(ds, fs, payload);
      AtConcat(data, c, first, Tail(ds[1..], fs[1..], payload));
      ReadDigestDecides(data, c, ds[0], fs[0], eventType, table, ds[1..], fs[1..], payload);
      if x.form == fs[0] {
        FoundInFormsOrBehind(data, x.next, ds[1..], fs[1..], eventType, table, payload);
        assert fs == [fs[0]] + fs[1..] && gs == [gs[0]] + gs[1..];
      } else {
        ReadDigestIsLossless(data, c, eventType, table, Auto);
        OnePrefixBehind(ds[0]);
        AtConcat(data, c + |first|, EncodeDigests(ds[1..], fs[1..]), EncodePayload(payload));
        InsideBuffer(data, c, EncodeDigest(x.digest, x.form));
        ReadDigestsIsLossless(data, x.next, eventType, |ds| - 1, table, Auto);
        FoundApart(data, x.next, ds[1..], fs[1..], eventType, table, Auto);
        DigestsStayBehind(data, c + |first|, 2, ds[1..], fs[1..], gs[1..]);
      }
    }
  }

  lemma OnePrefixBehind(d: EventDigest)
    ensures |EncodeDigest(d, Prefixed)| == |EncodeDigest(d, Raw)| + 2 && Behind(2)
  {
    DigestLength(d, Raw);
    DigestLength(d, Prefixed);
  }

  lemma InsideBuffer(data: bytes, c: nat, e: bytes)
    requires At(data, c, e)
    ensures c + |e| <= |data|
  {
  }

  /** Prefixes everywhere make the longest writing. */
  lemma {:induction false} AllPrefixedIsLongest(ds: seq<EventDigest>, fs: seq<Form>, gs: seq<Form>)
    requires |ds| == |fs| == |gs| && forall i | 0 <= i < |gs| :: gs[i] == Prefixed
    ensures gs == fs || Behind(|EncodeDigests(ds, gs)| - |EncodeDigests(ds, fs)|)
    decreases |ds|
  {
    hide EncodeDigest;
    if ds != [] {
      DigestLength(ds[0], fs[0]);
      DigestLength(ds[0], gs[0]);
      AllPrefixedIsLongest(ds[1..], fs[1..], gs[1..]);
      assert fs == [fs[0]] + fs[1..] && gs == [gs[0]] + gs[1..];
    }
  }

  /** An entry read as the event that was written there: in its own forms, or ending further on. */
  lemma EntryFoundInFormsOrBehind(data: bytes, c: nat, e: Event, fs: seq<Form>, table: SizeTable)
    requires EntryWritable(e, fs, table) && At(data, c, EncodeEntry2(e, fs)) && NoneOwnSized(e.digests, fs, table)
    requires ReadEntry2(data, c, table).Ok? && ReadEntry2(data, c, table).value.event == e
    ensures var x := ReadEntry2(data, c, table).value;
            |x.forms| == |fs| && Apart(e.digests, fs, x.forms) &&
            (x.forms == fs || Behind(x.next - (c + |EncodeEntry2(e, fs)|)))
  {
    hide ReadDigests, ReadEntry2, EncodeEntry2, EncodeHeader, EncodeDigests, EncodePayload, DigestsWritable, GetLE32,
         Apart, NoneOwnSized, At, Behind;
    var x := ReadEntry2(data, c, table).value;
    var mode := ReadEntry2Shape(data, c, table);
    ReadEntry2IsLossless(data, c, table);
    EntryLength(e, fs);
    EntryLength(e, x.forms);
    EntryParts(data, c, e, fs);
    FoundApart(data, c + 12, e.digests, fs, e.eventType, table, mode);
    if mode == Auto {
      FoundInFormsOrBehind(data, c + 12, e.digests, fs, e.eventType, table, e.data);
    } else {
      forall i | 0 <= i < |x.forms|
        ensures x.forms[i] == Prefixed
      {
        PrefixPassReadsNoRaw(data, c + 12, e.eventType, |e.digests|, table, i);
      }
      AllPrefixedIsLongest(e.digests, fs, x.forms);
    }
  }

  lemma EntryFoundApart(data: bytes, c: nat, e: Event, fs: seq<Form>, table: SizeTable)
    requires EntryWritable(e, fs, table) && NoneOwnSized(e.digests, fs, table)
    requires ReadEntry2(data, c, table).Ok? && ReadEntry2(data, c, table).value.event == e
    ensures var x := ReadEntry2(data, c, table).value;
            |x.forms| == |fs| && Apart(e.digests, fs, x.forms)
  {
    hide ReadDigests, ReadEntry2, EncodeHeader, EncodePayload, DigestsWritable, Apart, NoneOwnSized, At;
    var mode := ReadEntry2Shape(data, c, table);
    FoundApart(data, c + 12, e.digests, fs, e.eventType, table, mode);
  }

  lemma {:induction false} LogFoundApart(data: bytes, c: nat, table: SizeTable, events: seq<Event>,
                                         forms: seq<seq<Form>>)
    requires |events| == |forms| && LogWritable(events, forms, table) && FormsFit(events, forms)
    requires LogHasNoOwnSized(events, forms, table)
    requires c <= |data| && ReadEntries2(data, c, table).Ok? && ReadEntries2(data, c, table).value.events == events
    ensures var found := ReadEntries2(data, c, table).value.forms;
            FormsFit(events, found) && LogApart(events, forms, found)
    decreases |events|
  {
    hide ReadEntry2, TableAfter, EntryWritable, Apart, NoneOwnSized;
    ReadEntries2IsLossless(data, c, table);
    if events != [] {
      var x := ReadEntry2(data, c, table).value;
      var found := ReadEntries2(data, c, table).value.forms;
      var rest := ReadEntries2(data, x.next, TableAfter(table, x.event)).value;
      assert rest.events == events[1..] && rest.forms == found[1..];
      EntryFoundApart(data, c, events[0], forms[0], table);
      LogFoundApart(data, x.next, TableAfter(table, x.event), events[1..], forms[1..]);
    }
  }

  // ---------------------------------------------------------------- the events alone

  /** The events of the log come back, in whatever forms. */
  predicate EventsComeBack(data: bytes, c: nat, table: SizeTable, events: seq<Event>) {
    var r := ReadEntries2(data, c, table);
    r.Ok? && r.value.events == events
  }

  lemma {:induction false} EventsFixTheForms(data: bytes, c: nat, table: SizeTable, events: seq<Event>,
                                             forms: seq<seq<Form>>)
    requires |events| == |forms| && LogWritable(events, forms, table) && FormsFit(events, forms)
    requires LogHasNoOwnSized(events, forms, table)
    requires c <= |data| && data[c..] == EncodeLog2(events, forms) && EventsComeBack(data, c, table, events)
    ensures ReadEntries2(data, c, table).value.forms == forms
    decreases |events|
  {
    hide ReadEntry2, EncodeEntry2, TableAfter, EntryWritable, Apart, NoneOwnSized, Behind;
    if events != [] {
      var first := EncodeEntry2(events[0], forms[0]);
      var next := c + |first|;
      assert data[c..] == first + EncodeLog2(events[1..], forms[1..]);
      assert data[c..next] == first && data[next..] == EncodeLog2(events[1..], forms[1..]);
      var x := ReadEntry2(data, c, table).value;
      var found := ReadEntries2(data, c, table).value.forms;
      var after := TableAfter(table, events[0]);
      var rest := ReadEntries2(data, x.next, after).value;
      assert x.event == events[0] && rest.events == events[1..] && x.forms == found[0] && rest.forms == found[1..];
      EntryFoundInFormsOrBehind(data, c, events[0], forms[0], table);
      if x.forms == forms[0] {
        ReadEntry2IsLossless(data, c, table);
        EventsFixTheForms(data, next, after, events[1..], forms[1..]);
        assert forms == [forms[0]] + forms[1..] && found == [found[0]] + found[1..];
      } else {
        NeverCatchesUp(data, next, x.next, after, events[1..], forms[1..]);
        assert false;
      }
    }
  }

  /** A reader that has fallen behind cannot end with the rest of the events. */
  lemma {:induction false} NeverCatchesUp(data: bytes, written: nat, read: nat, table: SizeTable, events: seq<Event>,
                                         forms: seq<seq<Form>>)
    requires |events| == |forms| && LogWritable(events, forms, table) && FormsFit(events, forms)
    requires LogHasNoOwnSized(events, forms, table)
    requires written <= |data| && data[written..] == EncodeLog2(events, forms)
    requires Behind(read - written) && read <= |data|
    ensures !EventsComeBack(data, read, table, events)
  {
    hide ReadEntries2, EncodeLog2, LogWritable, LogApart, LogHasNoOwnSized;
    if EventsComeBack(data, read, table, events) {
      var found := ReadEntries2(data, read, table).value.forms;
      ReadEntries2IsLossless(data, read, table);
      LogFoundApart(data, read, table, events, forms);
      LogStaysBehind(data, written, read - written, events, forms, found);
    }
  }

  /**
   The events of a writable log come back if and only if no raw field spells its own length, whatever forms the
   reader finds, as long as no prefixed digest is of an algorithm that is numbered by its own size. The built-in
   algorithms are not, and a log that has prefixes only where no size is known has no such digest either.
   */
  lemma {:induction false} EventsComeBackExactly(data: bytes, c: nat, table: SizeTable, events: seq<Event>,
                                                 forms: seq<seq<Form>>)
    requires |events| == |forms| && LogWritable(events, forms, table) && FormsFit(events, forms)
    requires LogHasNoOwnSized(events, forms, table)
    requires c <= |data| && data[c..] == EncodeLog2(events, forms)
    ensures EventsComeBack(data, c, table, events) <==> LogUnambiguous(events, forms)
  {
    hide ReadEntries2, EncodeLog2, LogWritable, LogHasNoOwnSized, LogUnambiguous;
    WrittenLogsAreReadBack(data, c, table, events, forms);
    if EventsComeBack(data, c, table, events) {
      EventsFixTheForms(data, c, table, events, forms);
    }
  }

  // ---------------------------------------------------------------- where no such digest can be

  /** The sizes that are announced are not the algorithms' own numbers. */
  ghost predicate NoOwnSizes(table: SizeTable) {
    forall id | id in table :: table[id] == 0 || table[id] != id as nat
  }

  ghost predicate AnnouncesNoOwnSizes(algorithms: seq<SpecAlgorithm>) {
    forall i | 0 <= i < |algorithms| :: algorithms[i].digestSize == 0 || algorithms[i].digestSize != algorithms[i].algId
  }

  lemma {:induction false} EnteredKeepsNoOwnSizes(table: SizeTable, algorithms: seq<SpecAlgorithm>)
    requires NoOwnSizes(table) && AnnouncesNoOwnSizes(algorithms)
    ensures NoOwnSizes(Entered(table, algorithms))
    decreases |algorithms|
  {
    if algorithms != [] {
      var a := algorithms[0];
      var next := if a.digestSize == 0 then table else table[a.algId := a.digestSize as nat];
      EnteredKeepsNoOwnSizes(next, algorithms[1..]);
    }
  }

  lemma NoneAreOwnSized(ds: seq<EventDigest>, fs: seq<Form>, table: SizeTable)
    requires |ds| == |fs| && NoOwnSizes(table)
    ensures NoneOwnSized(ds, fs, table)
  {
  }

  /** The built-in sizes are not, so only a Spec ID event of the log can bring such a digest about. */
  lemma {:induction false} OrdinaryLogsHaveNoOwnSized(events: seq<Event>, forms: seq<seq<Form>>, table: SizeTable)
    requires FormsFit(events, forms) && NoOwnSizes(table)
    requires forall e | e in events && e.eventType == EV_NO_ACTION && ReadSpecId(e.data).Ok? ::
               AnnouncesNoOwnSizes(ReadSpecId(e.data).value.algorithms)
    ensures LogHasNoOwnSized(events, forms, table)
    decreases |events|
  {
    hide ReadSpecId, Entered, NoneOwnSized, NoOwnSizes, AnnouncesNoOwnSizes;
    if events != [] {
      var e := events[0];
      assert e in events;
      NoneAreOwnSized(e.digests, forms[0], table);
      if e.eventType == EV_NO_ACTION && ReadSpecId(e.data).Ok? {
        EnteredKeepsNoOwnSizes(table, ReadSpecId(e.data).value.algorithms);
      }
      OrdinaryLogsHaveNoOwnSized(events[1..], forms[1..], TableAfter(table, e));
    }
  }

  /** Raw wherever the size is known. */
  ghost predicate RawWhereKnown(events: seq<Event>, forms: seq<seq<Form>>, table: SizeTable)
    requires FormsFit(events, forms)
  {
    events == [] ||
    ((forall i | 0 <= i < |forms[0]| && SizeOf(events[0].digests[i].algId, table) > 0 :: forms[0][i] == Raw) &&
     RawWhereKnown(events[1..], forms[1..], TableAfter(table, events[0])))
  }

  lemma {:induction false} RawLogsHaveNoOwnSized(events: seq<Event>, forms: seq<seq<Form>>, table: SizeTable)
    requires FormsFit(events, forms) && RawWhereKnown(events, forms, table)
    ensures LogHasNoOwnSized(events, forms, table)
    decreases |events|
  {
    hide TableAfter, SizeOf;
    if events != [] {
      RawLogsHaveNoOwnSized(events[1..], forms[1..], TableAfter(table, events[0]));
    }
  }

  // ---------------------------------------------------------------- where there is one

  /** Twenty bytes that spell twenty over and over. */
  function Twenties(): (r: bytes)
    ensures |r| == 20
  {
    seq(20, k requires 0 <= k < 20 => if k % 2 == 0 then 20 else 0)
  }

  lemma TwentiesShift()
    ensures Twenties() + LE16(20) == LE16(20) + Twenties()
  {
    var a, b := Twenties() + LE16(20), LE16(20) + Twenties();
    assert LE16(20) == [20, 0];
    forall k | 0 <= k < 22
      ensures a[k] == b[k]
    {
    }
  }

  lemma Regrouped(alg: bytes, w: bytes, d: bytes)
    requires w + alg == alg + w
    ensures (alg + w) + (alg + (alg + d)) == (alg + (alg + w)) + (alg + d)
  {
    var rest := alg + d;
    assert (alg + w) + (alg + rest) == alg + (w + alg) + rest;
    assert alg + (alg + w) + rest == (alg + (alg + w)) + rest;
  }

  lemma FieldsOf(d: EventDigest)
    ensures EncodeDigest(d, Raw) == LE16(d.algId) + d.digest
    ensures EncodeDigest(d, Prefixed) == LE16(d.algId) + (LE16(|d.digest|) + d.digest)
  {
    hide LE16;
    assert [] + d.digest == d.digest;
  }

  /** The same bytes: the first digest raw and the second prefixed, and the other way round. */
  lemma TwoWritings(d: bytes)
    requires |d| == 20
    ensures var ds := [EventDigest(20, Twenties()), EventDigest(20, d)];
            EncodeDigests(ds, [Raw, Prefixed]) == EncodeDigests(ds, [Prefixed, Raw])
  {
    hide LE16, Twenties, EncodeDigest, EncodeDigests;
    var ds := [EventDigest(20, Twenties()), EventDigest(20, d)];
    TwoEncoded(ds, [Raw, Prefixed]);
    TwoEncoded(ds, [Prefixed, Raw]);
    FieldsOf(ds[0]);
    FieldsOf(ds[1]);
    TwentiesShift();
    Regrouped(LE16(20), Twenties(), d);
  }

  lemma {:induction false} TwoEncoded(ds: seq<EventDigest>, fs: seq<Form>)
    requires |ds| == |fs| == 2
    ensures EncodeDigests(ds, fs) == EncodeDigest(ds[0], fs[0]) + EncodeDigest(ds[1], fs[1])
  {
    hide EncodeDigest;
    var ds', fs' := ds[1..], fs[1..];
    assert EncodeDigests(ds'[1..], fs'[1..]) == [];
    assert EncodeDigests(ds', fs') == EncodeDigest(ds[1], fs[1]);
  }

  lemma {:induction false} TwoWritable(e: Event, fs: seq<Form>, table: SizeTable)
    requires |fs| == 2 && |e.digests| == 2 && e.eventType != EV_NO_ACTION && |e.data| <= PAYLOAD_AT_MOST
    requires forall i | 0 <= i < 2 :: e.digests[i].algId == 20 && |e.digests[i].digest| == 20
    requires SizeOf(20, table) == 20
    ensures LogWritable([e], [fs], table) && FormsFit([e], [fs])
    ensures EncodeLog2([e], [fs]) == EncodeEntry2(e, fs)
  {
    hide SizeOf, EncodeEntry2, TableAfter;
    assert DigestsWritable(e.digests[1..][1..], fs[1..][1..], e.eventType, table);
    assert DigestsWritable(e.digests[1..], fs[1..], e.eventType, table);
    assert EntryWritable(e, fs, table);
    var events, forms := [e], [fs];
    assert events[1..] == [] && forms[1..] == [];
    assert LogWritable(events[1..], forms[1..], TableAfter(table, e));
    assert EncodeLog2(events[1..], forms[1..]) == [];
    assert EncodeEntry2(e, fs) + [] == EncodeEntry2(e, fs);
  }

  lemma TwoUnambiguous(e: Event, fs: seq<Form>)
    requires |fs| == 2 && |e.digests| == 2 && forall i | 0 <= i < 2 :: |e.digests[i].digest| >= 2
    ensures LogUnambiguous([e], [fs]) <==>
            (fs[0] == Raw ==> !SpellsItsLength(e.digests[0].digest, 0)) &&
            (fs[1] == Raw ==> !SpellsItsLength(e.digests[1].digest, 0))
  {
    var events, forms := [e], [fs];
    assert LogUnambiguous(events[1..], forms[1..]);
    assert DigestsUnambiguous(e.digests[1..][1..], fs[1..][1..], |e.data|);
    assert DigestsUnambiguous(e.digests[1..], fs[1..], |e.data|) <==>
           (fs[1] == Raw ==> !SpellsItsLength(e.digests[1].digest, 0));
  }

  /**
   The condition is needed: with algorithm 20 announced as twenty bytes long, a log whose first digest is raw
   and spells its length comes back event for event all the same, its two digests having changed forms.
   */
  lemma OwnSizedLogComesBack(pcrIndex: u32, eventType: u32, d: bytes, payload: bytes)
    requires eventType != EV_NO_ACTION && |payload| <= PAYLOAD_AT_MOST
    requires |d| == 20 && !SpellsItsLength(d, 0)
    ensures var table: SizeTable := map[20 := 20];
            var e := Event(pcrIndex, eventType, [EventDigest(20, Twenties()), EventDigest(20, d)], payload);
            LogWritable([e], [[Raw, Prefixed]], table) && FormsFit([e], [[Raw, Prefixed]]) &&
            !LogUnambiguous([e], [[Raw, Prefixed]]) &&
            EventsComeBack(EncodeLog2([e], [[Raw, Prefixed]]), 0, table, [e]) &&
            ReadEntries2(EncodeLog2([e], [[Raw, Prefixed]]), 0, table).value.forms == [[Prefixed, Raw]]
  {
    hide ReadEntries2, EncodeLog2, LogWritable, LogUnambiguous, EncodeDigests, FormsFit, SpellsItsLength, Twenties;
    var table: SizeTable := map[20 := 20];
    var e := Event(pcrIndex, eventType, [EventDigest(20, Twenties()), EventDigest(20, d)], payload);
    TwoWritings(d);
    TwentiesSpell();
    TwoWritable(e, [Raw, Prefixed], table);
    TwoWritable(e, [Prefixed, Raw], table);
    TwoUnambiguous(e, [Raw, Prefixed]);
    TwoUnambiguous(e, [Prefixed, Raw]);
    var data := EncodeLog2([e], [[Prefixed, Raw]]);
    assert data[0..] == data;
    WrittenLogsAreReadBack(data, 0, table, [e], [[Prefixed, Raw]]);
  }

  lemma TwentiesSpell()
    ensures SpellsItsLength(Twenties(), 0)
  {
  }

  // ---------------------------------------------------------------- the exact condition for every log

  lemma PrefixedIsShort(data: bytes, c: nat, eventType: u32, table: SizeTable, mode: DigestEncoding)
    requires ReadDigest(data, c, eventType, table, mode).Ok?
    ensures var x := ReadDigest(data, c, eventType, table, mode).value;
            x.form == Prefixed ==> |x.digest.digest| < 0x1_0000
  {
    hide SizeOf;
  }

  lemma {:induction false} FoundDigestsWritable(data: bytes, c: nat, ds: seq<EventDigest>, fs: seq<Form>,
                                                eventType: u32, table: SizeTable, mode: DigestEncoding)
    requires |ds| == |fs| && DigestsWritable(ds, fs, eventType, table)
    requires var r := ReadDigests(data, c, eventType, |ds|, table, mode); r.Ok? && r.value.digests == ds
    ensures DigestsWritable(ds, ReadDigests(data, c, eventType, |ds|, table, mode).value.forms, eventType, table)
    decreases |ds|
  {
    hide ReadDigest, SizeOf;
    if ds != [] {
      var p := ReadDigests(data, c, eventType, |ds|, table, mode).value;
      var x := ReadDigest(data, c, eventType, table, mode).value;
      var rest := ReadDigests(data, x.next, eventType, |ds| - 1, table, mode).value;
      assert rest.digests == ds[1..] && rest.forms == p.forms[1..] && x.digest == ds[0] && x.form == p.forms[0];
      RawDigestIsKnown(data, c, eventType, table, mode);
      PrefixedIsShort(data, c, eventType, table, mode);
      FoundDigestsWritable(data, x.next, ds[1..], fs[1..], eventType, table, mode);
    }
  }

  lemma FoundEntryWritable(data: bytes, c: nat, e: Event, fs: seq<Form>, table: SizeTable)
    requires EntryWritable(e, fs, table)
    requires ReadEntry2(data, c, table).Ok? && ReadEntry2(data, c, table).value.event == e
    ensures EntryWritable(e, ReadEntry2(data, c, table).value.forms, table)
  {
    hide ReadDigests, ReadEntry2, EncodeHeader, EncodePayload, DigestsWritable, At;
    var mode := ReadEntry2Shape(data, c, table);
    FoundDigestsWritable(data, c + 12, e.digests, fs, e.eventType, table, mode);
  }

  lemma {:induction false} FoundLogWritable(data: bytes, c: nat, table: SizeTable, events: seq<Event>,
                                            forms: seq<seq<Form>>)
    requires |events| == |forms| && LogWritable(events, forms, table) && EventsComeBack(data, c, table, events)
    ensures LogWritable(events, ReadEntries2(data, c, table).value.forms, table)
    decreases |events|
  {
    hide ReadEntry2, TableAfter, EntryWritable;
    if events != [] {
      var x := ReadEntry2(data, c, table).value;
      var found := ReadEntries2(data, c, table).value.forms;
      var rest := ReadEntries2(data, x.next, TableAfter(table, x.event)).value;
      assert x.event == events[0] && rest.events == events[1..] && x.forms == found[0] && rest.forms == found[1..];
      FoundEntryWritable(data, c, events[0], forms[0], table);
      FoundLogWritable(data, x.next, TableAfter(table, x.event), events[1..], forms[1..]);
    }
  }

  /** The bytes are an unambiguous writing of the events. */
  ghost predicate WrittenPlainly(written: bytes, table: SizeTable, events: seq<Event>, forms: seq<seq<Form>>) {
    FormsFit(events, forms) && LogWritable(events, forms, table) && LogUnambiguous(events, forms) &&
    written == EncodeLog2(events, forms)
  }

  /**
   For every writable log: its events come back exactly when some writing of them in the same bytes is
   unambiguous.
   */
  lemma {:induction false} EventsComeBackWhenPlain(data: bytes, c: nat, table: SizeTable, events: seq<Event>,
                                                   forms: seq<seq<Form>>)
    requires |events| == |forms| && LogWritable(events, forms, table) && FormsFit(events, forms)
    requires c <= |data| && data[c..] == EncodeLog2(events, forms)
    ensures EventsComeBack(data, c, table, events) <==> exists plain :: WrittenPlainly(data[c..], table, events, plain)
  {
    hide ReadEntries2, EncodeLog2, LogWritable, LogUnambiguous;
    if EventsComeBack(data, c, table, events) {
      var found := ReadEntries2(data, c, table).value.forms;
      ReadEntries2IsLossless(data, c, table);
      FoundLogWritable(data, c, table, events, forms);
      WrittenLogsAreReadBack(data, c, table, events, found);
      assert WrittenPlainly(data[c..], table, events, found);
    }
    if plain :| WrittenPlainly(data[c..], table, events, plain) {
      WrittenLogsAreReadBack(data, c, table, events, plain);
    }
  }
}
