/** Replaying an event log into PCR values, for an arbitrary hash of fixed length. */
module Replay {
  import opened Bytes
  import opened Algorithms
  import opened EventLog

  type Hash = (PcrAlgorithm, bytes) -> bytes

  ghost predicate FixedLength(h: Hash) {
    forall a, x :: |h(a, x)| == a.DigestLen()
  }

  type PcrState = map<u32, bytes>

  function Zeros(n: nat): (r: bytes)
    ensures |r| == n
  {
    seq(n, _ => 0)
  }

  /** `Event::digest_for_algorithm`: the first digest of the algorithm. */
  function DigestFor(ds: seq<EventDigest>, algId: u16): Option<bytes> {
    if ds == [] then None
    else if ds[0].algId == algId then Some(ds[0].digest)
    else DigestFor(ds[1..], algId)
  }

  /** What an event contributes: its first digest for the algorithm, if that has the right length. */
  function Measurement(e: Event, alg: PcrAlgorithm): Option<bytes> {
    match DigestFor(e.digests, alg.AlgId())
    case Some(m) => if |m| == alg.DigestLen() then Some(m) else None
    case None => None
  }

  function Extend(h: Hash, alg: PcrAlgorithm, current: bytes, measurement: bytes): bytes {
    h(alg, current + measurement)
  }

  function ValueIn(s: PcrState, pcr: u32, alg: PcrAlgorithm): bytes {
    if pcr in s then s[pcr] else Zeros(alg.DigestLen())
  }

  function Step(s: PcrState, e: Event, alg: PcrAlgorithm, h: Hash): PcrState {
    match Measurement(e, alg)
    case Some(m) => s[e.pcrIndex := Extend(h, alg, ValueIn(s, e.pcrIndex, alg), m)]
    case None => s
  }

  function Replayed(s: PcrState, events: seq<Event>, alg: PcrAlgorithm, h: Hash): PcrState
    decreases |events|
  {
    if events == [] then s else Replayed(Step(s, events[0], alg, h), events[1..], alg, h)
  }

  /** `replay_pcrs` */
  method ReplayPcrs(events: seq<Event>, alg: PcrAlgorithm, h: Hash) returns (state: PcrState)
    ensures state == Replayed(map[], events, alg, h)
  {
    var digestLen := alg.DigestLen();
    state := map[];
    for i := 0 to |events|
      invariant Replayed(map[], events, alg, h) == Replayed(state, events[i..], alg, h)
    {
      var event := events[i];
      assert events[i..][1..] == events[i + 1..];
      ghost var next := Step(state, event, alg, h);
      var measurement := DigestFor(event.digests, alg.AlgId());
      if measurement.Some? {
        if |measurement.value| != digestLen {
          continue;
        }
        if event.pcrIndex !in state {
          state := state[event.pcrIndex := Zeros(digestLen)];
        }
        state := state[event.pcrIndex := Extend(h, alg, state[event.pcrIndex], measurement.value)];
      }
      assert state == next;
    }
  }

  // ---------------------------------------------------------------- the per-PCR fold

  /** The measurements of one PCR, in log order. */
  function Measurements(events: seq<Event>, pcr: u32, alg: PcrAlgorithm): seq<bytes> {
    if events == [] then [] else
    var rest := Measurements(events[1..], pcr, alg);
    if events[0].pcrIndex == pcr && Measurement(events[0], alg).Some?
    then [Measurement(events[0], alg).value] + rest
    else rest
  }

  function Fold(h: Hash, alg: PcrAlgorithm, value: bytes, ms: seq<bytes>): bytes
    decreases |ms|
  {
    if ms == [] then value else Fold(h, alg, Extend(h, alg, value, ms[0]), ms[1..])
  }

  /**
   From any state: a PCR is present afterwards if it was or if it is measured, and holds the fold of its own
   measurements.
   */
  lemma {:induction false} ReplayIsTheFold(s: PcrState, events: seq<Event>, pcr: u32, alg: PcrAlgorithm, h: Hash)
    ensures pcr in Replayed(s, events, alg, h) <==> pcr in s || Measurements(events, pcr, alg) != []
    ensures ValueIn(Replayed(s, events, alg, h), pcr, alg) ==
            Fold(h, alg, ValueIn(s, pcr, alg), Measurements(events, pcr, alg))
    decreases |events|
  {
    if events != [] {
      ReplayIsTheFold(Step(s, events[0], alg, h), events[1..], pcr, alg, h);
      var rest := Measurements(events[1..], pcr, alg);
      if events[0].pcrIndex == pcr && Measurement(events[0], alg).Some? {
        assert ([Measurement(events[0], alg).value] + rest)[1..] == rest;
      }
    }
  }

  lemma {:induction false} FoldKeepsLength(h: Hash, alg: PcrAlgorithm, value: bytes, ms: seq<bytes>)
    requires FixedLength(h) && |value| == alg.DigestLen()
    ensures |Fold(h, alg, value, ms)| == alg.DigestLen()
    decreases |ms|
  {
    if ms != [] {
      FoldKeepsLength(h, alg, Extend(h, alg, value, ms[0]), ms[1..]);
    }
  }

  /** `replay_pcrs`: exactly the measured PCRs, each with the hash-extend fold from zeros, each of the digest length. */
  lemma {:induction false} ReplayFromReset(events: seq<Event>, alg: PcrAlgorithm, h: Hash)
    ensures var s := Replayed(map[], events, alg, h);
            (forall p: u32 :: p in s <==> Measurements(events, p, alg) != []) &&
            (forall p: u32 | p in s ::
              s[p] == Fold(h, alg, Zeros(alg.DigestLen()), Measurements(events, p, alg)) &&
              (FixedLength(h) ==> |s[p]| == alg.DigestLen()))
  {
    hide FixedLength;
    var s := Replayed(map[], events, alg, h);
    forall p: u32
      ensures p in s <==> Measurements(events, p, alg) != []
      ensures p in s ==> s[p] == Fold(h, alg, Zeros(alg.DigestLen()), Measurements(events, p, alg))
      ensures p in s && FixedLength(h) ==> |s[p]| == alg.DigestLen()
    {
      ReplayIsTheFold(map[], events, p, alg, h);
      if FixedLength(h) {
        FoldKeepsLength(h, alg, Zeros(alg.DigestLen()), Measurements(events, p, alg));
      }
    }
  }

  // ---------------------------------------------------------------- event by event

  /** The digest at `i` is the first in the list for the algorithm of that number. */
  ghost predicate IsFirstDigest(ds: seq<EventDigest>, algId: u16, i: nat) {
    i < |ds| && ds[i].algId == algId && forall j | 0 <= j < i :: ds[j].algId != algId
  }

  lemma {:induction false} DigestForIsFirst(ds: seq<EventDigest>, algId: u16)
    ensures match DigestFor(ds, algId)
            case Some(m) => exists i: nat :: IsFirstDigest(ds, algId, i) && ds[i].digest == m
            case None => forall i | 0 <= i < |ds| :: ds[i].algId != algId
    decreases |ds|
  {
    if ds != [] {
      if ds[0].algId == algId {
        assert IsFirstDigest(ds, algId, 0);
      } else {
        DigestForIsFirst(ds[1..], algId);
        if DigestFor(ds, algId).Some? {
          assert forall j | 0 <= j < |ds| - 1 :: ds[1..][j] == ds[j + 1];
          var i: nat :| IsFirstDigest(ds[1..], algId, i) && ds[1..][i].digest == DigestFor(ds, algId).value;
          forall j | 0 < j < i + 1
            ensures ds[j].algId != algId
          {
            assert ds[j] == ds[1..][j - 1];
          }
          assert IsFirstDigest(ds, algId, i + 1);
        } else {
          assert forall j | 0 < j < |ds| :: ds[j] == ds[1..][j - 1];
        }
      }
    }
  }

  /** The event measures `m` into the PCR: its first digest under the algorithm's number, of the algorithm's size. */
  ghost predicate Measures(e: Event, pcr: u32, alg: PcrAlgorithm, m: bytes) {
    var (number, size) := Registered(alg);
    e.pcrIndex == pcr && |m| == size &&
    exists i: nat :: IsFirstDigest(e.digests, number, i) && e.digests[i].digest == m
  }

  lemma FirstIsUnique(ds: seq<EventDigest>, algId: u16, i: nat, j: nat)
    requires IsFirstDigest(ds, algId, i) && IsFirstDigest(ds, algId, j)
    ensures i == j
  {
  }

  lemma MeasurementIsFirst(e: Event, pcr: u32, alg: PcrAlgorithm, m: bytes)
    ensures Measures(e, pcr, alg, m) <==> e.pcrIndex == pcr && Measurement(e, alg) == Some(m)
  {
    AreRegistered(alg);
    DigestForIsFirst(e.digests, alg.AlgId());
    if i: nat :| IsFirstDigest(e.digests, alg.AlgId(), i) && e.digests[i].digest == m {
      if DigestFor(e.digests, alg.AlgId()).Some? {
        var j: nat :| IsFirstDigest(e.digests, alg.AlgId(), j) &&
                 e.digests[j].digest == DigestFor(e.digests, alg.AlgId()).value;
        FirstIsUnique(e.digests, alg.AlgId(), i, j);
      }
    }
  }

  ghost predicate IsMeasured(e: Event, pcr: u32, alg: PcrAlgorithm) {
    exists m :: Measures(e, pcr, alg, m)
  }

  /** What a PCR goes through, event by event: from zeros, each of its measurements hashed behind the value so far. */
  ghost predicate IsTrace(values: seq<bytes>, events: seq<Event>, pcr: u32, alg: PcrAlgorithm, h: Hash) {
    |values| == |events| + 1 &&
    |values[0]| == Registered(alg).1 && (forall k | 0 <= k < |values[0]| :: values[0][k] == 0) &&
    forall k | 0 <= k < |events| :: IsTraceStep(values[k], values[k + 1], events[k], pcr, alg, h)
  }

  ghost predicate IsTraceStep(before: bytes, after: bytes, e: Event, pcr: u32, alg: PcrAlgorithm, h: Hash) {
    (forall m | Measures(e, pcr, alg, m) :: after == h(alg, before + m)) &&
    (!IsMeasured(e, pcr, alg) ==> after == before)
  }

  lemma StepIsTraceStep(s: PcrState, e: Event, pcr: u32, alg: PcrAlgorithm, h: Hash)
    ensures IsTraceStep(ValueIn(s, pcr, alg), ValueIn(Step(s, e, alg, h), pcr, alg), e, pcr, alg, h)
    ensures pcr in Step(s, e, alg, h) <==> pcr in s || IsMeasured(e, pcr, alg)
  {
    hide Measures, Measurement;
    forall m
      ensures Measures(e, pcr, alg, m) <==> e.pcrIndex == pcr && Measurement(e, alg) == Some(m)
    {
      MeasurementIsFirst(e, pcr, alg, m);
    }
    if e.pcrIndex == pcr && Measurement(e, alg).Some? {
      assert Measures(e, pcr, alg, Measurement(e, alg).value);
    }
  }

  /**
   `replay_pcrs`, said without the functions that compute it: the PCRs present are those that some event measures,
   and each holds the end of its trace. An event measures its first digest under the algorithm's number, and
   nothing when that digest is of another size, whatever other digests it has.
   */
  lemma {:induction false} ReplayIsTheTrace(events: seq<Event>, pcr: u32, alg: PcrAlgorithm, h: Hash)
    returns (values: seq<bytes>)
    ensures IsTrace(values, events, pcr, alg, h)
    ensures values[|events|] == ValueIn(Replayed(map[], events, alg, h), pcr, alg)
    ensures pcr in Replayed(map[], events, alg, h) <==> exists k :: 0 <= k < |events| && IsMeasured(events[k], pcr, alg)
    decreases |events|
  {
    hide IsTraceStep, IsMeasured, Step, ValueIn;
    if events == [] {
      values := [ValueIn(map[], pcr, alg)];
      StartsAtZeros(pcr, alg);
    } else {
      var n := |events| - 1;
      var before := Replayed(map[], events[..n], alg, h);
      values := ReplayIsTheTrace(events[..n], pcr, alg, h);
      assert events == events[..n] + [events[n]];
      ReplayContinues(map[], events[..n], [events[n]], alg, h);
      assert Replayed(before, [events[n]], alg, h) == Step(before, events[n], alg, h);
      StepIsTraceStep(before, events[n], pcr, alg, h);
      values := values + [ValueIn(Step(before, events[n], alg, h), pcr, alg)];
      assert forall k | 0 <= k < n :: events[k] == events[..n][k];
    }
  }

  lemma StartsAtZeros(pcr: u32, alg: PcrAlgorithm)
    ensures var zeros := ValueIn(map[], pcr, alg);
            |zeros| == Registered(alg).1 && forall k | 0 <= k < |zeros| :: zeros[k] == 0
  {
    AreRegistered(alg);
  }

  // ---------------------------------------------------------------- several logs, and reordering

  /** Replaying one log after another is continuing the replay, which is how several log files are combined. */
  lemma {:induction false} ReplayContinues(s: PcrState, a: seq<Event>, b: seq<Event>, alg: PcrAlgorithm, h: Hash)
    ensures Replayed(s, a + b, alg, h) == Replayed(Replayed(s, a, alg, h), b, alg, h)
    decreases |a|
  {
    if a == [] {
      assert a + b == b;
    } else {
      assert (a + b)[1..] == a[1..] + b;
      ReplayContinues(Step(s, a[0], alg, h), a[1..], b, alg, h);
    }
  }

  function Flattened(logs: seq<seq<Event>>): seq<Event> {
    if logs == [] then [] else logs[0] + Flattened(logs[1..])
  }

  function ReplayedLogs(s: PcrState, logs: seq<seq<Event>>, alg: PcrAlgorithm, h: Hash): PcrState
    decreases |logs|
  {
    if logs == [] then s else ReplayedLogs(Replayed(s, logs[0], alg, h), logs[1..], alg, h)
  }

  /** The combined events of any number of log files replay as the files do one by one. */
  lemma {:induction false} CombinedLogsReplayInTurn(s: PcrState, logs: seq<seq<Event>>, alg: PcrAlgorithm, h: Hash)
    ensures Replayed(s, Flattened(logs), alg, h) == ReplayedLogs(s, logs, alg, h)
    decreases |logs|
  {
    if logs != [] {
      ReplayContinues(s, logs[0], Flattened(logs[1..]), alg, h);
      CombinedLogsReplayInTurn(Replayed(s, logs[0], alg, h), logs[1..], alg, h);
    }
  }

  /** The events of one PCR, in log order. */
  function OnPcr(events: seq<Event>, pcr: u32): seq<Event> {
    if events == [] then []
    else if events[0].pcrIndex == pcr then [events[0]] + OnPcr(events[1..], pcr)
    else OnPcr(events[1..], pcr)
  }

  lemma {:induction false} MeasurementsOnPcr(events: seq<Event>, pcr: u32, alg: PcrAlgorithm)
    ensures Measurements(events, pcr, alg) == Measurements(OnPcr(events, pcr), pcr, alg)
    decreases |events|
  {
    if events != [] {
      MeasurementsOnPcr(events[1..], pcr, alg);
      if events[0].pcrIndex == pcr {
        assert OnPcr(events, pcr)[1..] == OnPcr(events[1..], pcr);
      }
    }
  }

  /** Any reordering that keeps the order of the events of each PCR replays to the same values. */
  lemma {:induction false} ReplayIgnoresInterleaving(s: PcrState, a: seq<Event>, b: seq<Event>, alg: PcrAlgorithm,
                                                     h: Hash)
    requires forall p: u32 :: OnPcr(a, p) == OnPcr(b, p)
    ensures Replayed(s, a, alg, h) == Replayed(s, b, alg, h)
  {
    var x, y := Replayed(s, a, alg, h), Replayed(s, b, alg, h);
    forall p: u32
      ensures p in x <==> p in y
      ensures p in x ==> x[p] == y[p]
    {
      assert OnPcr(a, p) == OnPcr(b, p);
      MeasurementsOnPcr(a, p, alg);
      MeasurementsOnPcr(b, p, alg);
      ReplayIsTheFold(s, a, p, alg, h);
      ReplayIsTheFold(s, b, p, alg, h);
    }
  }

  lemma {:induction false} OnPcrOfBoth(a: seq<Event>, b: seq<Event>, pcr: u32)
    ensures OnPcr(a + b, pcr) == OnPcr(a, pcr) + OnPcr(b, pcr)
    decreases |a|
  {
    if a == [] {
      assert a + b == b;
    } else {
      assert (a + b)[1..] == a[1..] + b;
      OnPcrOfBoth(a[1..], b, pcr);
    }
  }

  /** Logs that share no PCR may be combined in either order. */
  lemma {:induction false} DisjointLogsCommute(s: PcrState, a: seq<Event>, b: seq<Event>, alg: PcrAlgorithm, h: Hash)
    requires forall p: u32 :: OnPcr(a, p) == [] || OnPcr(b, p) == []
    ensures Replayed(s, a + b, alg, h) == Replayed(s, b + a, alg, h)
  {
    forall p: u32
      ensures OnPcr(a + b, p) == OnPcr(b + a, p)
    {
      OnPcrOfBoth(a, b, p);
      OnPcrOfBoth(b, a, p);
      assert OnPcr(a, p) == [] || OnPcr(b, p) == [];
    }
    ReplayIgnoresInterleaving(s, a + b, b + a, alg, h);
  }

  // ---------------------------------------------------------------- a PCR value pins its measurements

  /** Two different inputs with one digest. */
  predicate Collides(h: Hash, alg: PcrAlgorithm, x: bytes, y: bytes) {
    x != y && h(alg, x) == h(alg, y)
  }

  lemma {:induction false} FoldLast(h: Hash, alg: PcrAlgorithm, value: bytes, ms: seq<bytes>)
    requires ms != []
    ensures var n := |ms| - 1;
            Fold(h, alg, value, ms) == Extend(h, alg, Fold(h, alg, value, ms[..n]), ms[n])
    decreases |ms|
  {
    var n := |ms| - 1;
    if n > 0 {
      FoldLast(h, alg, Extend(h, alg, value, ms[0]), ms[1..]);
      assert ms[1..][..n - 1] == ms[..n][1..];
    }
  }

  /** `x` is what is hashed when one of the measurements `ms` is extended into a PCR that started at zeros. */
  predicate IsExtendInput(h: Hash, alg: PcrAlgorithm, ms: seq<bytes>, x: bytes) {
    exists i | 0 <= i < |ms| :: x == ExtendInput(h, alg, ms, i)
  }

  function ExtendInput(h: Hash, alg: PcrAlgorithm, ms: seq<bytes>, i: nat): bytes
    requires i < |ms|
  {
    Fold(h, alg, Zeros(alg.DigestLen()), ms[..i]) + ms[i]
  }

  /**
   The hash is broken at an input that one of the two folds computes: a collision between them, or a preimage of
   zeros.
   */
  predicate Broken(h: Hash, alg: PcrAlgorithm, ms: seq<bytes>, ns: seq<bytes>, x: bytes, y: bytes) {
    (IsExtendInput(h, alg, ms, x) && IsExtendInput(h, alg, ns, y) && Collides(h, alg, x, y)) ||
    ((IsExtendInput(h, alg, ms, x) || IsExtendInput(h, alg, ns, x)) && h(alg, x) == Zeros(alg.DigestLen()))
  }

  lemma PrefixInputs(h: Hash, alg: PcrAlgorithm, ms: seq<bytes>, n: nat, x: bytes)
    requires n <= |ms| && IsExtendInput(h, alg, ms[..n], x)
    ensures IsExtendInput(h, alg, ms, x)
  {
    hide Fold;
    var i :| 0 <= i < n && x == ExtendInput(h, alg, ms[..n], i);
    assert ms[..n][..i] == ms[..i];
    assert x == ExtendInput(h, alg, ms, i);
  }

  lemma LastInput(h: Hash, alg: PcrAlgorithm, ms: seq<bytes>) returns (x: bytes)
    requires ms != []
    ensures x == ExtendInput(h, alg, ms, |ms| - 1) && IsExtendInput(h, alg, ms, x)
    ensures Fold(h, alg, Zeros(alg.DigestLen()), ms) == h(alg, x)
  {
    FoldLast(h, alg, Zeros(alg.DigestLen()), ms);
    x := ExtendInput(h, alg, ms, |ms| - 1);
  }

  /** Equal inputs of the same hash come from equal values and equal measurements. */
  lemma {:induction false} EqualLastInputs(h: Hash, alg: PcrAlgorithm, ms: seq<bytes>, ns: seq<bytes>)
    requires FixedLength(h) && ms != [] && ns != []
    requires ExtendInput(h, alg, ms, |ms| - 1) == ExtendInput(h, alg, ns, |ns| - 1)
    ensures var zeros := Zeros(alg.DigestLen());
            Fold(h, alg, zeros, ms[..|ms| - 1]) == Fold(h, alg, zeros, ns[..|ns| - 1]) && ms[|ms| - 1] == ns[|ns| - 1]
  {
    hide Fold;
    var zeros := Zeros(alg.DigestLen());
    var p, q := Fold(h, alg, zeros, ms[..|ms| - 1]), Fold(h, alg, zeros, ns[..|ns| - 1]);
    FoldKeepsLength(h, alg, zeros, ms[..|ms| - 1]);
    FoldKeepsLength(h, alg, zeros, ns[..|ns| - 1]);
    var x := ExtendInput(h, alg, ms, |ms| - 1);
    assert p == x[..|p|] && q == x[..|q|] && ms[|ms| - 1] == x[|p|..] && ns[|ns| - 1] == x[|q|..];
  }

  /**
   Two different measurement lists that replay to one value break the hash at inputs that the two replays
   compute: one of each that collide, or one of either that hashes to the reset value.
   */
  lemma {:induction false} EqualPcrsMeanEqualMeasurements(h: Hash, alg: PcrAlgorithm, ms: seq<bytes>, ns: seq<bytes>)
    returns (x: bytes, y: bytes)
    requires FixedLength(h) && ms != ns
    requires Fold(h, alg, Zeros(alg.DigestLen()), ms) == Fold(h, alg, Zeros(alg.DigestLen()), ns)
    ensures Broken(h, alg, ms, ns, x, y)
    decreases |ms|
  {
    hide IsExtendInput, ExtendInput, FixedLength;
    x, y := [], [];
    if ms != [] {
      x := LastInput(h, alg, ms);
    }
    if ns != [] {
      y := LastInput(h, alg, ns);
    }
    if ms == [] {
      x := y;
    } else if ns != [] && x == y {
      var m, n := |ms| - 1, |ns| - 1;
      EqualLastInputs(h, alg, ms, ns);
      assert ms == ms[..m] + [ms[m]] && ns == ns[..n] + [ns[n]];
      x, y := EqualPcrsMeanEqualMeasurements(h, alg, ms[..m], ns[..n]);
      BrokenPrefixes(h, alg, ms, m, ns, n, x, y);
    }
  }

  lemma BrokenPrefixes(h: Hash, alg: PcrAlgorithm, ms: seq<bytes>, m: nat, ns: seq<bytes>, n: nat, x: bytes, y: bytes)
    requires m <= |ms| && n <= |ns| && Broken(h, alg, ms[..m], ns[..n], x, y)
    ensures Broken(h, alg, ms, ns, x, y)
  {
    hide IsExtendInput;
    if IsExtendInput(h, alg, ms[..m], x) {
      PrefixInputs(h, alg, ms, m, x);
    }
    if IsExtendInput(h, alg, ns[..n], x) {
      PrefixInputs(h, alg, ns, n, x);
    }
    if IsExtendInput(h, alg, ns[..n], y) {
      PrefixInputs(h, alg, ns, n, y);
    }
  }

  /**
   So a PCR value pins the log: two logs that replay to one value of a PCR have the same measurements
   of it in the same order, or break the hash at inputs that their replays compute.
   */
  lemma ReplayedValuePinsTheLog(h: Hash, alg: PcrAlgorithm, a: seq<Event>, b: seq<Event>, pcr: u32)
    returns (x: bytes, y: bytes)
    requires FixedLength(h)
    requires ValueIn(Replayed(map[], a, alg, h), pcr, alg) == ValueIn(Replayed(map[], b, alg, h), pcr, alg)
    ensures Measurements(a, pcr, alg) == Measurements(b, pcr, alg) ||
            Broken(h, alg, Measurements(a, pcr, alg), Measurements(b, pcr, alg), x, y)
  {
    hide Broken, FixedLength;
    ReplayIsTheFold(map[], a, pcr, alg, h);
    ReplayIsTheFold(map[], b, pcr, alg, h);
    x, y := [], [];
    if Measurements(a, pcr, alg) != Measurements(b, pcr, alg) {
      x, y := EqualPcrsMeanEqualMeasurements(h, alg, Measurements(a, pcr, alg), Measurements(b, pcr, alg));
    }
  }
}
