/** PCR_Read against the honest TPM: however the rounds are split up, the result is the bank. */
module HonestPcr {
  import opened Bytes
  import opened Errors
  import opened Algorithms
  import opened Wire
  import opened WireExact
  import opened PcrBitmap
  import opened Framing
  import opened Commands
  import opened AnyDevice
  import opened HonestTpm
  import opened HonestRuns

  // ---------------------------------------------------------------- selections of one bank

  lemma {:induction false} AscendingIsEmpty(s: set<nat>, i: nat)
    ensures AscendingFrom(s, i) == [] <==> forall p | i <= p < PCR_COUNT :: p !in s
    decreases PCR_COUNT - i
  {
    if i < PCR_COUNT {
      AscendingIsEmpty(s, i + 1);
    }
  }

  lemma {:induction false} AscendingIsShort(s: set<nat>, i: nat)
    requires i <= PCR_COUNT
    ensures |AscendingFrom(s, i)| <= PCR_COUNT - i
    decreases PCR_COUNT - i
  {
    if i < PCR_COUNT {
      AscendingIsShort(s, i + 1);
    }
  }

  /** The selection the client makes of a list is read back by the TPM, and selects those PCRs. */
  lemma SelectionIsRead(d: bytes, c: nat, pcrs: seq<u32>, alg: u16)
    requires At(d, c, MarshalSelections(SelectionOf(pcrs, alg)))
    ensures ReadSelections(d, c) == Ok((SelectionOf(pcrs, alg), c + |MarshalSelections(SelectionOf(pcrs, alg))|))
  {
    hide BitmapOf, MarshalSelections, ReadSelections;
    var sels := SelectionOf(pcrs, alg);
    if pcrs != [] {
      var m := BitmapOf(pcrs);
      assert PadSelect(m[..3]) == m;
      assert sels[1..] == [];
      assert SelectionsCanonical(sels[1..]);
    }
    ReadSelectionsIsExact(d, c, sels, c + |MarshalSelections(sels)|);
  }

  lemma SelectsExactly(pcrs: seq<u32>, s: set<nat>)
    requires forall p: nat | p < PCR_COUNT :: p in pcrs <==> p in s
    requires forall p | p in s :: p < PCR_COUNT
    ensures SelectedSet(BitmapOf(pcrs)) == s
  {
    hide BitmapOf, TestBit, Bit;
    var m := BitmapOf(pcrs);
    forall p: nat | p < PCR_COUNT
      ensures Bit(m[p / 8], p % 8) <==> p in s
    {
      BitmapSelects(pcrs, p);
      TestBitIsBit(m[p / 8], p % 8);
    }
  }

  lemma AlgIdsAreKnown(alg: PcrAlgorithm)
    ensures BankNumbered(alg.AlgId()) == Some(alg)
  {
  }

  lemma BankIsWhole(s: State, alg: PcrAlgorithm)
    requires ValidState(s)
    ensures alg in s.banks && |s.banks[alg]| == PCR_COUNT
    ensures forall p | 0 <= p < PCR_COUNT :: |s.banks[alg][p]| == alg.DigestLen()
  {
  }

  /** The client's selection of a non-empty set names one bank that the TPM has. */
  lemma ClientSelection(s: State, alg: PcrAlgorithm, pcrs: seq<u32>)
    requires ValidState(s) && pcrs != []
    ensures var sels := SelectionOf(pcrs, alg.AlgId());
            SelectionsFit(sels) && OneBank(sels, s) && BankOf(sels, s) == s.banks[alg]
  {
    hide BitmapOf, ValidState, BankNumbered;
    var sels := SelectionOf(pcrs, alg.AlgId());
    assert sels[1..] == [];
    AlgIdsAreKnown(alg);
    BankIsWhole(s, alg);
  }

  // ---------------------------------------------------------------- the response

  /** The parameters that the TPM sends for the PCRs `some`. */
  function PcrParams(counter: u32, alg: PcrAlgorithm, bank: seq<bytes>, some: set<nat>): bytes
    requires |bank| == PCR_COUNT
  {
    var sels := [PcrSelection(alg.AlgId(), 3, BitmapOf(Ascending(some)))];
    assert sels[1..] == [];
    BE32(counter) + (MarshalSelections(sels) + MarshalDigestList(ValuesOf(bank, some)))
  }

  lemma {:induction false} ListedIsSized(bank: seq<bytes>, pcrs: seq<u32>, n: nat)
    requires forall k | 0 <= k < |pcrs| :: pcrs[k] < |bank|
    requires forall p | 0 <= p < |bank| :: |bank[p]| == n
    ensures forall k | 0 <= k < |pcrs| :: Listed(bank, pcrs)[k] == bank[pcrs[k]]
    ensures |MarshalDigests(Listed(bank, pcrs))| == (2 + n) * |pcrs|
    decreases |pcrs|
  {
    hide BE16;
    if pcrs != [] {
      ListedIsSized(bank, pcrs[1..], n);
      assert Listed(bank, pcrs)[1..] == Listed(bank, pcrs[1..]);
      assert (2 + n) * |pcrs| == (2 + n) + (2 + n) * |pcrs[1..]|;
    }
  }

  lemma SumOfValues(n: nat, k: nat)
    requires n <= 48 && k <= PCR_COUNT
    ensures (2 + n) * k <= 50 * PCR_COUNT
  {
  }

  lemma PcrParamsAreRead(d: bytes, c: nat, counter: u32, alg: PcrAlgorithm, bank: seq<bytes>, some: set<nat>)
    requires |bank| == PCR_COUNT && forall p | 0 <= p < PCR_COUNT :: |bank[p]| == alg.DigestLen()
    requires some != {} && forall p | p in some :: p < PCR_COUNT
    requires At(d, c, PcrParams(counter, alg, bank, some))
    ensures var sels := SelectionOf(Ascending(some), alg.AlgId());
            ReadPcrParams(d, c) == Ok(((sels, ValuesOf(bank, some)), c + |PcrParams(counter, alg, bank, some)|))
  {
    hide BE32, GetBE32, BitmapOf, MarshalSelections, ReadSelections, MarshalDigestList, ReadDigestList, Ascending,
         Listed;
    AscendingNotEmpty(some);
    var sels := SelectionOf(Ascending(some), alg.AlgId());
    var values := ValuesOf(bank, some);
    AtConcat(d, c, BE32(counter), MarshalSelections(sels) + MarshalDigestList(values));
    AtConcat(d, c + 4, MarshalSelections(sels), MarshalDigestList(values));
    ReadU32IsExact(d, c, counter);
    SelectionIsRead(d, c + 4, Ascending(some), alg.AlgId());
    ValuesAreSized(bank, some, alg.DigestLen());
    ReadDigestListIsExact(d, c + 4 + |MarshalSelections(sels)|, values, c + |PcrParams(counter, alg, bank, some)|);
  }

  lemma AscendingNotEmpty(s: set<nat>)
    requires s != {} && forall p | p in s :: p < PCR_COUNT
    ensures Ascending(s) != []
  {
    AscendingIsEmpty(s, 0);
    var p :| p in s;
  }

  lemma ValuesAreSized(bank: seq<bytes>, some: set<nat>, n: nat)
    requires |bank| == PCR_COUNT && n <= 48 && forall p | 0 <= p < PCR_COUNT :: |bank[p]| == n
    ensures var values := ValuesOf(bank, some);
            |values| <= PCR_COUNT && AllSized(values) && |MarshalDigestList(values)| <= 4 + 50 * PCR_COUNT
  {
    hide BE32, MarshalDigests, Listed;
    AscendingInRange(some, 0);
    AscendingIsShort(some, 0);
    ListedIsSized(bank, Ascending(some), n);
    SumOfValues(n, |Ascending(some)|);
  }

  /** What a response about `some` says: those indices in ascending order, and their values. */
  lemma PcrsReturnedAre(counter: u32, alg: PcrAlgorithm, bank: seq<bytes>, some: set<nat>)
    requires |bank| == PCR_COUNT && forall p | 0 <= p < PCR_COUNT :: |bank[p]| == alg.DigestLen()
    requires some != {} && forall p | p in some :: p < PCR_COUNT
    ensures var body := PcrParams(counter, alg, bank, some);
            |body| <= 0x8000 &&
            PcrsReturned(Ok(Response(TPM_ST_NO_SESSIONS, 0, body))) == Ok((Ascending(some), ValuesOf(bank, some)))
  {
    hide Response, FromBytes, BitmapOf, MarshalSelections, MarshalDigestList, ReadPcrParams, Ascending, Listed,
         IndicesFrom, BE32;
    var sels := SelectionOf(Ascending(some), alg.AlgId());
    var values := ValuesOf(bank, some);
    var params := PcrParams(counter, alg, bank, some);
    AscendingNotEmpty(some);
    SelectionLength(Ascending(some), alg.AlgId());
    ValuesAreSized(bank, some, alg.DigestLen());
    forall d: bytes, c: nat | At(d, c, params)
      ensures ReadPcrParams(d, c) == Ok(((sels, values), c + |params|))
    {
      PcrParamsAreRead(d, c, counter, alg, bank, some);
    }
    ParamsAreParsed<(Selections, seq<bytes>)>(TPM_ST_NO_SESSIONS, params, [], ReadPcrParams, (sels, values));
    IndicesOfOne(alg.AlgId(), some);
  }

  lemma IndicesOfOne(alg: u16, some: set<nat>)
    requires some != {} && forall p | p in some :: p < PCR_COUNT
    ensures AllIndices(SelectionOf(Ascending(some), alg)) == Ascending(some)
  {
    hide BitmapOf, IndicesFrom, AscendingFrom;
    AscendingNotEmpty(some);
    var sels := SelectionOf(Ascending(some), alg);
    assert sels[1..] == [];
    assert AllIndices(sels[1..]) == [];
    forall q: nat | q < PCR_COUNT
      ensures q in Ascending(some) <==> q in some
    {
      AscendingHolds(some, 0, q);
    }
    IndicesOfSelection(alg, Ascending(some), some, 0);
  }

  // ---------------------------------------------------------------- one round

  lemma {:induction false} AbsorbTakesValues(s: Progress, bank: seq<bytes>, pcrs: seq<u32>, alg: PcrAlgorithm)
    requires forall k | 0 <= k < |pcrs| :: pcrs[k] < |bank|
    requires forall p | 0 <= p < |bank| :: |bank[p]| == alg.DigestLen()
    requires forall p | p in s.collected :: p < |bank| && s.collected[p] == bank[p]
    ensures var r := Absorb(s, pcrs, Listed(bank, pcrs), alg);
            r.Ok? && (forall p :: p in r.value.remaining <==> p in s.remaining && p !in pcrs) &&
            forall p | p in r.value.collected :: p < |bank| && r.value.collected[p] == bank[p]
    decreases |pcrs|
  {
    if pcrs != [] {
      assert Listed(bank, pcrs)[1..] == Listed(bank, pcrs[1..]);
      assert forall p :: p in pcrs <==> p == pcrs[0] || p in pcrs[1..];
      var t := if pcrs[0] in s.remaining
               then Progress(s.remaining - {pcrs[0] as nat}, s.collected[pcrs[0] as nat := bank[pcrs[0]]]) else s;
      AbsorbTakesValues(t, bank, pcrs[1..], alg);
    }
  }

  /** All that is collected is the bank's. */
  ghost predicate FromBank(s: Progress, bank: seq<bytes>) {
    (forall p | p in s.remaining :: p < PCR_COUNT) &&
    forall p | p in s.collected :: p < |bank| && s.collected[p] == bank[p]
  }

  lemma PcrReadOutcome(env: Env, log: seq<bytes>, s: State, alg: PcrAlgorithm, wanted: set<nat>)
    requires ValidState(s) && wanted != {} && forall p | p in wanted :: p < PCR_COUNT
    ensures var params := MarshalSelections(SelectionOf(Ascending(wanted), alg.AlgId()));
            PcrRead(env, log, s, params) ==
            Done(s, TPM_ST_NO_SESSIONS,
                 PcrParams(env.counter(log), alg, s.banks[alg], Answered(wanted, env.given(log))))
  {
    hide BitmapOf, MarshalSelections, ReadSelections, MarshalDigestList, AscendingFrom, Listed, ValidState, BE32,
         BankNumbered, OctetsOf;
    var pcrs := Ascending(wanted);
    AscendingNotEmpty(wanted);
    var sels := SelectionOf(pcrs, alg.AlgId());
    var params := MarshalSelections(sels);
    ClientSelection(s, alg, pcrs);
    assert At(params, 0, params);
    SelectionIsRead(params, 0, pcrs, alg.AlgId());
    forall q: nat | q < PCR_COUNT
      ensures q in pcrs <==> q in wanted
    {
      AscendingHolds(wanted, 0, q);
    }
    SelectsExactly(pcrs, wanted);
    OctetsAreTheBitmap(Answered(wanted, env.given(log)));
  }

  lemma OctetsAreTheBitmap(some: set<nat>)
    ensures OctetsOf(some) == BitmapOf(Ascending(some))
  {
    hide BitmapOf, OctetsOf, AscendingFrom;
    forall q: nat | q < PCR_COUNT
      ensures q in Ascending(some) <==> q in some
    {
      AscendingHolds(some, 0, q);
    }
    BitmapIsOctets(Ascending(some), some);
  }

  lemma {:induction false} PcrRoundWithHonest(device: Device, env: Env, s0: State, log: seq<bytes>, p: Progress,
                                              alg: PcrAlgorithm)
    requires Behaves(device, env, s0) && ValidEnv(env) && ValidState(s0)
    requires p.remaining != {} && FromBank(p, s0.banks[alg])
    ensures var x := PcrRound(device, log, p, alg);
            StateAfter(env, s0, x.sent) == StateAfter(env, s0, log) &&
            match x.result
            case Ok(t) => FromBank(t, s0.banks[alg])
            case Err(e) => e == TpmRc(RC_RETRY) && env.fails(x.sent)
  {
    hide Command, Body, Exchange, StateAfter, Behaves, ValidState, ValidEnv, MarshalSelections, AscendingFrom,
         PcrsReturned, Absorb, Response, Listed, BitmapOf, PcrRead;
    var s := StateAfter(env, s0, log);
    RunsKeepState(env, s0, log);
    RunsKeepBanksAndKeys(env, s0, log);
    BankIsWhole(s, alg);
    var bank := s.banks[alg];
    var sels := SelectionOf(Ascending(p.remaining), alg.AlgId());
    var params := MarshalSelections(sels);
    SelectionLength(Ascending(p.remaining), alg.AlgId());
    NoAuthBody([], params);
    var command := PcrReadCommand(alg, Ascending(p.remaining));
    var log' := log + [command];
    PcrReadOutcome(env, log', s, alg, p.remaining);
    var some := Answered(p.remaining, env.given(log'));
    AscendingInRange(some, 0);
    PcrsReturnedAre(env.counter(log'), alg, bank, some);
    ExchangeWithHonest(device, env, s0, log, CC_PCR_READ, [], NoAuth, params);
    AbsorbTakesValues(p, bank, Ascending(some), alg);
    var q :| q in some;
    AscendingHolds(some, 0, q);
    ErrorsPass(RC_RETRY);
  }

  lemma ErrorsPass(rc: u32)
    ensures PcrsReturned(Err(TpmRc(rc))) == Err(TpmRc(rc))
  {
  }

  // ---------------------------------------------------------------- all rounds

  lemma {:induction false} PcrRoundsWithHonest(device: Device, env: Env, s0: State, log: seq<bytes>, p: Progress,
                                               alg: PcrAlgorithm)
    requires Behaves(device, env, s0) && ValidEnv(env) && ValidState(s0)
    requires FromBank(p, s0.banks[alg])
    ensures var x := PcrRounds(device, log, p, alg);
            StateAfter(env, s0, x.sent) == StateAfter(env, s0, log) &&
            match x.result
            case Ok(collected) => FromBank(Progress({}, collected), s0.banks[alg])
            case Err(e) => e == TpmRc(RC_RETRY) && env.fails(x.sent)
    decreases p.remaining
  {
    hide PcrRound, StateAfter, Behaves, ValidState, ValidEnv;
    if p.remaining != {} {
      PcrRoundWithHonest(device, env, s0, log, p, alg);
      var x := PcrRound(device, log, p, alg);
      if x.result.Ok? {
        PcrRoundsWithHonest(device, env, s0, x.sent, x.result.value, alg);
      }
    }
  }

  /** The bank's values in the order of a list. */
  function BankValues(bank: seq<bytes>, pcrs: seq<u32>): (r: seq<(u32, bytes)>)
    requires forall k | 0 <= k < |pcrs| :: pcrs[k] < |bank|
  {
    seq(|pcrs|, k requires 0 <= k < |pcrs| => (pcrs[k], bank[pcrs[k]]))
  }

  /**
   `read_pcrs_for_alg` against a TPM that answers each request with any part of it: the values of the
   bank, in the caller's order and with the caller's repetitions. Nothing changes, and the only error is the TPM's.
   */
  lemma {:induction false} ReadPcrsIsTheBank(device: Device, env: Env, s0: State, log: seq<bytes>, alg: PcrAlgorithm,
                                             pcrs: seq<u32>)
    requires Behaves(device, env, s0) && ValidEnv(env) && ValidState(s0)
    requires forall k | 0 <= k < |pcrs| :: pcrs[k] < PCR_COUNT
    ensures alg in s0.banks && |s0.banks[alg]| == PCR_COUNT
    ensures var x := ReadPcrs(device, log, alg, pcrs);
            StateAfter(env, s0, x.sent) == StateAfter(env, s0, log) &&
            match x.result
            case Ok(out) => out == BankValues(s0.banks[alg], pcrs)
            case Err(e) => e == TpmRc(RC_RETRY) && env.fails(x.sent)
  {
    hide PcrRounds, InOrder, StateAfter, Behaves, ValidState, ValidEnv;
    BankIsWhole(s0, alg);
    var p := Progress(AsSet(pcrs), map[]);
    PcrRoundsWithHonest(device, env, s0, log, p, alg);
    PcrRoundsEnd(device, log, p, alg);
    var x := PcrRounds(device, log, p, alg);
    if x.result.Ok? {
      InOrderEnds(pcrs, x.result.value);
      forall k | 0 <= k < |pcrs|
        ensures x.result.value[pcrs[k]] == s0.banks[alg][pcrs[k]]
      {
        assert pcrs[k] in AsSet(pcrs);
      }
    }
  }
}
