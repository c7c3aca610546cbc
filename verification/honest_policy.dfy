/**
 Policy sessions against the honest TPM, however commands fail on the way: the digest a trial session computes is
 the one a policy session reaches exactly for strictly ascending lists, decryption then succeeds exactly for a key
 bound to it, and no session is left unless the flush itself fails.
 */
module HonestPolicy {
  import opened Bytes
  import opened Errors
  import opened Algorithms
  import opened Wire
  import opened WireExact
  import opened PcrBitmap
  import opened Framing
  import opened Commands
  import opened AnyDevice
  import opened HonestTpm
  import opened HonestRuns
  import HonestNv
  import opened HonestPcr

  // ---------------------------------------------------------------- starting, flushing, reading the digest

  lemma AuthRequestIsRead(nonce: Nonce, kind: byte)
    ensures var sym := SymDefObject(ALG_NULL, 0, 0);
            var d := Sized(nonce) + (Sized([]) + ([kind] + (MarshalSym(sym) + BE16(ALG_SHA256))));
            ReadAuthRequest(d) == Ok(AuthRequest(nonce, [], kind, sym, ALG_SHA256)) && |d| <= 100
  {
    hide BE16, GetBE16, Sized, ReadSized, MarshalSym, ReadSym;
    var sym := SymDefObject(ALG_NULL, 0, 0);
    var t3 := MarshalSym(sym) + BE16(ALG_SHA256);
    var t2 := [kind] + t3;
    var t1 := Sized([]) + t2;
    var d := Sized(nonce) + t1;
    SymLength();
    assert At(d, 0, d);
    AtConcat(d, 0, Sized(nonce), t1);
    AtConcat(d, 18, Sized([]), t2);
    AtConcat(d, 20, [kind], t3);
    AtConcat(d, 21, MarshalSym(sym), BE16(ALG_SHA256));
    ReadSizedIsExact(d, 0, nonce, 18);
    ReadSizedIsExact(d, 18, [], 20);
    AtIndex(d, 20, [kind], 0);
    ReadSymIsExact(d, 21, sym, 23);
    ReadU16IsExact(d, 23, ALG_SHA256);
  }

  lemma SymLength()
    ensures |MarshalSym(SymDefObject(ALG_NULL, 0, 0))| == 2
  {
  }

  lemma SessionHandleIsRead(h: u32, nonce: bytes)
    requires |nonce| == 16
    ensures var d := Response(TPM_ST_NO_SESSIONS, 0, BE32(h) + Sized(nonce));
            SessionHandle(LongEnough(Ok(d))) == Ok(h)
  {
    hide Response, BE32, GetBE32, GetBE16, Sized, ReadSized;
    var body := BE32(h) + Sized(nonce);
    var d := Response(TPM_ST_NO_SESSIONS, 0, body);
    ResponseHeader(TPM_ST_NO_SESSIONS, 0, body);
    AtConcat(d, HEADER_LEN, BE32(h), Sized(nonce));
    ReadU32IsExact(d, HEADER_LEN, h);
    ReadSizedIsExact(d, HEADER_LEN + 4, nonce, HEADER_LEN + 22);
  }

  lemma StartParams(nonce: Nonce, kind: byte)
    ensures var sym := SymDefObject(ALG_NULL, 0, 0);
            var params := Sized(nonce) + (Sized([]) + ([kind] + (MarshalSym(sym) + BE16(ALG_SHA256))));
            StartAuthCommand(nonce, kind, ALG_SHA256) ==
            Command(CC_START_AUTH_SESSION, [RH_NULL, RH_NULL], NoAuth, params)
  {
  }

  /** A new session of the given kind with a zero digest, unless the TPM fails or has no new handle. */
  lemma {:induction false} StartWithHonest(device: Device, env: Env, s0: State, log: seq<bytes>, nonce: Nonce,
                                           kind: byte)
    requires Behaves(device, env, s0) && ValidEnv(env) && kind in {SE_POLICY, SE_TRIAL}
    ensures var s := StateAfter(env, s0, log);
            var c := StartAuthCommand(nonce, kind, ALG_SHA256);
            var h := env.newHandle(log + [c]);
            var x := StartAuthSession(device, log, Some(nonce), kind);
            x.sent == log + [c] &&
            if env.fails(log + [c]) then x.result == Err(TpmRc(RC_RETRY)) && StateAfter(env, s0, x.sent) == s
            else if h in s.sessions then x.result == Err(TpmRc(RC_OBJECT_HANDLES)) && StateAfter(env, s0, x.sent) == s
            else x.result == Ok(h) &&
                 StateAfter(env, s0, x.sent) ==
                 s.(sessions := s.sessions[h := PolicySession(kind == SE_TRIAL, ZeroDigest())])
  {
    hide Command, Body, Exchange, StateAfter, Behaves, Sized, BE16, BE32, ReadAuthRequest, Response, SessionHandle,
         MarshalSym, StartAuthCommand, LongEnough;
    var params := Sized(nonce) + (Sized([]) + ([kind] + (MarshalSym(SymDefObject(ALG_NULL, 0, 0)) + BE16(ALG_SHA256))));
    StartParams(nonce, kind);
    AuthRequestIsRead(nonce, kind);
    NoAuthBody([RH_NULL, RH_NULL], params);
    var c := StartAuthCommand(nonce, kind, ALG_SHA256);
    SessionHandleIsRead(env.newHandle(log + [c]), env.nonceTpm(log + [c]));
    ExchangeWithHonest(device, env, s0, log, CC_START_AUTH_SESSION, [RH_NULL, RH_NULL], NoAuth, params);
    HandleErrors(RC_RETRY);
    HandleErrors(RC_OBJECT_HANDLES);
  }

  lemma HandleErrors(rc: u32)
    ensures SessionHandle(LongEnough(Err(TpmRc(rc)))) == Err(TpmRc(rc))
  {
  }

  /** Flushing a session removes it. */
  lemma {:induction false} FlushWithHonest(device: Device, env: Env, s0: State, log: seq<bytes>, h: u32)
    requires Behaves(device, env, s0)
    ensures var s := StateAfter(env, s0, log);
            var x := FlushContext(device, log, h);
            x.sent == log + [FlushCommand(h)] &&
            StateAfter(env, s0, x.sent) ==
            if env.fails(log + [FlushCommand(h)]) then s else s.(sessions := s.sessions - {h})
  {
    hide Command, Body, Exchange, StateAfter, Behaves;
    NoAuthBody([h], []);
    ExchangeWithHonest(device, env, s0, log, CC_FLUSH_CONTEXT, [h], NoAuth, []);
    var s := StateAfter(env, s0, log);
    if h !in s.sessions {
      assert s.sessions - {h} == s.sessions;
    }
  }

  lemma DigestIsParsed(x: bytes)
    requires |x| == 32
    ensures var d := Response(TPM_ST_NO_SESSIONS, 0, Sized(x));
            LongEnough(Ok(d)) == Ok(d) && FromBytes(d, ReadSized) == Ok(x)
  {
    hide Response, FromBytes, Sized, ReadSized;
    forall d: bytes, c: nat | At(d, c, Sized(x))
      ensures ReadSized(d, c) == Ok((x, c + |Sized(x)|))
    {
      ReadSizedIsExact(d, c, x, c + |Sized(x)|);
    }
    ParamsAreParsed(TPM_ST_NO_SESSIONS, Sized(x), [], ReadSized, x);
  }

  lemma {:induction false} GetDigestWithHonest(device: Device, env: Env, s0: State, log: seq<bytes>, h: u32)
    requires Behaves(device, env, s0) && ValidEnv(env) && ValidState(s0)
    requires h in StateAfter(env, s0, log).sessions
    ensures var s := StateAfter(env, s0, log);
            var c := PolicyGetDigestCommand(h);
            var x := Exchange(device, log, c);
            x.sent == log + [c] && StateAfter(env, s0, x.sent) == s &&
            Parsed(LongEnough(x.result), ReadSized) ==
            if env.fails(log + [c]) then Err(TpmRc(RC_RETRY)) else Ok(s.sessions[h].digest)
  {
    hide Command, Body, Exchange, StateAfter, Behaves, ValidState, ValidEnv, Sized, ReadSized, Response, FromBytes,
         LongEnough;
    var s := StateAfter(env, s0, log);
    RunsKeepState(env, s0, log);
    SessionSizes(s);
    NoAuthBody([h], []);
    DigestIsParsed(s.sessions[h].digest);
    ExchangeWithHonest(device, env, s0, log, CC_POLICY_GET_DIGEST, [h], NoAuth, []);
    ShortErrors(RC_RETRY);
  }

  lemma ShortErrors(rc: u32)
    ensures LongEnough(Err(TpmRc(rc))) == Err(TpmRc(rc))
  {
  }

  // ---------------------------------------------------------------- PolicyPCR

  /** The digest the client computes: over the values in the caller's order. */
  function GivenDigest(env: Env, bank: seq<bytes>, pcrs: seq<u32>): bytes
    requires forall k | 0 <= k < |pcrs| :: pcrs[k] < |bank|
  {
    env.sha256(Concat(Listed(bank, pcrs)))
  }

  /** The digest the TPM computes: over the values in ascending order. */
  function TpmDigest(env: Env, bank: seq<bytes>, pcrs: seq<u32>): bytes
    requires |bank| == PCR_COUNT
  {
    env.sha256(Concat(ValuesOf(bank, AsSet(pcrs))))
  }

  /** The policy digest of a list of PCRs with a digest of their values; without PCRs nothing is asserted. */
  function PolicyDigest(env: Env, pcrs: seq<u32>, pcrDigest: bytes): bytes {
    SelectionLength(pcrs, ALG_SHA256);
    if pcrs == [] then ZeroDigest() else
    Extended(env, ZeroDigest(), SelectionOf(pcrs, ALG_SHA256), pcrDigest)
  }

  lemma {:induction false} ValuesAreConcat(bank: seq<bytes>, pcrs: seq<u32>)
    requires forall k | 0 <= k < |pcrs| :: pcrs[k] < |bank|
    ensures Values(BankValues(bank, pcrs)) == Concat(Listed(bank, pcrs))
    decreases |pcrs|
  {
    if pcrs != [] {
      assert BankValues(bank, pcrs)[1..] == BankValues(bank, pcrs[1..]);
      ValuesAreConcat(bank, pcrs[1..]);
      assert Listed(bank, pcrs)[1..] == Listed(bank, pcrs[1..]);
    }
  }

  // ---------------------------------------------------------------- the caller's order and the TPM's

  /** The values in the caller's order are those in ascending order, one of each PCR. */
  predicate SameValues(bank: seq<bytes>, pcrs: seq<u32>)
    requires |bank| == PCR_COUNT && forall k | 0 <= k < |pcrs| :: pcrs[k] < PCR_COUNT
  {
    Listed(bank, pcrs) == ValuesOf(bank, AsSet(pcrs))
  }

  predicate Distinct(bank: seq<bytes>) {
    forall p, q | 0 <= p < q < |bank| :: bank[p] != bank[q]
  }

  /** A bank of twenty-four SHA-256 values. */
  predicate Sha256Bank(bank: seq<bytes>) {
    |bank| == PCR_COUNT && forall p | 0 <= p < PCR_COUNT :: |bank[p]| == 32
  }

  lemma {:induction false} ListedAt(bank: seq<bytes>, pcrs: seq<u32>, k: nat)
    requires k < |pcrs| && forall i | 0 <= i < |pcrs| :: pcrs[i] < |bank|
    ensures Listed(bank, pcrs)[k] == bank[pcrs[k]]
    decreases |pcrs|
  {
    if k > 0 {
      ListedAt(bank, pcrs[1..], k - 1);
    }
  }

  predicate InRange(bank: seq<bytes>, pcrs: seq<u32>) {
    forall k | 0 <= k < |pcrs| :: pcrs[k] < |bank|
  }

  lemma {:induction false} ListedIsOneToOne(bank: seq<bytes>, a: seq<u32>, b: seq<u32>)
    requires Distinct(bank) && InRange(bank, a) && InRange(bank, b) && Listed(bank, a) == Listed(bank, b)
    ensures a == b
  {
    hide Listed;
    assert |a| == |Listed(bank, a)| == |b|;
    forall k | 0 <= k < |a|
      ensures a[k] == b[k]
    {
      ListedAt(bank, a, k);
      ListedAt(bank, b, k);
    }
  }

  /** Values of one length are told apart by their concatenation. */
  lemma {:induction false} ConcatIsOneToOne(a: seq<bytes>, b: seq<bytes>, n: nat)
    requires n > 0 && (forall k | 0 <= k < |a| :: |a[k]| == n) && (forall k | 0 <= k < |b| :: |b[k]| == n)
    requires Concat(a) == Concat(b)
    ensures a == b
    decreases |a|
  {
    if a != [] && b != [] {
      assert Concat(a)[..n] == a[0] && Concat(b)[..n] == b[0];
      assert Concat(a)[n..] == Concat(a[1..]) && Concat(b)[n..] == Concat(b[1..]);
      ConcatIsOneToOne(a[1..], b[1..], n);
      assert a == [a[0]] + a[1..] && b == [b[0]] + b[1..];
    }
  }

  lemma {:induction false} AscendingIsStrict(s: set<nat>, i: nat)
    ensures StrictlyAscending(AscendingFrom(s, i))
    decreases PCR_COUNT - i
  {
    if i < PCR_COUNT {
      AscendingIsStrict(s, i + 1);
      var rest := AscendingFrom(s, i + 1);
      forall k | 0 <= k < |rest|
        ensures rest[k] > i
      {
        AscendingHolds(s, i + 1, rest[k]);
      }
    }
  }

  /** For a strictly ascending list the two orders are one. */
  lemma AscendingOrdersAgree(bank: seq<bytes>, pcrs: seq<u32>)
    requires |bank| == PCR_COUNT && StrictlyAscending(pcrs) && forall k | 0 <= k < |pcrs| :: pcrs[k] < PCR_COUNT
    ensures SameValues(bank, pcrs)
  {
    hide AscendingFrom, Listed;
    AscendingInRange(AsSet(pcrs), 0);
    AscendingOfList(pcrs, AsSet(pcrs), 0);
  }

  /** When the values of a bank differ from each other, only for a strictly ascending list. */
  lemma OnlyAscendingOrdersAgree(bank: seq<bytes>, pcrs: seq<u32>)
    requires |bank| == PCR_COUNT && Distinct(bank) && forall k | 0 <= k < |pcrs| :: pcrs[k] < PCR_COUNT
    ensures SameValues(bank, pcrs) <==> StrictlyAscending(pcrs)
  {
    hide AscendingFrom, Listed, Distinct, StrictlyAscending;
    if StrictlyAscending(pcrs) {
      AscendingOrdersAgree(bank, pcrs);
    }
    if SameValues(bank, pcrs) {
      AscendingInRange(AsSet(pcrs), 0);
      ListedIsOneToOne(bank, pcrs, Ascending(AsSet(pcrs)));
      AscendingIsStrict(AsSet(pcrs), 0);
    }
  }

  /** What the client hashes, and what the TPM hashes. */
  function ClientInput(bank: seq<bytes>, pcrs: seq<u32>): bytes
    requires forall k | 0 <= k < |pcrs| :: pcrs[k] < |bank|
  {
    Concat(Listed(bank, pcrs))
  }

  function TpmInput(bank: seq<bytes>, pcrs: seq<u32>): bytes
    requires |bank| == PCR_COUNT
  {
    Concat(ValuesOf(bank, AsSet(pcrs)))
  }

  lemma InputsAgreeExactly(bank: seq<bytes>, pcrs: seq<u32>)
    requires Sha256Bank(bank) && forall k | 0 <= k < |pcrs| :: pcrs[k] < PCR_COUNT
    ensures ClientInput(bank, pcrs) == TpmInput(bank, pcrs) <==> SameValues(bank, pcrs)
  {
    hide AscendingFrom, Listed, Concat;
    var asc := Ascending(AsSet(pcrs));
    AscendingInRange(AsSet(pcrs), 0);
    forall k | 0 <= k < |pcrs|
      ensures |Listed(bank, pcrs)[k]| == 32
    {
      ListedAt(bank, pcrs, k);
    }
    forall k | 0 <= k < |asc|
      ensures |Listed(bank, asc)[k]| == 32
    {
      ListedAt(bank, asc, k);
    }
    if ClientInput(bank, pcrs) == TpmInput(bank, pcrs) {
      ConcatIsOneToOne(Listed(bank, pcrs), Listed(bank, asc), 32);
    }
  }

  /** Twenty-four values that differ in their first byte. */
  function MarkedBank(): (r: seq<bytes>)
    ensures Sha256Bank(r)
  {
    seq(PCR_COUNT, p requires 0 <= p < PCR_COUNT => [p] + seq(31, _ => 0))
  }

  lemma MarkedBankIsDistinct()
    ensures Distinct(MarkedBank())
  {
    forall p, q | 0 <= p < q < PCR_COUNT
      ensures MarkedBank()[p] != MarkedBank()[q]
    {
      assert MarkedBank()[p][0] == p && MarkedBank()[q][0] == q;
    }
  }

  /** The client hashes what the TPM hashes, whatever the PCRs hold, exactly for the strictly ascending lists. */
  lemma OrdersAgreeExactlyWhenAscending(pcrs: seq<u32>)
    requires forall k | 0 <= k < |pcrs| :: pcrs[k] < PCR_COUNT
    ensures (forall bank | Sha256Bank(bank) :: ClientInput(bank, pcrs) == TpmInput(bank, pcrs)) <==>
            StrictlyAscending(pcrs)
  {
    hide ClientInput, TpmInput, SameValues, StrictlyAscending, Distinct;
    if StrictlyAscending(pcrs) {
      forall bank | Sha256Bank(bank)
        ensures ClientInput(bank, pcrs) == TpmInput(bank, pcrs)
      {
        AscendingOrdersAgree(bank, pcrs);
        InputsAgreeExactly(bank, pcrs);
      }
    } else {
      MarkedBankIsDistinct();
      OnlyAscendingOrdersAgree(MarkedBank(), pcrs);
      InputsAgreeExactly(MarkedBank(), pcrs);
    }
  }

  /** SHA-256 gives the same for the client's input and for the TPM's, which differ. */
  predicate OrdersCollide(env: Env, bank: seq<bytes>, pcrs: seq<u32>)
    requires |bank| == PCR_COUNT && forall k | 0 <= k < |pcrs| :: pcrs[k] < PCR_COUNT
  {
    ClientInput(bank, pcrs) != TpmInput(bank, pcrs) &&
    env.sha256(ClientInput(bank, pcrs)) == env.sha256(TpmInput(bank, pcrs))
  }

  lemma DigestsAgreeExactly(env: Env, bank: seq<bytes>, pcrs: seq<u32>)
    requires Sha256Bank(bank) && forall k | 0 <= k < |pcrs| :: pcrs[k] < PCR_COUNT
    ensures GivenDigest(env, bank, pcrs) == TpmDigest(env, bank, pcrs) <==>
            SameValues(bank, pcrs) || OrdersCollide(env, bank, pcrs)
  {
    hide SameValues, Listed, Concat, ValuesOf;
    InputsAgreeExactly(bank, pcrs);
  }

  // ---------------------------------------------------------------- the PolicyPCR command

  lemma PolicyParamsAreRead(digest: bytes, pcrs: seq<u32>)
    requires |digest| == 32
    ensures var sels := SelectionOf(pcrs, ALG_SHA256);
            SelectionsFit(sels) &&
            var d := Sized(digest) + MarshalSelections(sels);
            |d| <= 100 && ReadSized(d, 0) == Ok((digest, 34)) && ReadSelections(d, 34) == Ok((sels, |d|))
  {
    hide Sized, ReadSized, MarshalSelections, ReadSelections, BitmapOf;
    var sels := SelectionOf(pcrs, ALG_SHA256);
    SelectionLength(pcrs, ALG_SHA256);
    var d := Sized(digest) + MarshalSelections(sels);
    assert At(d, 0, d);
    AtConcat(d, 0, Sized(digest), MarshalSelections(sels));
    ReadSizedIsExact(d, 0, digest, 34);
    SelectionIsRead(d, 34, pcrs, ALG_SHA256);
  }

  lemma CurrentIsTpmDigest(env: Env, s: State, pcrs: seq<u32>)
    requires ValidState(s) && pcrs != [] && forall k | 0 <= k < |pcrs| :: pcrs[k] < PCR_COUNT
    ensures var sels := SelectionOf(pcrs, ALG_SHA256);
            SelectionsFit(sels) && OneBank(sels, s) && Sha256 in s.banks && |s.banks[Sha256]| == PCR_COUNT &&
            CurrentDigest(env, s, sels) == TpmDigest(env, s.banks[Sha256], pcrs)
  {
    hide BitmapOf, ValidState, AscendingFrom, Listed, Selected;
    ClientSelection(s, Sha256, pcrs);
    BankIsWhole(s, Sha256);
    SelectsExactly(pcrs, AsSet(pcrs));
  }

  /** The outcome of the PolicyPCR command that the client sends. */
  lemma PolicyPcrOutcome(env: Env, s: State, h: u32, pcrs: seq<u32>, given: bytes)
    requires ValidState(s) && h in s.sessions && |given| == 32
    requires pcrs != [] && forall k | 0 <= k < |pcrs| :: pcrs[k] < PCR_COUNT
    ensures Sha256 in s.banks && |s.banks[Sha256]| == PCR_COUNT && SelectionsFit(SelectionOf(pcrs, ALG_SHA256))
    ensures var sels := SelectionOf(pcrs, ALG_SHA256);
            var f := Frame(CC_POLICY_PCR, [h], NoAuth, Sized(given) + MarshalSelections(sels));
            var t := PolicySession(s.sessions[h].trial, Extended(env, s.sessions[h].digest, sels, given));
            PolicyPcrDone(env, s, f) ==
            if s.sessions[h].trial || given == TpmDigest(env, s.banks[Sha256], pcrs)
            then Done(s.(sessions := s.sessions[h := t]), TPM_ST_NO_SESSIONS, [])
            else Failed(RC_VALUE)
  {
    hide Sized, ReadSized, MarshalSelections, ReadSelections, BitmapOf, OneBank, CurrentDigest, TpmDigest, Extended,
         ValidState;
    PolicyParamsAreRead(given, pcrs);
    CurrentIsTpmDigest(env, s, pcrs);
  }

  /** What `policy_pcr` comes to in a session: a trial session takes the digest, a policy session only the right one. */
  lemma {:induction false} PolicyPcrWithHonest(device: Device, env: Env, s0: State, log: seq<bytes>, h: u32,
                                               pcrs: seq<u32>)
    requires Behaves(device, env, s0) && ValidEnv(env) && ValidState(s0)
    requires h in StateAfter(env, s0, log).sessions
    requires pcrs != [] && forall k | 0 <= k < |pcrs| :: pcrs[k] < PCR_COUNT
    ensures Sha256 in s0.banks && |s0.banks[Sha256]| == PCR_COUNT && SelectionsFit(SelectionOf(pcrs, ALG_SHA256))
    ensures var s := StateAfter(env, s0, log);
            var given := GivenDigest(env, s0.banks[Sha256], pcrs);
            var now := TpmDigest(env, s0.banks[Sha256], pcrs);
            var t := PolicySession(s.sessions[h].trial,
                                   Extended(env, s.sessions[h].digest, SelectionOf(pcrs, ALG_SHA256), given));
            var x := PolicyPcr(device, env.sha256, log, h, pcrs);
            match x.result
            case Ok(_) => (s.sessions[h].trial || given == now) &&
                          StateAfter(env, s0, x.sent) == s.(sessions := s.sessions[h := t])
            case Err(e) => StateAfter(env, s0, x.sent) == s &&
                           ((e == TpmRc(RC_RETRY) && env.fails(x.sent)) ||
                            (e == TpmRc(RC_VALUE) && !s.sessions[h].trial && given != now))
  {
    hide Command, Body, Exchange, StateAfter, Behaves, ValidState, ReadPcrs, Sized, MarshalSelections, BitmapOf,
         PolicyPcrDone, TpmDigest, Extended, Listed;
    var s := StateAfter(env, s0, log);
    ReadPcrsIsTheBank(device, env, s0, log, Sha256, pcrs);
    var read := ReadPcrs(device, log, Sha256, pcrs);
    SelectionLength(pcrs, ALG_SHA256);
    if read.result.Ok? {
      var given := GivenDigest(env, s0.banks[Sha256], pcrs);
      ValuesAreConcat(s0.banks[Sha256], pcrs);
      RunsKeepState(env, s0, log);
      RunsKeepBanksAndKeys(env, s0, log);
      var sels := SelectionOf(pcrs, ALG_SHA256);
      var params := Sized(given) + MarshalSelections(sels);
      NoAuthBody([h], params);
      PolicyPcrOutcome(env, s, h, pcrs, given);
      ExchangeWithHonest(device, env, s0, read.sent, CC_POLICY_PCR, [h], NoAuth, params);
    }
  }

  // ---------------------------------------------------------------- the policy digest

  lemma NoPcrs(device: Device, sha256: bytes -> bytes, sent: seq<bytes>, h: u32)
    ensures PolicyPcr(device, sha256, sent, h, []).sent == sent && PolicyPcr(device, sha256, sent, h, []).result.Ok?
  {
  }

  /** The state `t` is `s` with one more session, `h`. */
  predicate SessionAdded(s: State, t: State, h: u32) {
    h !in s.sessions && h in t.sessions && t == s.(sessions := s.sessions[h := t.sessions[h]])
  }

  /** The run without its last command, which is the flush when a session was started. */
  function BeforeFlush(sent: seq<bytes>): seq<bytes> {
    if sent == [] then [] else sent[..|sent| - 1]
  }

  /** A session is not started because the command failed or the TPM had no free handle; the state stays. */
  predicate NotStarted(env: Env, s0: State, s: State, sent: seq<bytes>) {
    StateAfter(env, s0, sent) == s && (env.fails(sent) || env.newHandle(sent) in s.sessions)
  }

  /** Flushing after whatever was done to the session: it is gone, or it stays where the flush fails. */
  lemma {:induction false} FlushedOrLeft(device: Device, env: Env, s0: State, s: State, inside: seq<bytes>, h: u32)
    requires Behaves(device, env, s0) && h !in s.sessions
    requires var t := StateAfter(env, s0, inside); t == s || SessionAdded(s, t, h)
    ensures var t := StateAfter(env, s0, inside);
            var sent := FlushContext(device, inside, h).sent;
            BeforeFlush(sent) == inside &&
            StateAfter(env, s0, sent) == if env.fails(sent) then t else s
  {
    hide FlushContext, StateAfter, Behaves;
    FlushWithHonest(device, env, s0, inside, h);
    assert StateAfter(env, s0, inside).sessions - {h} == s.sessions;
  }

  lemma Added(s: State, h: u32, p: PolicySession, q: PolicySession)
    requires h !in s.sessions
    ensures var t := s.(sessions := s.sessions[h := p]);
            SessionAdded(s, t, h) && t.sessions[h] == p &&
            t.(sessions := t.sessions[h := q]) == s.(sessions := s.sessions[h := q])
  {
  }

  /**
   `compute_pcr_policy_digest`, however commands fail on the way: once the session is started, a digest is
   answered exactly when the last command before the flush does not fail, and it is the policy digest over
   the values in the caller's order. The TPM is left as it was, or, exactly when the flush fails, with the session.
   */
  lemma {:induction false} ComputePolicyIsThePolicy(device: Device, env: Env, s0: State, log: seq<bytes>,
                                                    nonce: Nonce, pcrs: seq<u32>)
    requires Behaves(device, env, s0) && ValidEnv(env) && ValidState(s0)
    requires forall k | 0 <= k < |pcrs| :: pcrs[k] < PCR_COUNT
    ensures Sha256 in s0.banks && |s0.banks[Sha256]| == PCR_COUNT
    ensures var s := StateAfter(env, s0, log);
            var start := StartAuthSession(device, log, Some(nonce), SE_TRIAL);
            var x := ComputePolicyDigest(device, env.sha256, log, Some(nonce), pcrs);
            var after := StateAfter(env, s0, x.sent);
            match start.result
            case Err(_) => x.result.Err? && NotStarted(env, s0, s, x.sent)
            case Ok(h) =>
              (x.result.Ok? <==> !env.fails(BeforeFlush(x.sent))) &&
              (x.result.Ok? ==> x.result.value == PolicyDigest(env, pcrs, GivenDigest(env, s0.banks[Sha256], pcrs))) &&
              if env.fails(x.sent) then SessionAdded(s, after, h) else after == s
  {
    hide StartAuthSession, PolicyPcr, FlushContext, Exchange, StateAfter, Behaves, ValidState, ValidEnv, GivenDigest,
         TpmDigest, Extended, Parsed, PolicyGetDigestCommand, StartAuthCommand, SelectionOf, BeforeFlush,
         SessionAdded;
    BankIsWhole(s0, Sha256);
    var s := StateAfter(env, s0, log);
    StartWithHonest(device, env, s0, log, nonce, SE_TRIAL);
    var start := StartAuthSession(device, log, Some(nonce), SE_TRIAL);
    if start.result.Ok? {
      var h := start.result.value;
      var given := GivenDigest(env, s0.banks[Sha256], pcrs);
      SelectionLength(pcrs, ALG_SHA256);
      Added(s, h, PolicySession(true, ZeroDigest()), PolicySession(true, PolicyDigest(env, pcrs, given)));
      Added(s, h, PolicySession(true, PolicyDigest(env, pcrs, given)), PolicySession(true, ZeroDigest()));
      if pcrs == [] {
        NoPcrs(device, env.sha256, start.sent, h);
      } else {
        PolicyPcrWithHonest(device, env, s0, start.sent, h, pcrs);
      }
      var p := PolicyPcr(device, env.sha256, start.sent, h, pcrs);
      if p.result.Ok? {
        GetDigestWithHonest(device, env, s0, p.sent, h);
      }
      var inside := PolicyDigestIn(device, env.sha256, start.sent, h, pcrs);
      FlushedOrLeft(device, env, s0, s, inside.sent, h);
    }
  }

  // ---------------------------------------------------------------- decryption

  lemma SchemeIsRead(d: bytes, c: nat, scheme: DecryptScheme)
    requires At(d, c, MarshalDecryptScheme(scheme))
    ensures ReadDecryptScheme(d, c) == Ok((scheme, c + |MarshalDecryptScheme(scheme)|))
  {
    hide BE16, GetBE16;
    match scheme
    case Rsaes => ReadU16IsExact(d, c, ALG_RSAES);
    case Oaep(hashAlg) =>
      AtConcat(d, c, BE16(ALG_OAEP), BE16(hashAlg));
      ReadU16IsExact(d, c, ALG_OAEP);
      ReadU16IsExact(d, c + 2, hashAlg);
  }

  lemma DecryptRequestIsRead(cipherText: bytes, scheme: DecryptScheme)
    requires |cipherText| <= 512
    ensures var d := Sized(cipherText) + (MarshalDecryptScheme(scheme) + Sized([]));
            ReadDecryptRequest(d) == Ok((cipherText, scheme)) && |d| <= 600
  {
    hide Sized, ReadSized, ReadDecryptScheme, BE16;
    var m := MarshalDecryptScheme(scheme);
    var d := Sized(cipherText) + (m + Sized([]));
    assert |m| <= 4;
    hide MarshalDecryptScheme;
    assert At(d, 0, d);
    AtConcat(d, 0, Sized(cipherText), m + Sized([]));
    AtConcat(d, 2 + |cipherText|, m, Sized([]));
    ReadSizedIsExact(d, 0, cipherText, 2 + |cipherText|);
    SchemeIsRead(d, 2 + |cipherText|, scheme);
    ReadSizedIsExact(d, 2 + |cipherText| + |m|, [], |d|);
  }

  /**
   One RSA_Decrypt in a policy session: the plain text if the key accepts the session and the cipher text has the
   size of its modulus; the session then is gone.
   */
  lemma {:induction false} DecryptCommandWithHonest(device: Device, env: Env, s0: State, log: seq<bytes>, key: u32,
                                                    cipherText: bytes, scheme: DecryptScheme, h: u32)
    requires Behaves(device, env, s0) && ValidEnv(env) && |cipherText| <= 512
    ensures var s := StateAfter(env, s0, log);
            var u := Session(h, [], 0);
            var c := RsaDecryptCommand(key, cipherText, scheme, u);
            var x := Transmit(device, log, c);
            x.sent == log + [c] &&
            var r := Parsed(Checked(x.result), ReadSized);
            if env.fails(log + [c]) then r.Err? && StateAfter(env, s0, x.sent) == s
            else if KeyAuthorizes(s, key, u) && |cipherText| == s.keys[key].modulusSize then
              r == Ok(env.decrypt(key, cipherText, scheme)) &&
              StateAfter(env, s0, x.sent) == s.(sessions := s.sessions - {h})
            else r.Err? && StateAfter(env, s0, x.sent) == s
  {
    hide Command, Body, Transmit, Checked, StateAfter, Behaves, Sized, ReadSized, Response, FromBytes, WithAck,
         KeyAuthorizes, ReadDecryptRequest, MarshalDecryptScheme;
    var s := StateAfter(env, s0, log);
    var u := Session(h, [], 0);
    var params := Sized(cipherText) + (MarshalDecryptScheme(scheme) + Sized([]));
    DecryptRequestIsRead(cipherText, scheme);
    OneSessionBody([key], u, params);
    TransmitToHonest(device, env, s0, log, CC_RSA_DECRYPT, [key], Auth([u]), params);
    HonestNv.SizedIsParsed(env.decrypt(key, cipherText, scheme));
    var o := OutcomeOf(env, s, log, CC_RSA_DECRYPT, [key], Auth([u]), params);
    KeyIsThere(s, key, u);
    ReplyIsSeen(o);
  }

  lemma KeyIsThere(s: State, key: u32, u: Session)
    ensures KeyAuthorizes(s, key, u) ==> key in s.keys
  {
  }

  /** A key whose authPolicy is the policy digest of these PCRs with the values they have now. */
  predicate KeyIsBound(env: Env, s: State, key: u32, pcrs: seq<u32>, pcrDigest: bytes) {
    key in s.keys && s.keys[key].authPolicy == PolicyDigest(env, pcrs, pcrDigest)
  }

  lemma BoundIsThere(env: Env, s: State, key: u32, pcrs: seq<u32>, pcrDigest: bytes)
    ensures KeyIsBound(env, s, key, pcrs, pcrDigest) ==> key in s.keys
  {
    hide PolicyDigest;
  }

  lemma BoundKeyAuthorizes(env: Env, s: State, key: u32, h: u32, pcrs: seq<u32>, given: bytes)
    requires h != TPM_RS_PW && h in s.sessions
    requires s.sessions[h] == PolicySession(false, PolicyDigest(env, pcrs, given))
    ensures KeyAuthorizes(s, key, Session(h, [], 0)) <==> KeyIsBound(env, s, key, pcrs, given)
  {
    hide PolicyDigest;
  }

  /**
   The cipher texts of use to a key with a modulus of `n` bytes: of that size, but not of 257 bytes behind a leading
   zero; and for a key of 256 bytes also those of 257 behind a leading zero.
   */
  predicate Usable(cipherText: bytes, n: nat) {
    (|cipherText| == n <= 512 && !(n == 257 && cipherText[0] == 0)) ||
    (n == 256 && |cipherText| == 257 && cipherText[0] == 0)
  }

  /** What the key is then applied to. */
  function AsUsed(cipherText: bytes, n: nat): bytes
    requires Usable(cipherText, n)
  {
    if |cipherText| == n then cipherText else cipherText[1..]
  }

  lemma TooLongIsUseless(cipherText: bytes)
    ensures |cipherText| > 512 ==> forall n: nat :: !Usable(cipherText, n)
  {
  }

  lemma TrimmedIsAsUsed(cipherText: bytes, n: nat)
    ensures |Trimmed(cipherText)| > 512 <==> |cipherText| > 512
    ensures |Trimmed(cipherText)| == n <= 512 <==> Usable(cipherText, n)
    ensures Usable(cipherText, n) ==> Trimmed(cipherText) == AsUsed(cipherText, n)
  {
  }

  /**
   `rsa_decrypt` with PCRs, however commands fail on the way: once the session is started, the plain text is
   answered exactly when the last command before the flush does not fail, the two orders of the values agree (or
   SHA-256 collides on them), the key is bound to their digest and the cipher text is of use to it. The TPM is left
   as it was, or, exactly when the flush fails and RSA_Decrypt has not used the session up, with the session. A
   cipher text of more than 512 bytes is refused before anything is sent.
   */
  lemma {:induction false} DecryptWithHonest(device: Device, env: Env, s0: State, log: seq<bytes>, nonce: Nonce,
                                             key: u32, pcrs: seq<u32>, cipherText: bytes, scheme: DecryptScheme)
    requires Behaves(device, env, s0) && ValidEnv(env) && ValidState(s0)
    requires pcrs != [] && forall k | 0 <= k < |pcrs| :: pcrs[k] < PCR_COUNT
    ensures Sha256 in s0.banks && |s0.banks[Sha256]| == PCR_COUNT
    ensures var s := StateAfter(env, s0, log);
            var given := GivenDigest(env, s0.banks[Sha256], pcrs);
            var start := StartAuthSession(device, log, Some(nonce), SE_POLICY);
            var x := RsaDecrypt(device, env.sha256, log, Some(nonce), key, pcrs, cipherText, scheme);
            var after := StateAfter(env, s0, x.sent);
            if |cipherText| > 512 then x == Run(Err(InvalidInput), log) else
            match start.result
            case Err(_) => x.result.Err? && NotStarted(env, s0, s, x.sent)
            case Ok(h) =>
              (x.result.Ok? <==>
                 !env.fails(BeforeFlush(x.sent)) &&
                 (SameValues(s0.banks[Sha256], pcrs) || OrdersCollide(env, s0.banks[Sha256], pcrs)) &&
                 KeyIsBound(env, s, key, pcrs, given) && Usable(cipherText, s.keys[key].modulusSize)) &&
              (x.result.Ok? ==>
                 x.result.value == env.decrypt(key, AsUsed(cipherText, s.keys[key].modulusSize), scheme)) &&
              if env.fails(x.sent) && x.result.Err? then SessionAdded(s, after, h) else after == s
  {
    hide StartAuthSession, PolicyPcr, FlushContext, Transmit, StateAfter, Behaves, ValidState, ValidEnv, GivenDigest,
         TpmDigest, Extended, Parsed, Checked, Trimmed, StartAuthCommand, RsaDecryptCommand, SelectionOf,
         KeyAuthorizes, KeyIsBound, BeforeFlush, SessionAdded, NotStarted, SameValues, OrdersCollide,
         Usable, AsUsed;
    BankIsWhole(s0, Sha256);
    var s := StateAfter(env, s0, log);
    var given := GivenDigest(env, s0.banks[Sha256], pcrs);
    DigestsAgreeExactly(env, s0.banks[Sha256], pcrs);
    var ct := Trimmed(cipherText);
    StartWithHonest(device, env, s0, log, nonce, SE_POLICY);
    var start := StartAuthSession(device, log, Some(nonce), SE_POLICY);
    ErrorStays(start.result);
    TrimmedIsAsUsed(cipherText, |ct|);
    if |cipherText| > 512 {
      return;
    }
    if start.result.Ok? {
      var h := start.result.value;
      SessionIsNoPassword(env, start.sent);
      SelectionLength(pcrs, ALG_SHA256);
      Added(s, h, PolicySession(false, ZeroDigest()), PolicySession(false, PolicyDigest(env, pcrs, given)));
      Added(s, h, PolicySession(false, PolicyDigest(env, pcrs, given)), PolicySession(false, ZeroDigest()));
      PolicyPcrWithHonest(device, env, s0, start.sent, h, pcrs);
      var p := PolicyPcr(device, env.sha256, start.sent, h, pcrs);
      ErrorStays(p.result);
      var inside := DecryptIn(device, env.sha256, start.sent, h, key, pcrs, ct, scheme);
      if p.result.Ok? {
        var t := StateAfter(env, s0, p.sent);
        DecryptCommandWithHonest(device, env, s0, p.sent, key, ct, scheme, h);
        BoundKeyAuthorizes(env, t, key, h, pcrs, given);
        RunsKeepBanksAndKeys(env, s0, log);
        RunsKeepBanksAndKeys(env, s0, p.sent);
        SameKeys(env, s, t, key, pcrs, given);
        BoundIsThere(env, s, key, pcrs, given);
        if key in s.keys {
          TrimmedIsAsUsed(cipherText, s.keys[key].modulusSize);
        }
        assert t.sessions - {h} == s.sessions;
      }
      FlushedOrLeft(device, env, s0, s, inside.sent, h);
    } else {
      NotStartedIs(env, s0, s, start.sent);
    }
  }

  lemma {:induction false} NotStartedIs(env: Env, s0: State, s: State, sent: seq<bytes>)
    requires StateAfter(env, s0, sent) == s && (env.fails(sent) || env.newHandle(sent) in s.sessions)
    ensures NotStarted(env, s0, s, sent)
  {
    hide StateAfter;
  }

  lemma SessionIsNoPassword(env: Env, log: seq<bytes>)
    requires ValidEnv(env)
    ensures env.newHandle(log) != TPM_RS_PW
  {
  }

  lemma ErrorStays<T>(r: Result<T, Error>)
    ensures r.Err? ==> Parsed(Checked(Err(r.error)), ReadSized) == Err(r.error)
  {
  }

  lemma SameKeys(env: Env, s: State, t: State, key: u32, pcrs: seq<u32>, given: bytes)
    requires s.keys == t.keys
    ensures KeyIsBound(env, s, key, pcrs, given) <==> KeyIsBound(env, t, key, pcrs, given)
  {
    hide PolicyDigest;
  }

  /**
   The same in terms of the list the caller gives. For a strictly ascending list decryption works exactly for a
   key bound to the digest of these PCRs. For any other list, on a bank whose values differ, it works for no key
   at all, unless SHA-256 collides on the two orders of the values.
   */
  lemma {:induction false} DecryptExactlyWhenAscending(device: Device, env: Env, s0: State, log: seq<bytes>,
                                                       nonce: Nonce, key: u32, pcrs: seq<u32>, cipherText: bytes,
                                                       scheme: DecryptScheme)
    requires Behaves(device, env, s0) && ValidEnv(env) && ValidState(s0)
    requires pcrs != [] && forall k | 0 <= k < |pcrs| :: pcrs[k] < PCR_COUNT
    requires StartAuthSession(device, log, Some(nonce), SE_POLICY).result.Ok?
    ensures Sha256 in s0.banks && |s0.banks[Sha256]| == PCR_COUNT
    ensures var s, bank := StateAfter(env, s0, log), s0.banks[Sha256];
            var x := RsaDecrypt(device, env.sha256, log, Some(nonce), key, pcrs, cipherText, scheme);
            (StrictlyAscending(pcrs) ==>
               (x.result.Ok? <==>
                  !env.fails(BeforeFlush(x.sent)) && KeyIsBound(env, s, key, pcrs, GivenDigest(env, bank, pcrs)) &&
                  Usable(cipherText, s.keys[key].modulusSize))) &&
            (x.result.Ok? ==>
               key in s.keys && Usable(cipherText, s.keys[key].modulusSize) &&
               x.result.value == env.decrypt(key, AsUsed(cipherText, s.keys[key].modulusSize), scheme)) &&
            (!StrictlyAscending(pcrs) && Distinct(bank) && !OrdersCollide(env, bank, pcrs) ==> x.result.Err?)
  {
    hide StartAuthSession, RsaDecrypt, StateAfter, Behaves, ValidState, ValidEnv, GivenDigest, TpmDigest, Usable,
         AsUsed, BeforeFlush, SessionAdded, NotStarted, StrictlyAscending, Distinct, OrdersCollide, SameValues;
    BankIsWhole(s0, Sha256);
    var bank := s0.banks[Sha256];
    DecryptWithHonest(device, env, s0, log, nonce, key, pcrs, cipherText, scheme);
    BoundIsThere(env, StateAfter(env, s0, log), key, pcrs, GivenDigest(env, bank, pcrs));
    TooLongIsUseless(cipherText);
    if StrictlyAscending(pcrs) {
      AscendingOrdersAgree(bank, pcrs);
    } else if Distinct(bank) {
      OnlyAscendingOrdersAgree(bank, pcrs);
    }
  }

  /**
   The trial policy is the real policy exactly for strictly ascending lists: there `rsa_decrypt` works with just
   the keys that are bound to the digest that `compute_pcr_policy_digest` answered for the same PCRs. For any other
   list, on a bank whose values differ, no key is any use, also not one bound to that digest.
   */
  lemma TrialPolicyIsTheRealPolicy(device: Device, env: Env, s0: State, log: seq<bytes>, n1: Nonce, n2: Nonce,
                                   key: u32, pcrs: seq<u32>, cipherText: bytes, scheme: DecryptScheme)
    requires Behaves(device, env, s0) && ValidEnv(env) && ValidState(s0)
    requires pcrs != [] && forall k | 0 <= k < |pcrs| :: pcrs[k] < PCR_COUNT
    requires ComputePolicyDigest(device, env.sha256, log, Some(n1), pcrs).result.Ok?
    requires var sent := ComputePolicyDigest(device, env.sha256, log, Some(n1), pcrs).sent;
             StartAuthSession(device, sent, Some(n2), SE_POLICY).result.Ok?
    ensures Sha256 in s0.banks && |s0.banks[Sha256]| == PCR_COUNT
    ensures var trial := ComputePolicyDigest(device, env.sha256, log, Some(n1), pcrs);
            var x := RsaDecrypt(device, env.sha256, trial.sent, Some(n2), key, pcrs, cipherText, scheme);
            (StrictlyAscending(pcrs) ==>
               (x.result.Ok? <==> !env.fails(BeforeFlush(x.sent)) &&
                                  key in s0.keys && s0.keys[key].authPolicy == trial.result.value &&
                                  Usable(cipherText, s0.keys[key].modulusSize))) &&
            (x.result.Ok? ==>
               key in s0.keys && Usable(cipherText, s0.keys[key].modulusSize) &&
               x.result.value == env.decrypt(key, AsUsed(cipherText, s0.keys[key].modulusSize), scheme)) &&
            (!StrictlyAscending(pcrs) && Distinct(s0.banks[Sha256]) && !OrdersCollide(env, s0.banks[Sha256], pcrs) ==>
               x.result.Err?)
  {
    hide ComputePolicyDigest, StartAuthSession, RsaDecrypt, StateAfter, Behaves, ValidState, ValidEnv, GivenDigest,
         PolicyDigest, Usable, AsUsed, BeforeFlush, SessionAdded, NotStarted, StrictlyAscending, Distinct,
         OrdersCollide;
    ComputePolicyIsThePolicy(device, env, s0, log, n1, pcrs);
    var trial := ComputePolicyDigest(device, env.sha256, log, Some(n1), pcrs);
    DecryptExactlyWhenAscending(device, env, s0, trial.sent, n2, key, pcrs, cipherText, scheme);
    RunsKeepBanksAndKeys(env, s0, trial.sent);
  }

  // ---------------------------------------------------------------- without PCRs

  /**
   Without PCRs `rsa_decrypt` sends one command, under an empty password, and starts no session: unless that command
   fails for a passing reason it works exactly for a key that asks for no more and has a use for the cipher text. The
   TPM stays as it was.
   */
  lemma {:induction false} DecryptWithoutPcrs(device: Device, env: Env, s0: State, log: seq<bytes>,
                                              nonce: Option<Nonce>, key: u32, cipherText: bytes,
                                              scheme: DecryptScheme)
    requires Behaves(device, env, s0) && ValidEnv(env) && ValidState(s0)
    ensures var s := StateAfter(env, s0, log);
            var x := RsaDecrypt(device, env.sha256, log, nonce, key, [], cipherText, scheme);
            if |cipherText| > 512 then x == Run(Err(InvalidInput), log) else
            |x.sent| == |log| + 1 &&
            (x.result.Ok? <==> !env.fails(x.sent) && key in s.keys && s.keys[key].passwordSuffices &&
                               Usable(cipherText, s.keys[key].modulusSize)) &&
            (x.result.Ok? ==>
               x.result.value == env.decrypt(key, AsUsed(cipherText, s.keys[key].modulusSize), scheme)) &&
            StateAfter(env, s0, x.sent) == s
  {
    hide Transmit, StateAfter, Behaves, Parsed, Checked, Trimmed, RsaDecryptCommand, ValidState, ValidEnv, Usable,
         AsUsed;
    var s := StateAfter(env, s0, log);
    var ct := Trimmed(cipherText);
    TrimmedIsAsUsed(cipherText, |ct|);
    if |cipherText| <= 512 {
      RunsKeepState(env, s0, log);
      SessionSizes(s);
      DecryptCommandWithHonest(device, env, s0, log, key, ct, scheme, TPM_RS_PW);
      assert s.sessions - {TPM_RS_PW} == s.sessions;
      if key in s.keys {
        TrimmedIsAsUsed(cipherText, s.keys[key].modulusSize);
      }
    }
  }

  // ---------------------------------------------------------------- the ciphertext

  lemma {:induction false} LeadingZero(x: bytes)
    ensures BigEndian([0] + x) == BigEndian(x)
    decreases |x|
  {
    if x == [] {
      assert ([0] + x)[..0] == [];
    } else {
      var n := |x| - 1;
      assert ([0] + x)[..n + 1] == [0] + x[..n];
      LeadingZero(x[..n]);
    }
  }

  /** Trimming keeps the number, and leaves no leading zero in front of 256 bytes. */
  lemma {:induction false} TrimKeepsTheNumber(cipherText: bytes)
    ensures BigEndian(Trimmed(cipherText)) == BigEndian(cipherText)
    ensures |Trimmed(cipherText)| == 257 ==> Trimmed(cipherText)[0] != 0
  {
    if |cipherText| == 257 && cipherText[0] == 0 {
      LeadingZero(cipherText[1..]);
      assert cipherText == [0] + cipherText[1..];
    }
  }
}
