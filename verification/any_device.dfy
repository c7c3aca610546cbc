/**
 What holds of the client on any device whatever: how many commands it sends and
 which, what shape its results have, which errors cannot come up, and that a
 session once started is flushed once, last.
 */
module AnyDevice {
  import opened Bytes
  import opened Errors
  import opened Algorithms
  import opened Wire
  import opened PcrBitmap
  import opened Framing
  import opened Commands

  // ---------------------------------------------------------------- traces

  function CodeOf(command: bytes): nat {
    if |command| >= HEADER_LEN then GetBE32(command, 6) else 0
  }

  /** `after` continues `before` by commands with these codes only. */
  ghost predicate Continues(before: seq<bytes>, after: seq<bytes>, codes: set<nat>) {
    before <= after && forall i | |before| <= i < |after| :: CodeOf(after[i]) in codes
  }

  lemma ContinuesOn(a: seq<bytes>, b: seq<bytes>, c: seq<bytes>, s: set<nat>, t: set<nat>)
    requires Continues(a, b, s) && Continues(b, c, t)
    ensures Continues(a, c, s + t)
  {
    assert forall i | 0 <= i < |b| :: c[i] == b[i];
  }

  /** A built command of moderate size is sent, once. */
  lemma ExchangeSends(device: Device, sent: seq<bytes>, code: u32, handles: seq<u32>, a: AuthArea, params: bytes)
    requires |Body(handles, a, params)| <= 0x8000
    ensures var c := Command(code, handles, a, params);
            Transmit(device, sent, c).sent == sent + [c] && Exchange(device, sent, c).sent == sent + [c] &&
            CodeOf(c) == code && Continues(sent, sent + [c], {code as nat}) &&
            Transmit(device, sent, c).result != Err(CommandRefused) &&
            Exchange(device, sent, c).result != Err(CommandRefused)
  {
    hide Command, Body, GetBE32;
    BuiltCommandsAreAccepted(code, handles, a, params);
    HeaderOf(code, handles, a, params);
  }

  /** The errors that no answer of the device explains. */
  predicate Internal(e: Error) {
    e == CommandRefused || e == OffsetOverflow || e.PcrMissing? || e == InvalidInput
  }

  // ---------------------------------------------------------------- sizes of the commands

  lemma SelectionLength(pcrs: seq<u32>, alg: u16)
    ensures SelectionsFit(SelectionOf(pcrs, alg)) && |MarshalSelections(SelectionOf(pcrs, alg))| <= 10
  {
    hide BitmapOf, BE16, BE32;
    if pcrs != [] {
      var sels := SelectionOf(pcrs, alg);
      assert sels[1..] == [];
      assert MarshalEach(sels[1..]) == [];
    }
  }

  lemma NoAuthBody(handles: seq<u32>, params: bytes)
    ensures |Body(handles, NoAuth, params)| == 4 * |handles| + |params|
  {
  }

  lemma OneSessionBody(handles: seq<u32>, s: Session, params: bytes)
    ensures |Body(handles, Auth([s]), params)| == 4 * |handles| + 13 + |s.auth| + |params|
  {
    hide EncodeSessions, EncodeSession, BE32;
    OneSessionFits(s);
  }

  // ---------------------------------------------------------------- PCR_Read

  lemma PcrRoundSends(device: Device, sent: seq<bytes>, s: Progress, alg: PcrAlgorithm)
    ensures var c := PcrReadCommand(alg, Ascending(s.remaining));
            PcrRound(device, sent, s, alg).sent == sent + [c] && Continues(sent, sent + [c], {CC_PCR_READ as nat}) &&
            Exchange(device, sent, c).result != Err(CommandRefused)
  {
    hide Command, Body, Exchange, PcrsReturned, Absorb, MarshalSelections;
    var sels := SelectionOf(Ascending(s.remaining), alg.AlgId());
    SelectionLength(Ascending(s.remaining), alg.AlgId());
    NoAuthBody([], MarshalSelections(sels));
    ExchangeSends(device, sent, CC_PCR_READ, [], NoAuth, MarshalSelections(sels));
  }

  /** Every digest collected so far has the algorithm's length. */
  ghost predicate Lengths(collected: map<nat, bytes>, alg: PcrAlgorithm) {
    forall p | p in collected :: |collected[p]| == alg.DigestLen()
  }

  lemma {:induction false} AbsorbMoves(s: Progress, indices: seq<nat>, digests: seq<bytes>, alg: PcrAlgorithm)
    requires |indices| == |digests|
    ensures var r := Absorb(s, indices, digests, alg);
            match r
            case Err(e) => e == InvalidData
            case Ok(t) => t.remaining + t.collected.Keys == s.remaining + s.collected.Keys &&
                          t.remaining <= s.remaining &&
                          (Lengths(s.collected, alg) ==> Lengths(t.collected, alg))
    decreases |indices|
  {
    if indices != [] {
      if indices[0] !in s.remaining {
        AbsorbMoves(s, indices[1..], digests[1..], alg);
      } else if |digests[0]| == alg.DigestLen() {
        var t := Progress(s.remaining - {indices[0]}, s.collected[indices[0] := digests[0]]);
        assert t.remaining + t.collected.Keys == s.remaining + s.collected.Keys;
        AbsorbMoves(t, indices[1..], digests[1..], alg);
      }
    }
  }

  /** The first place where an index was returned. */
  ghost predicate IsFirstAt(indices: seq<nat>, p: nat, k: nat) {
    k < |indices| && indices[k] == p && forall j | 0 <= j < k :: indices[j] != p
  }

  /** A returned digest that is wanted and comes first for its index has the wrong length. */
  ghost predicate IsBadAt(s: Progress, indices: seq<nat>, digests: seq<bytes>, alg: PcrAlgorithm, k: nat)
    requires |indices| == |digests|
  {
    k < |indices| && indices[k] in s.remaining && IsFirstAt(indices, indices[k], k) &&
    |digests[k]| != Registered(alg).1
  }

  /**
   What is taken in from one response, whatever the device returned: of each wanted index the first digest, and
   nothing for an index that is not wanted or not any more. It is an error exactly when such a digest has the
   wrong length.
   */
  lemma {:induction false} AbsorbIsExact(s: Progress, indices: seq<nat>, digests: seq<bytes>, alg: PcrAlgorithm)
    requires |indices| == |digests|
    ensures var r := Absorb(s, indices, digests, alg);
            (r.Err? <==> exists k: nat :: IsBadAt(s, indices, digests, alg, k)) &&
            (r.Ok? ==>
               (forall p: nat :: p in r.value.remaining <==> p in s.remaining && p !in indices) &&
               (forall p: nat, k: nat | p in s.remaining && IsFirstAt(indices, p, k) ::
                  p in r.value.collected && r.value.collected[p] == digests[k]) &&
               (forall p: nat | p !in s.remaining || p !in indices ::
                  (p in r.value.collected <==> p in s.collected) &&
                  (p in s.collected ==> r.value.collected[p] == s.collected[p])))
    decreases |indices|
  {
    AreRegistered(alg);
    if indices != [] {
      var i := indices[0];
      FirstsShift(indices);
      var t := if i in s.remaining then Progress(s.remaining - {i}, s.collected[i := digests[0]]) else s;
      AbsorbIsExact(t, indices[1..], digests[1..], alg);
      BadsShift(s, t, indices, digests, alg);
    }
  }

  lemma FirstsShift(indices: seq<nat>)
    requires indices != []
    ensures forall p: nat, k: nat :: IsFirstAt(indices, p, k) <==>
              if k == 0 then indices[0] == p else indices[0] != p && IsFirstAt(indices[1..], p, k - 1)
  {
    forall p: nat, k: nat | k > 0
      ensures IsFirstAt(indices, p, k) <==> indices[0] != p && IsFirstAt(indices[1..], p, k - 1)
    {
      if k < |indices| {
        assert indices[1..][k - 1] == indices[k];
        assert forall j | 0 < j < k :: indices[j] == indices[1..][j - 1];
        assert forall j | 0 <= j < k - 1 :: indices[1..][j] == indices[j + 1];
      }
    }
  }

  lemma BadsShift(s: Progress, t: Progress, indices: seq<nat>, digests: seq<bytes>, alg: PcrAlgorithm)
    requires |indices| == |digests| > 0
    requires t.remaining == s.remaining - {indices[0]}
    ensures (exists k: nat :: IsBadAt(s, indices, digests, alg, k)) <==>
            (indices[0] in s.remaining && |digests[0]| != Registered(alg).1) ||
            exists k: nat :: IsBadAt(t, indices[1..], digests[1..], alg, k)
  {
    FirstsShift(indices);
    if k: nat :| IsBadAt(s, indices, digests, alg, k) {
      if k > 0 {
        assert indices[1..][k - 1] == indices[k] && digests[1..][k - 1] == digests[k];
        assert IsBadAt(t, indices[1..], digests[1..], alg, k - 1);
      }
    }
    if k: nat :| IsBadAt(t, indices[1..], digests[1..], alg, k) {
      assert indices[1..][k] == indices[k + 1] && digests[1..][k] == digests[k + 1];
      assert IsBadAt(s, indices, digests, alg, k + 1);
    }
    if indices[0] in s.remaining && |digests[0]| != Registered(alg).1 {
      assert IsBadAt(s, indices, digests, alg, 0);
    }
  }

  lemma PcrRoundMoves(device: Device, sent: seq<bytes>, s: Progress, alg: PcrAlgorithm)
    ensures match PcrRound(device, sent, s, alg).result
            case Err(e) => !Internal(e)
            case Ok(t) => t.remaining < s.remaining && |t.remaining| < |s.remaining| &&
                          t.remaining + t.collected.Keys == s.remaining + s.collected.Keys &&
                          (Lengths(s.collected, alg) ==> Lengths(t.collected, alg))
  {
    hide Exchange, PcrsReturned, PcrReadCommand, Absorb, Lengths;
    PcrRoundSends(device, sent, s, alg);
    var x := Exchange(device, sent, PcrReadCommand(alg, Ascending(s.remaining)));
    ReturnedErrors(x.result);
    ExchangeErrors(device, sent, PcrReadCommand(alg, Ascending(s.remaining)));
    match PcrsReturned(x.result)
    case Err(_) =>
    case Ok((indices, digests)) =>
      AbsorbMoves(s, indices, digests, alg);
      var r := PcrRound(device, sent, s, alg).result;
      if r.Ok? {
        SmallerSet(r.value.remaining, s.remaining);
      }
  }

  lemma SmallerSet(a: set<nat>, b: set<nat>)
    requires a < b
    ensures |a| < |b|
  {
    var x :| x in b && x !in a;
    assert a <= b - {x};
    SubsetSize(a, b - {x});
  }

  lemma {:induction false} SubsetSize(a: set<nat>, b: set<nat>)
    requires a <= b
    ensures |a| <= |b|
    decreases |a|
  {
    if a != {} {
      var x :| x in a;
      SubsetSize(a - {x}, b - {x});
    }
  }

  lemma ExchangeErrors(device: Device, sent: seq<bytes>, command: bytes)
    ensures var r := Exchange(device, sent, command).result;
            r.Err? && Internal(r.error) ==> r.error == CommandRefused
  {
    hide GetBE32, TransmitAccepts;
  }

  /** Reading a response adds no error of the client's own. */
  lemma ReturnedErrors(r: Result<bytes, Error>)
    ensures match PcrsReturned(r)
            case Err(e) => Internal(e) ==> r == Err(e)
            case Ok(_) => true
  {
    hide AllIndices, GetBE32, GetBE16, ReadSelections, ReadDigestList;
    if r.Ok? && ParseHeader(r.value).Ok? {
      ReadPcrParamsErrors(r.value, HEADER_LEN);
      ReadPcrParamsErrors(r.value, HEADER_LEN + 4);
    }
  }

  lemma {:induction false} ReadEachErrors(d: bytes, c: nat, n: nat)
    ensures ReadEach(d, c, n).Err? ==> ReadEach(d, c, n).error in {UnexpectedEof, InvalidData}
    decreases n
  {
    hide GetBE16;
    if n > 0 && ReadSelection(d, c).Ok? {
      ReadEachErrors(d, ReadSelection(d, c).value.1, n - 1);
    }
  }

  lemma {:induction false} ReadDigestsErrors(d: bytes, c: nat, n: nat)
    ensures ReadDigests(d, c, n).Err? ==> ReadDigests(d, c, n).error in {UnexpectedEof, InvalidData}
    decreases n
  {
    hide GetBE16;
    if n > 0 && ReadSized(d, c).Ok? {
      ReadDigestsErrors(d, ReadSized(d, c).value.1, n - 1);
    }
  }

  lemma ReadPcrParamsErrors(d: bytes, c: nat)
    ensures ReadPcrParams(d, c).Err? ==> ReadPcrParams(d, c).error in {UnexpectedEof, InvalidData}
  {
    hide GetBE32, ReadEach, ReadDigests;
    if c + 8 <= |d| {
      ReadEachErrors(d, c + 8, GetBE32(d, c + 4));
      if ReadSelections(d, c + 4).Ok? {
        var c2 := ReadSelections(d, c + 4).value.1;
        if c2 + 4 <= |d| {
          ReadDigestsErrors(d, c2 + 4, GetBE32(d, c2));
        }
      }
    }
  }

  /**
   The rounds: at most one command a wanted index, PCR_Read only, and when they end well every wanted digest is
   there.
   */
  lemma {:induction false} PcrRoundsEnd(device: Device, sent: seq<bytes>, s: Progress, alg: PcrAlgorithm)
    requires Lengths(s.collected, alg)
    ensures var x := PcrRounds(device, sent, s, alg);
            Continues(sent, x.sent, {CC_PCR_READ as nat}) && |x.sent| <= |sent| + |s.remaining| &&
            match x.result
            case Err(e) => !Internal(e)
            case Ok(collected) => collected.Keys == s.remaining + s.collected.Keys && Lengths(collected, alg)
    decreases s.remaining
  {
    hide PcrRound, PcrReadCommand, Lengths, CodeOf;
    if s.remaining != {} {
      PcrRoundSends(device, sent, s, alg);
      PcrRoundMoves(device, sent, s, alg);
      var x := PcrRound(device, sent, s, alg);
      if x.result.Ok? {
        PcrRoundsEnd(device, x.sent, x.result.value, alg);
        var after := PcrRounds(device, x.sent, x.result.value, alg).sent;
        ContinuesOn(sent, x.sent, after, {CC_PCR_READ as nat}, {CC_PCR_READ as nat});
      }
    }
  }

  lemma {:induction false} InOrderEnds(pcrs: seq<u32>, collected: map<nat, bytes>)
    requires forall p | p in pcrs :: p in collected
    ensures var r := InOrder(pcrs, collected);
            r.Ok? && |r.value| == |pcrs| &&
            forall i | 0 <= i < |pcrs| :: r.value[i] == (pcrs[i], collected[pcrs[i]])
    decreases |pcrs|
  {
    if pcrs != [] {
      InOrderEnds(pcrs[1..], collected);
    }
  }

  predicate OutOfRange(pcrs: seq<u32>) {
    exists p :: p in pcrs && p > 23
  }

  /**
   `read_pcrs_for_alg` on any device: it sends PCR_Read commands only, at most one for each different
   index, and of the errors that are not the device's only the refusal of an index over 23 comes up,
   before anything is sent; the final "missing" branch never. A result has the caller's indices in the
   caller's order, one digest for each different index, of the algorithm's length.
   */
  lemma ReadPcrsOnAnyDevice(device: Device, sent: seq<bytes>, alg: PcrAlgorithm, pcrs: seq<u32>)
    ensures var x := ReadPcrs(device, sent, alg, pcrs);
            Continues(sent, x.sent, {CC_PCR_READ as nat}) && |x.sent| <= |sent| + |AsSet(pcrs)| &&
            (OutOfRange(pcrs) <==> x.result == Err(InvalidInput)) && (OutOfRange(pcrs) ==> x.sent == sent) &&
            match x.result
            case Err(e) => Internal(e) ==> e == InvalidInput
            case Ok(out) =>
              |out| == |pcrs| &&
              (forall i | 0 <= i < |out| :: out[i].0 == pcrs[i] && |out[i].1| == alg.DigestLen()) &&
              (forall i, j | 0 <= i < j < |out| && pcrs[i] == pcrs[j] :: out[i].1 == out[j].1)
  {
    hide PcrRounds, InOrder, CodeOf;
    var s := Progress(AsSet(pcrs), map[]);
    PcrRoundsEnd(device, sent, s, alg);
    var x := PcrRounds(device, sent, s, alg);
    if x.result.Ok? {
      assert forall p | p in pcrs :: p in AsSet(pcrs);
      InOrderEnds(pcrs, x.result.value);
      forall i | 0 <= i < |pcrs|
        ensures pcrs[i] in x.result.value && |x.result.value[pcrs[i]]| == alg.DigestLen()
      {
        assert pcrs[i] in AsSet(pcrs);
      }
    }
  }

  // ---------------------------------------------------------------- session cleanup

  lemma FlushSends(device: Device, sent: seq<bytes>, handle: u32)
    ensures FlushContext(device, sent, handle).sent == sent + [FlushCommand(handle)]
    ensures CodeOf(FlushCommand(handle)) == CC_FLUSH_CONTEXT
  {
    hide Command, Body, Exchange, CodeOf;
    NoAuthBody([handle], []);
    ExchangeSends(device, sent, CC_FLUSH_CONTEXT, [handle], NoAuth, []);
  }

  lemma StartSends(device: Device, sent: seq<bytes>, nonce: Option<Nonce>, kind: byte)
    ensures var x := StartAuthSession(device, sent, nonce, kind);
            match nonce
            case None => x.result.Err? && x.sent == sent
            case Some(n) => x.sent == sent + [StartAuthCommand(n, kind, ALG_SHA256)]
  {
    hide Command, Body, Exchange, CodeOf, SessionHandle, Sized, BE16;
    if nonce.Some? {
      var params := Sized(nonce.value) +
                    (Sized([]) + ([kind] + (MarshalSym(SymDefObject(ALG_NULL, 0, 0)) + BE16(ALG_SHA256))));
      assert |params| <= 100;
      NoAuthBody([RH_NULL, RH_NULL], params);
      ExchangeSends(device, sent, CC_START_AUTH_SESSION, [RH_NULL, RH_NULL], NoAuth, params);
    }
  }

  const POLICY_CODES: set<nat> := {CC_PCR_READ as nat, CC_POLICY_PCR as nat}

  lemma PolicyPcrSends(device: Device, sha256: bytes -> bytes, sent: seq<bytes>, session: u32, pcrs: seq<u32>)
    requires forall x :: |sha256(x)| == 32
    ensures Continues(sent, PolicyPcr(device, sha256, sent, session, pcrs).sent, POLICY_CODES)
  {
    hide Command, Body, Exchange, CodeOf, ReadPcrs, MarshalSelections, Values, BE16;
    ReadPcrsOnAnyDevice(device, sent, Sha256, pcrs);
    var read := ReadPcrs(device, sent, Sha256, pcrs);
    if pcrs != [] && read.result.Ok? {
      var params := Sized(sha256(Values(read.result.value))) + MarshalSelections(SelectionOf(pcrs, ALG_SHA256));
      SelectionLength(pcrs, ALG_SHA256);
      NoAuthBody([session], params);
      ExchangeSends(device, read.sent, CC_POLICY_PCR, [session], NoAuth, params);
      var after := PolicyPcr(device, sha256, sent, session, pcrs).sent;
      ContinuesOn(sent, read.sent, after, {CC_PCR_READ as nat}, {CC_POLICY_PCR as nat});
    }
  }

  lemma PolicyDigestSends(device: Device, sha256: bytes -> bytes, sent: seq<bytes>, session: u32, pcrs: seq<u32>)
    requires forall x :: |sha256(x)| == 32
    ensures Continues(sent, PolicyDigestIn(device, sha256, sent, session, pcrs).sent,
                      POLICY_CODES + {CC_POLICY_GET_DIGEST as nat})
  {
    hide Command, Body, Exchange, CodeOf, PolicyPcr, LongEnough;
    PolicyPcrSends(device, sha256, sent, session, pcrs);
    var p := PolicyPcr(device, sha256, sent, session, pcrs);
    NoAuthBody([session], []);
    ExchangeSends(device, p.sent, CC_POLICY_GET_DIGEST, [session], NoAuth, []);
    if p.result.Ok? {
      var after := PolicyDigestIn(device, sha256, sent, session, pcrs).sent;
      ContinuesOn(sent, p.sent, after, POLICY_CODES, {CC_POLICY_GET_DIGEST as nat});
    }
  }

  lemma DecryptSends(device: Device, sha256: bytes -> bytes, sent: seq<bytes>, session: u32, key: u32, pcrs: seq<u32>,
                     cipherText: bytes, scheme: DecryptScheme)
    requires forall x :: |sha256(x)| == 32
    requires |cipherText| <= 512
    ensures Continues(sent, DecryptIn(device, sha256, sent, session, key, pcrs, cipherText, scheme).sent,
                      POLICY_CODES + {CC_RSA_DECRYPT as nat})
  {
    hide Command, Body, Exchange, Transmit, CodeOf, PolicyPcr, BE16;
    PolicyPcrSends(device, sha256, sent, session, pcrs);
    var p := PolicyPcr(device, sha256, sent, session, pcrs);
    var params := Sized(cipherText) + (MarshalDecryptScheme(scheme) + Sized([]));
    var s := Session(session, [], 0);
    OneSessionBody([key], s, params);
    ExchangeSends(device, p.sent, CC_RSA_DECRYPT, [key], Auth([s]), params);
    if p.result.Ok? {
      var after := DecryptIn(device, sha256, sent, session, key, pcrs, cipherText, scheme).sent;
      ContinuesOn(sent, p.sent, after, POLICY_CODES, {CC_RSA_DECRYPT as nat});
    }
  }

  /** Between the start and the last command no command flushes, and the last flushes this session. */
  ghost predicate FlushedOnceAtTheEnd(started: seq<bytes>, after: seq<bytes>, session: u32) {
    started < after && after[|after| - 1] == FlushCommand(session) &&
    forall i | |started| <= i < |after| - 1 :: CodeOf(after[i]) != CC_FLUSH_CONTEXT
  }

  lemma FlushCloses(device: Device, started: seq<bytes>, sent: seq<bytes>, session: u32, codes: set<nat>)
    requires Continues(started, sent, codes) && CC_FLUSH_CONTEXT !in codes
    ensures FlushedOnceAtTheEnd(started, FlushContext(device, sent, session).sent, session)
  {
    hide FlushCommand, CodeOf, FlushContext;
    FlushSends(device, sent, session);
  }

  /**
   `compute_pcr_policy_digest` on any device: a session that was started is flushed, once and last, whatever
   failed in between.
   */
  lemma ComputePolicyCleansUp(device: Device, sha256: bytes -> bytes, sent: seq<bytes>, nonce: Option<Nonce>,
                              pcrs: seq<u32>)
    requires forall x :: |sha256(x)| == 32
    ensures var s := StartAuthSession(device, sent, nonce, SE_TRIAL);
            var x := ComputePolicyDigest(device, sha256, sent, nonce, pcrs);
            match s.result
            case Ok(session) => FlushedOnceAtTheEnd(s.sent, x.sent, session)
            case Err(e) => x == Run(Err(e), s.sent)
  {
    hide StartAuthSession, PolicyDigestIn, FlushContext;
    var s := StartAuthSession(device, sent, nonce, SE_TRIAL);
    if s.result.Ok? {
      PolicyDigestSends(device, sha256, s.sent, s.result.value, pcrs);
      FlushCloses(device, s.sent, PolicyDigestIn(device, sha256, s.sent, s.result.value, pcrs).sent, s.result.value,
                  POLICY_CODES + {CC_POLICY_GET_DIGEST as nat});
    }
  }

  /** `rsa_decrypt` with PCRs on any device: the same. */
  lemma RsaDecryptCleansUp(device: Device, sha256: bytes -> bytes, sent: seq<bytes>, nonce: Option<Nonce>, key: u32,
                           pcrs: seq<u32>, cipherText: bytes, scheme: DecryptScheme)
    requires forall x :: |sha256(x)| == 32
    requires pcrs != []
    ensures var s := StartAuthSession(device, sent, nonce, SE_POLICY);
            var x := RsaDecrypt(device, sha256, sent, nonce, key, pcrs, cipherText, scheme);
            if |cipherText| > 512 then x == Run(Err(InvalidInput), sent) else
            match s.result
            case Ok(session) => FlushedOnceAtTheEnd(s.sent, x.sent, session)
            case Err(e) => x == Run(Err(e), s.sent)
  {
    hide StartAuthSession, DecryptIn, FlushContext, ReadSized, CheckRc;
    var ct := Trimmed(cipherText);
    var s := StartAuthSession(device, sent, nonce, SE_POLICY);
    if s.result.Ok? && |cipherText| <= 512 {
      DecryptSends(device, sha256, s.sent, s.result.value, key, pcrs, ct, scheme);
      var inside := DecryptIn(device, sha256, s.sent, s.result.value, key, pcrs, ct, scheme).sent;
      FlushCloses(device, s.sent, inside, s.result.value, POLICY_CODES + {CC_RSA_DECRYPT as nat});
    }
  }

  /**
   A leading zero in front of 256 bytes of cipher text makes no difference: the runs are the same, on any device. Any
   other cipher text is sent as it is, here without PCRs; 256 bytes that begin with a zero are such.
   */
  lemma LeadingZeroIsOptional(device: Device, sha256: bytes -> bytes, sent: seq<bytes>, nonce: Option<Nonce>, key: u32,
                              pcrs: seq<u32>, x: bytes, scheme: DecryptScheme)
    ensures |x| == 256 ==>
              RsaDecrypt(device, sha256, sent, nonce, key, pcrs, [0] + x, scheme) ==
              RsaDecrypt(device, sha256, sent, nonce, key, pcrs, x, scheme)
    ensures |x| <= 512 && !(|x| == 257 && x[0] == 0) ==>
              RsaDecrypt(device, sha256, sent, nonce, key, [], x, scheme).sent ==
              sent + [RsaDecryptCommand(key, x, scheme, PwSession([]))]
  {
    hide Transmit, DecryptWithPolicy, RsaDecryptCommand, Parsed, Checked;
    assert ([0] + x)[1..] == x;
    if |x| <= 512 {
      PlainDecryptSends(device, sent, key, x, scheme);
    }
  }

  lemma PlainDecryptSends(device: Device, sent: seq<bytes>, key: u32, x: bytes, scheme: DecryptScheme)
    requires |x| <= 512
    ensures var c := RsaDecryptCommand(key, x, scheme, PwSession([])); Transmit(device, sent, c).sent == sent + [c]
  {
    hide Command, Body, Exchange, Transmit, BE16;
    var params := Sized(x) + (MarshalDecryptScheme(scheme) + Sized([]));
    OneSessionBody([key], PwSession([]), params);
    ExchangeSends(device, sent, CC_RSA_DECRYPT, [key], Auth([PwSession([])]), params);
  }
}
