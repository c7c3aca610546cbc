/**
 Runs of the client against the TPM of `HonestTpm`: one exchange, and the
 invariant of the TPM's state over every run.
 */
module HonestRuns {
  import opened Bytes
  import opened Errors
  import opened Wire
  import opened PcrBitmap
  import opened Framing
  import opened Commands
  import opened HonestTpm

  /** What the TPM does with a built command that is sent after `log`. */
  function OutcomeOf(env: Env, s: State, log: seq<bytes>, code: u32, handles: seq<u32>, a: AuthArea,
                     params: bytes): Outcome {
    var log' := log + [Command(code, handles, a, params)];
    if env.fails(log') then Failed(RC_RETRY) else Execute(env, log', s, Frame(code, handles, a, params))
  }

  lemma CommandIsPerformed(env: Env, s: State, log: seq<bytes>, code: u32, handles: seq<u32>, a: AuthArea,
                           params: bytes)
    requires |Body(handles, a, params)| <= 0x8000 && AuthsFit(a) && |handles| == HandleCount(code)
    ensures var c := Command(code, handles, a, params);
            Perform(env, log + [c], s, c) == OutcomeOf(env, s, log, code, handles, a, params)
  {
    hide Command, Body, Execute, Decode, HandleCount, GetBE32;
    HeaderOf(code, handles, a, params);
    CommandsAreDecoded(code, handles, a, params);
  }

  /** The state after a run and the reply to a built command. */
  lemma {:induction false} TransmitToHonest(device: Device, env: Env, s0: State, log: seq<bytes>, code: u32,
                                            handles: seq<u32>,
                                           a: AuthArea, params: bytes)
    requires Behaves(device, env, s0)
    requires |Body(handles, a, params)| <= 0x8000 && AuthsFit(a) && |handles| == HandleCount(code)
    ensures var c := Command(code, handles, a, params);
            var o := OutcomeOf(env, StateAfter(env, s0, log), log, code, handles, a, params);
            Transmit(device, log, c) == Run(Ok(ReplyOf(o)), log + [c]) &&
            StateAfter(env, s0, log + [c]) == StateOf(o, StateAfter(env, s0, log))
  {
    hide Command, Body, Perform, OutcomeOf, ReplyOf, HandleCount, GetBE32;
    var c := Command(code, handles, a, params);
    BuiltCommandsAreAccepted(code, handles, a, params);
    CommandIsPerformed(env, StateAfter(env, s0, log), log, code, handles, a, params);
    var log' := log + [c];
    assert log'[..|log'| - 1] == log && log'[|log'| - 1] == c;
    assert device(log') == Some(ReplyOf(Perform(env, log', StateAfter(env, s0, log'[..|log'| - 1]), log'[|log'| - 1])));
  }

  /** The client's view of an outcome: the response, or the error code. */
  function Seen(o: Outcome): Result<bytes, Error> {
    match o
    case Done(_, tag, body) => Ok(Response(tag, 0, body))
    case Failed(rc) => Err(TpmRc(rc))
  }

  lemma ReplyIsSeen(o: Outcome)
    requires match o case Done(_, _, body) => |body| <= 0x1_0000 case Failed(rc) => rc != 0
    ensures Checked(Ok(ReplyOf(o))) == Seen(o)
  {
    hide Response, GetBE32;
    match o
    case Done(_, tag, body) => ResponseHeader(tag, 0, body);
    case Failed(rc) => ResponseHeader(TPM_ST_NO_SESSIONS, rc, []);
  }

  /** One exchange of a built command with the honest TPM. */
  lemma {:induction false} ExchangeWithHonest(device: Device, env: Env, s0: State, log: seq<bytes>, code: u32,
                                              handles: seq<u32>,
                                             a: AuthArea, params: bytes)
    requires Behaves(device, env, s0)
    requires |Body(handles, a, params)| <= 0x8000 && AuthsFit(a) && |handles| == HandleCount(code)
    requires var o := OutcomeOf(env, StateAfter(env, s0, log), log, code, handles, a, params);
             match o case Done(_, _, body) => |body| <= 0x1_0000 case Failed(rc) => rc != 0
    ensures var c := Command(code, handles, a, params);
            var o := OutcomeOf(env, StateAfter(env, s0, log), log, code, handles, a, params);
            Exchange(device, log, c) == Run(Seen(o), log + [c]) &&
            StateAfter(env, s0, log + [c]) == StateOf(o, StateAfter(env, s0, log))
  {
    hide Command, Body, Transmit, Checked, OutcomeOf, HandleCount, Seen, ReplyOf;
    var o := OutcomeOf(env, StateAfter(env, s0, log), log, code, handles, a, params);
    TransmitToHonest(device, env, s0, log, code, handles, a, params);
    ReplyIsSeen(o);
  }

  /** The parameters of a response are what a reader is given that reads them wherever they stand. */
  lemma ParamsAreParsed<T>(tag: u16, params: bytes, acks: bytes, read: (bytes, nat) -> Result<(T, nat), Error>, v: T)
    requires |params| + |acks| <= 0x8000
    requires forall d: bytes, p: nat | At(d, p, params) :: read(d, p) == Ok((v, p + |params|))
    ensures FromBytes(Response(tag, 0, ResponseBody(tag, params, acks)), read) == Ok(v)
    ensures |ResponseBody(tag, params, acks)| <= 0x8004
  {
    hide Response, ReadParams, GetBE32, GetBE16, BE32;
    var body := ResponseBody(tag, params, acks);
    ResponseHeader(tag, 0, body);
    var d := Response(tag, 0, body);
    forall p: nat | At(d, p, params)
      ensures read(d, p) == Ok((v, p + |params|))
    {
    }
    ParamsAreReached(d, HEADER_LEN, tag, params, acks, read, v);
  }

  // ---------------------------------------------------------------- the state over every run

  lemma SpliceKeepsState(s: State, i: u32, e: NvEntry)
    requires ValidState(s) && i in s.nv && |e.data| == e.public.dataSize && e.public == s.nv[i].public
    ensures ValidState(s.(nv := s.nv[i := e]))
  {
  }

  lemma SessionsKeepState(s: State, sessions: map<u32, PolicySession>)
    requires ValidState(s) && TPM_RS_PW !in sessions && forall h | h in sessions :: |sessions[h].digest| == 32
    ensures ValidState(s.(sessions := sessions))
  {
  }

  lemma ExecuteKeepsState(env: Env, log: seq<bytes>, s: State, f: Frame)
    requires ValidEnv(env) && ValidState(s)
    ensures ValidState(StateOf(Execute(env, log, s, f), s))
  {
    hide ReadSized, ReadSelections, GetBE16, GetBE32, ReadAuthRequest, ReadDecryptRequest, ValidState, OneBank,
         ValuesOf, BankOf, CurrentDigest, Answered, SelectedSet, BitmapOf, MarshalSelections, MarshalDigestList,
         PcrRead;
    assert PcrRead(env, log, s, f.params).Done? ==> PcrRead(env, log, s, f.params).state == s by {
      PcrReadKeepsState(env, log, s, f.params);
    }
    if f.code == CC_NV_WRITE && NvWrite(s, f).Done? {
      var i := f.handles[1];
      EntrySize(s, i);
      SpliceKeepsState(s, i, NvWrite(s, f).state.nv[i]);
    } else if f.code == CC_START_AUTH_SESSION && StartSession(env, log, s, f).Done? {
      SessionSizes(s);
      SessionsKeepState(s, StartSession(env, log, s, f).state.sessions);
    } else if f.code == CC_POLICY_PCR && PolicyPcrDone(env, s, f).Done? {
      SessionSizes(s);
      SessionsKeepState(s, PolicyPcrDone(env, s, f).state.sessions);
    } else if f.code == CC_FLUSH_CONTEXT && FlushDone(s, f).Done? {
      SessionSizes(s);
      SessionsKeepState(s, FlushDone(s, f).state.sessions);
    } else if f.code == CC_RSA_DECRYPT && RsaDecryptDone(env, s, f).Done? {
      SessionSizes(s);
      SessionsKeepState(s, RsaDecryptDone(env, s, f).state.sessions);
    }
  }

  lemma PcrReadKeepsState(env: Env, log: seq<bytes>, s: State, params: bytes)
    ensures PcrRead(env, log, s, params).Done? ==> PcrRead(env, log, s, params).state == s
  {
    hide ReadSelections, OneBank, SelectedSet, BitmapOf, MarshalSelections, MarshalDigestList, ValuesOf, BankOf;
  }

  lemma EntrySize(s: State, i: u32)
    requires ValidState(s) && i in s.nv
    ensures |s.nv[i].data| == s.nv[i].public.dataSize && |s.nv[i].public.authPolicy| <= 64
  {
  }

  lemma SessionSizes(s: State)
    requires ValidState(s)
    ensures TPM_RS_PW !in s.sessions && forall h | h in s.sessions :: |s.sessions[h].digest| == 32
  {
  }

  /** Whatever commands are sent, the TPM keeps its banks whole and every NV index its size. */
  lemma {:induction false} RunsKeepState(env: Env, s0: State, log: seq<bytes>)
    requires ValidEnv(env) && ValidState(s0)
    ensures ValidState(StateAfter(env, s0, log))
    decreases |log|
  {
    hide Execute, ValidState, ValidEnv, Decode, GetBE32;
    if log != [] {
      var before := StateAfter(env, s0, log[..|log| - 1]);
      RunsKeepState(env, s0, log[..|log| - 1]);
      var command := log[|log| - 1];
      if |command| >= HEADER_LEN && Decode(command, HandleCount(GetBE32(command, 6))).Ok? {
        ExecuteKeepsState(env, log, before, Decode(command, HandleCount(GetBE32(command, 6))).value);
      }
    }
  }

  /** No command ever changes a PCR or a key. */
  lemma {:induction false} RunsKeepBanksAndKeys(env: Env, s0: State, log: seq<bytes>)
    ensures StateAfter(env, s0, log).banks == s0.banks && StateAfter(env, s0, log).keys == s0.keys
    decreases |log|
  {
    hide Execute, Decode, GetBE32;
    if log != [] {
      var before := StateAfter(env, s0, log[..|log| - 1]);
      RunsKeepBanksAndKeys(env, s0, log[..|log| - 1]);
      var command := log[|log| - 1];
      if |command| >= HEADER_LEN && Decode(command, HandleCount(GetBE32(command, 6))).Ok? {
        ExecuteKeepsBanksAndKeys(env, log, before, Decode(command, HandleCount(GetBE32(command, 6))).value);
      }
    }
  }

  lemma ExecuteKeepsBanksAndKeys(env: Env, log: seq<bytes>, s: State, f: Frame)
    ensures var t := StateOf(Execute(env, log, s, f), s);
            t.banks == s.banks && t.keys == s.keys
  {
    hide ReadSized, ReadSelections, GetBE16, GetBE32, ReadAuthRequest, ReadDecryptRequest, OneBank, ValuesOf,
         BankOf, CurrentDigest, Answered, SelectedSet, BitmapOf, MarshalSelections, MarshalDigestList, PcrRead;
    PcrReadKeepsState(env, log, s, f.params);
  }
}
