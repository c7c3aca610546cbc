/**
 Command and response framing (TPM 2.0 Library, Part 1, section 18): the builders
 of `helpers.rs`, the check in `Tpm::transmit`, and a decoder to prove them against.
 */
module Framing {
  import opened Bytes
  import opened Errors
  import opened Wire
  import opened WireExact

  const TPM_ST_NO_SESSIONS: u16 := 0x8001
  const TPM_ST_SESSIONS: u16 := 0x8002
  const TPM_RS_PW: u32 := 0x4000_0009
  const MAX_COMMAND_SIZE := 64 * 1024
  const HEADER_LEN := 10

  datatype Session = Session(handle: u32, auth: bytes, attrs: byte)

  /** `NoAuth` for a command without sessions. */
  datatype AuthArea = NoAuth | Auth(sessions: seq<Session>)

  // ---------------------------------------------------------------- the layout of a command

  function EncodeHandles(handles: seq<u32>): (r: bytes)
    ensures |r| == 4 * |handles|
  {
    if handles == [] then [] else BE32(handles[0]) + EncodeHandles(handles[1..])
  }

  /** A session: its handle, an empty nonce, its attributes and its authorization value. */
  function EncodeSession(s: Session): (r: bytes)
    ensures |r| == 9 + |s.auth|
  {
    BE32(s.handle) + (Sized([]) + ([s.attrs] + Sized(s.auth)))
  }

  function EncodeSessions(sessions: seq<Session>): bytes {
    if sessions == [] then [] else EncodeSession(sessions[0]) + EncodeSessions(sessions[1..])
  }

  function EncodeAuth(a: AuthArea): bytes {
    match a
    case NoAuth => []
    case Auth(sessions) => BE32(|EncodeSessions(sessions)|) + EncodeSessions(sessions)
  }

  function TagOf(a: AuthArea): u16 {
    if a.NoAuth? then TPM_ST_NO_SESSIONS else TPM_ST_SESSIONS
  }

  function Body(handles: seq<u32>, a: AuthArea, params: bytes): bytes {
    EncodeHandles(handles) + (EncodeAuth(a) + params)
  }

  /** A whole command, its size field holding its length. */
  function Command(code: u32, handles: seq<u32>, a: AuthArea, params: bytes): (r: bytes)
    ensures |r| == HEADER_LEN + |Body(handles, a, params)|
  {
    var body := Body(handles, a, params);
    BE16(TagOf(a)) + (BE32(HEADER_LEN + |body|) + (BE32(code) + body))
  }

  function PwSession(auth: bytes): Session {
    Session(TPM_RS_PW, auth, 0)
  }

  function PwSessions(auths: seq<bytes>): seq<Session> {
    if auths == [] then [] else [PwSession(auths[0])] + PwSessions(auths[1..])
  }

  // ---------------------------------------------------------------- the builders

  /** The growing byte vector that a command is built in. */
  class CommandBuffer {
    var contents: bytes

    constructor ()
      ensures contents == []
    {
      contents := [];
    }

    method Extend(x: bytes)
      modifies this
      ensures contents == old(contents) + x
    {
      contents := contents + x;
    }

    /** `build_header_no_sessions` and `build_header_sessions`: tag, four zero bytes, code. */
    method Header(tag: u16, code: u32)
      modifies this
      ensures contents == old(contents) + (BE16(tag) + (BE32(0) + BE32(code)))
    {
      Extend(BE16(tag));
      Extend([0, 0, 0, 0]);
      Extend(BE32(code));
    }

    method Handles(handles: seq<u32>)
      modifies this
      ensures contents == old(contents) + EncodeHandles(handles)
    {
      hide BE32;
      for i := 0 to |handles|
        invariant old(contents) + EncodeHandles(handles) == contents + EncodeHandles(handles[i..])
      {
        assert handles[i..][1..] == handles[i + 1..];
        Extend(BE32(handles[i]));
      }
    }

    /** The authorization area: first the sum of the session sizes, then the sessions. */
    method Sessions(sessions: seq<Session>)
      requires |EncodeSessions(sessions)| < 0x1_0000_0000
      modifies this
      ensures contents == old(contents) + EncodeAuth(Auth(sessions))
    {
      hide BE32, EncodeSession;
      var areaSize := 0;
      for i := 0 to |sessions|
        invariant areaSize + |EncodeSessions(sessions[i..])| == |EncodeSessions(sessions)|
      {
        assert sessions[i..][1..] == sessions[i + 1..];
        areaSize := areaSize + (4 + 2 + 1 + 2 + |sessions[i].auth|);
      }
      assert areaSize == |EncodeSessions(sessions)|;
      Extend(BE32(areaSize));
      label sized:
      for i := 0 to |sessions|
        invariant old@sized(contents) + EncodeSessions(sessions) == contents + EncodeSessions(sessions[i..])
      {
        assert sessions[i..][1..] == sessions[i + 1..];
        OneSession(sessions[i]);
      }
      assert EncodeSessions(sessions[|sessions|..]) == [];
      assert contents == old@sized(contents) + EncodeSessions(sessions);
    }

    method OneSession(s: Session)
      modifies this
      ensures contents == old(contents) + EncodeSession(s)
    {
      hide BE32, BE16;
      Extend(BE32(s.handle));
      Extend(BE16(0));
      Extend([s.attrs]);
      Extend(BE16(|s.auth|));
      if s.auth != [] {
        Extend(s.auth);
      }
      assert Sized([]) == BE16(0);
    }

    /** `finalize_size`: the length over the four bytes behind the tag. */
    method FinalizeSize()
      requires |contents| >= 6
      modifies this
      ensures contents == old(contents)[..2] + BE32(|old(contents)|) + old(contents)[6..]
    {
      contents := contents[..2] + BE32(|contents|) + contents[6..];
    }
  }

  lemma HeaderPatched(tag: u16, code: u32, body: bytes)
    ensures var b := BE16(tag) + (BE32(0) + BE32(code)) + body;
            b[..2] + BE32(|b|) + b[6..] == BE16(tag) + (BE32(HEADER_LEN + |body|) + (BE32(code) + body))
  {
    hide BE16, BE32;
    var b := BE16(tag) + (BE32(0) + BE32(code)) + body;
    assert b[..2] == BE16(tag);
    assert b[6..] == BE32(code) + body;
  }

  /** `build_command_no_sessions` */
  method BuildNoSessions(code: u32, handles: seq<u32>, params: bytes) returns (r: bytes)
    ensures r == Command(code, handles, NoAuth, params)
  {
    hide BE16, BE32, EncodeHandles;
    var buf := new CommandBuffer();
    buf.Header(TPM_ST_NO_SESSIONS, code);
    buf.Handles(handles);
    buf.Extend(params);
    assert buf.contents == BE16(TPM_ST_NO_SESSIONS) + (BE32(0) + BE32(code)) + Body(handles, NoAuth, params);
    buf.FinalizeSize();
    HeaderPatched(TPM_ST_NO_SESSIONS, code, Body(handles, NoAuth, params));
    return buf.contents;
  }

  /** `build_command_custom_sessions`; the sum of the session sizes must fit 32 bits, or the program stops. */
  method BuildCustomSessions(code: u32, handles: seq<u32>, sessions: seq<Session>, params: bytes) returns (r: bytes)
    requires |EncodeSessions(sessions)| < 0x1_0000_0000
    ensures r == Command(code, handles, Auth(sessions), params)
  {
    hide BE16, BE32, EncodeHandles, EncodeSessions, EncodeAuth;
    var buf := new CommandBuffer();
    buf.Header(TPM_ST_SESSIONS, code);
    buf.Handles(handles);
    buf.Sessions(sessions);
    buf.Extend(params);
    assert buf.contents == BE16(TPM_ST_SESSIONS) + (BE32(0) + BE32(code)) + Body(handles, Auth(sessions), params);
    buf.FinalizeSize();
    HeaderPatched(TPM_ST_SESSIONS, code, Body(handles, Auth(sessions), params));
    return buf.contents;
  }

  /** `build_command_pw_sessions`: one password session for each authorization value. */
  method BuildPwSessions(code: u32, handles: seq<u32>, auths: seq<bytes>, params: bytes) returns (r: bytes)
    requires |EncodeSessions(PwSessions(auths))| < 0x1_0000_0000
    ensures r == Command(code, handles, Auth(PwSessions(auths)), params)
  {
    hide EncodeSessions, Command;
    var sessions := [];
    for i := 0 to |auths|
      invariant PwSessions(auths) == sessions + PwSessions(auths[i..])
    {
      assert auths[i..][1..] == auths[i + 1..];
      sessions := sessions + [PwSession(auths[i])];
    }
    assert sessions + [] == sessions;
    r := BuildCustomSessions(code, handles, sessions, params);
  }

  // ---------------------------------------------------------------- the check before sending

  /** The validation in `Tpm::transmit`. */
  predicate TransmitAccepts(command: bytes) {
    |command| >= HEADER_LEN && GetBE32(command, 2) == |command| && |command| <= MAX_COMMAND_SIZE
  }

  /** Of any bytes, exactly those are accepted that say their own length behind the tag and hold 10 bytes to 64 KiB. */
  lemma AcceptedExactly(command: bytes)
    ensures TransmitAccepts(command) <==>
            10 <= |command| <= 0x1_0000 && BigEndian(command[2..6]) == |command|
  {
    hide GetBE32, BigEndian;
    ReadersAreBigEndian(command, 2);
  }

  /** A built command is accepted exactly when it is not longer than 64 KiB. */
  lemma BuiltCommandsAreAccepted(code: u32, handles: seq<u32>, a: AuthArea, params: bytes)
    ensures var c := Command(code, handles, a, params);
            TransmitAccepts(c) <==> |c| <= 0x1_0000
  {
    hide BE16, BE32, GetBE32, Body;
    var c := Command(code, handles, a, params);
    if |c| <= 0x1_0000 {
      HeaderOf(code, handles, a, params);
    }
  }

  /** The header of a command that is shorter than four gigabytes. */
  lemma HeaderOf(code: u32, handles: seq<u32>, a: AuthArea, params: bytes)
    requires |Command(code, handles, a, params)| < 0x1_0000_0000
    ensures var c := Command(code, handles, a, params);
            GetBE16(c, 0) == TagOf(a) && GetBE32(c, 2) == |c| && GetBE32(c, 6) == code &&
            At(c, HEADER_LEN, Body(handles, a, params))
  {
    hide BE16, BE32, GetBE16, GetBE32, Body;
    var c := Command(code, handles, a, params);
    var body := Body(handles, a, params);
    assert At(c, 0, c);
    AtConcat(c, 0, BE16(TagOf(a)), BE32(|c|) + (BE32(code) + body));
    AtConcat(c, 2, BE32(|c|), BE32(code) + body);
    AtConcat(c, 6, BE32(code), body);
    BE16At(c, 0, TagOf(a));
    BE32At(c, 2, |c|);
    BE32At(c, 6, code);
  }

  // ---------------------------------------------------------------- decoding commands

  datatype Frame = Frame(code: u32, handles: seq<u32>, auth: AuthArea, params: bytes)

  function DecodeHandles(d: bytes, c: nat, n: nat): (r: Result<(seq<u32>, nat), Error>)
    ensures r.Ok? ==> r.value.1 == c + 4 * n
    decreases n
  {
    if n == 0 then Ok(([], c)) else
    var (h, c1) :- ReadU32(d, c);
    var (rest, c2) :- DecodeHandles(d, c1, n - 1);
    Ok(([h] + rest, c2))
  }

  function DecodeSession(d: bytes, c: nat): (r: Result<(Session, nat), Error>)
    ensures r.Ok? ==> c < r.value.1 <= |d| && |r.value.0.auth| < 0x1_0000
  {
    var (handle, c1) :- ReadU32(d, c);
    var (_, c2) :- ReadSized(d, c1);
    var (attrs, c3) :- ReadU8(d, c2);
    var (auth, c4) :- ReadSized(d, c3);
    Ok((Session(handle, auth, attrs), c4))
  }

  /** The sessions between `c` and `end`. */
  function DecodeSessions(d: bytes, c: nat, end: nat): (r: Result<seq<Session>, Error>)
    requires end <= |d|
    ensures r.Ok? ==> forall s | s in r.value :: |s.auth| < 0x1_0000
    decreases |d| - if c <= |d| then c else |d|
  {
    if c == end then Ok([]) else
    var (s, c1) :- DecodeSession(d, c);
    if c1 > end then Err(InvalidData) else
    var rest :- DecodeSessions(d, c1, end);
    Ok([s] + rest)
  }

  /** Takes a command apart, given the number of handles its code calls for. */
  function Decode(d: bytes, handleCount: nat): (r: Result<Frame, Error>)
    ensures r.Ok? && r.value.auth.Auth? ==> forall s | s in r.value.auth.sessions :: |s.auth| < 0x1_0000
  {
    var (tag, c1) :- ReadU16(d, 0);
    var (size, c2) :- ReadU32(d, c1);
    if size != |d| then Err(InvalidData) else
    var (code, c3) :- ReadU32(d, c2);
    var (handles, c4) :- DecodeHandles(d, c3, handleCount);
    if c4 > |d| then Err(UnexpectedEof)
    else if tag == 0x8001 then Ok(Frame(code, handles, NoAuth, d[c4..]))
    else if tag != 0x8002 then Err(InvalidData)
    else
      var (area, c5) :- ReadU32(d, c4);
      if c5 + area > |d| then Err(UnexpectedEof) else
      var sessions :- DecodeSessions(d, c5, c5 + area);
      Ok(Frame(code, handles, Auth(sessions), d[c5 + area..]))
  }

  lemma {:induction false} HandlesAreDecoded(d: bytes, c: nat, handles: seq<u32>)
    requires At(d, c, EncodeHandles(handles))
    ensures DecodeHandles(d, c, |handles|) == Ok((handles, c + 4 * |handles|))
    decreases |handles|
  {
    hide BE32, GetBE32;
    if handles != [] {
      AtConcat(d, c, BE32(handles[0]), EncodeHandles(handles[1..]));
      ReadU32IsExact(d, c, handles[0]);
      HandlesAreDecoded(d, c + 4, handles[1..]);
      assert handles == [handles[0]] + handles[1..];
    }
  }

  lemma SessionIsDecoded(d: bytes, c: nat, s: Session)
    requires At(d, c, EncodeSession(s)) && |s.auth| < 0x1_0000
    ensures DecodeSession(d, c) == Ok((s, c + |EncodeSession(s)|))
  {
    hide BE32, GetBE32, Sized, ReadSized;
    AtConcat(d, c, BE32(s.handle), Sized([]) + ([s.attrs] + Sized(s.auth)));
    AtConcat(d, c + 4, Sized([]), [s.attrs] + Sized(s.auth));
    AtConcat(d, c + 6, [s.attrs], Sized(s.auth));
    ReadU32IsExact(d, c, s.handle);
    ReadSizedIsExact(d, c + 4, [], c + 6);
    AtIndex(d, c + 6, [s.attrs], 0);
    ReadSizedIsExact(d, c + 7, s.auth, c + 9 + |s.auth|);
  }

  predicate AuthsFit(a: AuthArea) {
    a.Auth? ==> forall s | s in a.sessions :: |s.auth| < 0x1_0000
  }

  lemma {:induction false} SessionsAreDecoded(d: bytes, c: nat, sessions: seq<Session>, end: nat)
    requires At(d, c, EncodeSessions(sessions)) && end == c + |EncodeSessions(sessions)|
    requires AuthsFit(Auth(sessions))
    ensures DecodeSessions(d, c, end) == Ok(sessions)
    decreases |sessions|
  {
    hide EncodeSession, DecodeSession;
    if sessions != [] {
      assert sessions[0] in sessions;
      AtConcat(d, c, EncodeSession(sessions[0]), EncodeSessions(sessions[1..]));
      SessionIsDecoded(d, c, sessions[0]);
      SessionsAreDecoded(d, c + |EncodeSession(sessions[0])|, sessions[1..], end);
      assert sessions == [sessions[0]] + sessions[1..];
    }
  }

  /** The body behind the header, taken apart. */
  lemma {:induction false} BodyParts(d: bytes, handles: seq<u32>, a: AuthArea, params: bytes)
    requires At(d, HEADER_LEN, Body(handles, a, params)) && |d| == HEADER_LEN + |Body(handles, a, params)|
    ensures var c4 := HEADER_LEN + 4 * |handles|;
            At(d, HEADER_LEN, EncodeHandles(handles)) && At(d, c4, EncodeAuth(a)) &&
            At(d, c4 + |EncodeAuth(a)|, params) && d[c4 + |EncodeAuth(a)|..] == params
  {
    hide EncodeHandles, EncodeAuth;
    AtConcat(d, HEADER_LEN, EncodeHandles(handles), EncodeAuth(a) + params);
    AtConcat(d, HEADER_LEN + 4 * |handles|, EncodeAuth(a), params);
  }

  lemma {:induction false} AuthIsDecoded(d: bytes, c: nat, sessions: seq<Session>)
    requires At(d, c, EncodeAuth(Auth(sessions))) && AuthsFit(Auth(sessions))
    requires |EncodeSessions(sessions)| < 0x1_0000_0000
    ensures var n := |EncodeSessions(sessions)|;
            ReadU32(d, c) == Ok((n, c + 4)) && c + 4 + n <= |d| && DecodeSessions(d, c + 4, c + 4 + n) == Ok(sessions)
  {
    hide BE32, GetBE32, EncodeSessions, DecodeSessions;
    var n := |EncodeSessions(sessions)|;
    AtConcat(d, c, BE32(n), EncodeSessions(sessions));
    ReadU32IsExact(d, c, n);
    SessionsAreDecoded(d, c + 4, sessions, c + 4 + n);
  }

  /**
   A decoder that knows the number of handles recovers code, handles, sessions and parameters from a
   built command, if and only if every authorization value fits its 16-bit length.
   */
  lemma CommandsAreDecoded(code: u32, handles: seq<u32>, a: AuthArea, params: bytes)
    requires |Command(code, handles, a, params)| < 0x1_0000_0000
    ensures Decode(Command(code, handles, a, params), |handles|) == Ok(Frame(code, handles, a, params)) <==> AuthsFit(a)
  {
    hide BE16, GetBE16, GetBE32, Command, Body, EncodeAuth, DecodeHandles, DecodeSessions, EncodeSessions;
    var d := Command(code, handles, a, params);
    HeaderOf(code, handles, a, params);
    BodyParts(d, handles, a, params);
    HandlesAreDecoded(d, HEADER_LEN, handles);
    if a.Auth? && AuthsFit(a) {
      AuthLength(a);
      AuthIsDecoded(d, HEADER_LEN + 4 * |handles|, a.sessions);
    } else if a.NoAuth? {
      assert |EncodeAuth(a)| == 0 by {
        NoAuthIsEmpty(a);
      }
    }
  }

  lemma AuthLength(a: AuthArea)
    requires a.Auth?
    ensures |EncodeAuth(a)| == 4 + |EncodeSessions(a.sessions)|
  {
    hide EncodeSessions, BE32;
  }

  lemma NoAuthIsEmpty(a: AuthArea)
    requires a.NoAuth?
    ensures EncodeAuth(a) == []
  {
  }

  // ---------------------------------------------------------------- responses

  /** A response: tag, size, code, then what follows. */
  function Response(tag: u16, rc: u32, body: bytes): (r: bytes)
    ensures |r| == HEADER_LEN + |body|
  {
    BE16(tag) + (BE32(HEADER_LEN + |body|) + (BE32(rc) + body))
  }

  /** `parse_tpm_rc_with_cmd` */
  function CheckRc(d: bytes): Result<(), Error> {
    if |d| < HEADER_LEN then Err(UnexpectedEof)
    else if GetBE32(d, 2) != |d| then Err(InvalidData)
    else if GetBE32(d, 6) != 0 then Err(TpmRc(GetBE32(d, 6)))
    else Ok(())
  }

  /** `TpmResponseHeader::parse` and the check of the code that every `from_bytes` begins with; answers the tag. */
  function ParseHeader(d: bytes): (r: Result<u16, Error>)
    ensures r.Ok? ==> |d| >= HEADER_LEN
  {
    if |d| < HEADER_LEN then Err(UnexpectedEof)
    else if GetBE32(d, 2) > |d| then Err(InvalidData)
    else if GetBE32(d, 6) != 0 then Err(TpmRc(GetBE32(d, 6)))
    else Ok(GetBE16(d, 0))
  }

  /**
   A response is taken exactly when it is whole and says success; its error code is told when it is whole and
   says one.
   */
  lemma ResponsesAreChecked(d: bytes)
    ensures CheckRc(d).Ok? <==> |d| >= 10 && BigEndian(d[2..6]) == |d| && BigEndian(d[6..10]) == 0
    ensures forall rc: u32 :: CheckRc(d) == Err(TpmRc(rc)) <==>
              |d| >= 10 && BigEndian(d[2..6]) == |d| && BigEndian(d[6..10]) == rc as int && rc != 0
  {
    hide GetBE32, BigEndian;
    if |d| >= 10 {
      ReadersAreBigEndian(d, 2);
      ReadersAreBigEndian(d, 6);
    }
  }

  /** The parameters of a response from `c` on: behind a session tag they carry their size, which must be met. */
  function ReadParams<T>(d: bytes, c: nat, tag: u16, read: (bytes, nat) -> Result<(T, nat), Error>): Result<T, Error> {
    if tag == TPM_ST_SESSIONS then
      var (size, start) :- ReadU32(d, c);
      if start + size > |d| then Err(UnexpectedEof) else
      var (v, end) :- read(d, start);
      if end != start + size then Err(InvalidData) else Ok(v)
    else
      var (v, _) :- read(d, c);
      Ok(v)
  }

  /** The `from_bytes` of a response without handles. */
  function FromBytes<T>(d: bytes, read: (bytes, nat) -> Result<(T, nat), Error>): Result<T, Error> {
    var tag :- ParseHeader(d);
    ReadParams(d, HEADER_LEN, tag, read)
  }

  /** How a TPM lays out parameters: with their size, and an acknowledgement for each session, if there are any. */
  function ResponseBody(tag: u16, params: bytes, acks: bytes): bytes {
    if tag == 0x8002 then BE32(|params|) + (params + acks) else params
  }

  lemma ResponseHeader(tag: u16, rc: u32, body: bytes)
    requires |body| < 0x1_0000_0000 - HEADER_LEN
    ensures var d := Response(tag, rc, body);
            GetBE16(d, 0) == tag && GetBE32(d, 2) == |d| && GetBE32(d, 6) == rc && At(d, HEADER_LEN, body)
  {
    hide BE16, BE32, GetBE16, GetBE32;
    var d := Response(tag, rc, body);
    assert At(d, 0, d);
    AtConcat(d, 0, BE16(tag), BE32(|d|) + (BE32(rc) + body));
    AtConcat(d, 2, BE32(|d|), BE32(rc) + body);
    AtConcat(d, 6, BE32(rc), body);
    BE16At(d, 0, tag);
    BE32At(d, 2, |d|);
    BE32At(d, 6, rc);
  }

  /** Well-framed parameters reach their reader, and a success code passes the check. */
  lemma ParamsAreReached<T>(d: bytes, c: nat, tag: u16, params: bytes, acks: bytes,
                            read: (bytes, nat) -> Result<(T, nat), Error>, v: T)
    requires At(d, c, ResponseBody(tag, params, acks)) && |params| < 0x1_0000_0000
    requires forall p: nat | At(d, p, params) :: read(d, p) == Ok((v, p + |params|))
    ensures ReadParams(d, c, tag, read) == Ok(v)
  {
    hide BE32, GetBE32;
    if tag == TPM_ST_SESSIONS {
      AtConcat(d, c, BE32(|params|), params + acks);
      AtConcat(d, c + 4, params, acks);
      ReadU32IsExact(d, c, |params|);
      assert At(d, c + 4, params);
    } else {
      assert At(d, c, params);
    }
  }

  /** One sized value as the parameters of a response: behind a session tag with the size of the parameters in front. */
  ghost predicate SizedParamsAt(d: bytes, c: nat, tag: nat, x: bytes) {
    |x| < 0x1_0000 && if tag == 0x8002 then At(d, c, BE32(2 + |x|) + Sized(x)) else At(d, c, Sized(x))
  }

  /** Of any response, a sized value is answered exactly when it stands there, with just its size announced. */
  lemma SizedParamsAreExact(d: bytes, c: nat, tag: u16, x: bytes)
    ensures ReadParams(d, c, tag, ReadSized) == Ok(x) <==> SizedParamsAt(d, c, tag, x)
  {
    hide BE32, GetBE32, Sized, ReadSized;
    if tag == 0x8002 {
      AtConcat(d, c, BE32(2 + |x|), Sized(x));
      if |x| < 0x1_0000 {
        ReadU32IsExact(d, c, 2 + |x|);
      }
      ReadSizedIsExact(d, c + 4, x, c + 6 + |x|);
    } else {
      ReadSizedIsExact(d, c, x, c + 2 + |x|);
      if ReadSized(d, c).Ok? {
        ReadSizedIsExact(d, c, ReadSized(d, c).value.0, ReadSized(d, c).value.1);
      }
    }
  }

  /** A response header that its reader takes: claiming no more than the buffer holds, with the code for success. */
  predicate HeaderTaken(d: bytes) {
    |d| >= 10 && BigEndian(d[2..6]) <= |d| && BigEndian(d[6..10]) == 0
  }

  lemma HeaderTakenExactly(d: bytes)
    ensures ParseHeader(d).Ok? <==> HeaderTaken(d)
    ensures HeaderTaken(d) ==> ParseHeader(d).value as int == BigEndian(d[0..2])
  {
    hide GetBE16, GetBE32, BigEndian;
    if |d| >= 10 {
      ReadersAreBigEndian(d, 0);
      ReadersAreBigEndian(d, 2);
      ReadersAreBigEndian(d, 6);
    }
  }

  /** What the responses to NV_Read, PolicyGetDigest and RSA_Decrypt are read as. */
  lemma SizedResponsesAreExact(d: bytes, x: bytes)
    ensures FromBytes(d, ReadSized) == Ok(x) <==>
            HeaderTaken(d) && SizedParamsAt(d, 10, BigEndian(d[0..2]), x)
  {
    hide GetBE16, GetBE32, BigEndian, ReadParams, ReadSized, SizedParamsAt;
    HeaderTakenExactly(d);
    if ParseHeader(d).Ok? {
      SizedParamsAreExact(d, 10, ParseHeader(d).value, x);
    }
  }
}
