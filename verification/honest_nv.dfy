/** NV reads and writes against the honest TPM: the chunks add up to one read and one splice. */
module HonestNv {
  import opened Bytes
  import opened Errors
  import opened Wire
  import opened WireExact
  import opened Framing
  import opened Commands
  import opened AnyDevice
  import opened HonestTpm
  import opened HonestRuns

  // ---------------------------------------------------------------- one command

  function Retried(env: Env, log: seq<bytes>, command: bytes): bool {
    env.fails(log + [command])
  }

  /** The parameters of the answer to NV_ReadPublic. */
  function PublicParams(p: NvPublic, name: bytes): bytes {
    Sized(NvArea(p)) + Sized(name)
  }

  lemma PublicIsParsed(p: NvPublic, name: bytes)
    requires |p.authPolicy| <= 64 && |name| == 34
    ensures var d := Response(TPM_ST_NO_SESSIONS, 0, PublicParams(p, name));
            Parsed<(NvPublic, bytes)>(LongEnough(Ok(d)), Wire.ReadNvPublic) == Ok((p, name)) &&
            |PublicParams(p, name)| <= 200
  {
    hide Response, FromBytes, Wire.ReadNvPublic, NvArea, Sized;
    var params := PublicParams(p, name);
    forall d: bytes, c: nat | At(d, c, params)
      ensures Wire.ReadNvPublic(d, c) == Ok(((p, name), c + |params|))
    {
      NvPublicIsRead(d, c, p, name);
    }
    ParamsAreParsed<(NvPublic, bytes)>(TPM_ST_NO_SESSIONS, params, [], Wire.ReadNvPublic, (p, name));
  }

  lemma {:induction false} NvReadPublicWithHonest(device: Device, env: Env, s0: State, log: seq<bytes>, i: u32)
    requires Behaves(device, env, s0) && ValidEnv(env) && ValidState(s0)
    requires i in StateAfter(env, s0, log).nv
    ensures var s := StateAfter(env, s0, log);
            var x := NvReadPublic(device, log, i);
            x.sent == log + [NvReadPublicCommand(i)] && StateAfter(env, s0, x.sent) == s &&
            x.result == if Retried(env, log, NvReadPublicCommand(i)) then Err(TpmRc(RC_RETRY)) else Ok(s.nv[i].public)
  {
    hide Command, Body, BE32, GetBE32, Exchange, StateAfter, Behaves, ValidState, Wire.ReadNvPublic, NvArea,
         FromBytes, Sized, Response;
    var s := StateAfter(env, s0, log);
    RunsKeepState(env, s0, log);
    EntrySize(s, i);
    NoAuthBody([], BE32(i));
    assert At(BE32(i), 0, BE32(i));
    BE32At(BE32(i), 0, i);
    PublicIsParsed(s.nv[i].public, env.nvName(s.nv[i].public));
    ExchangeWithHonest(device, env, s0, log, CC_NV_READ_PUBLIC, [], NoAuth, BE32(i));
  }

  /** The outcome of NV_Read for the client's command. */
  function NvReadOutcome(s: State, i: u32, size: nat, offset: nat): Result<bytes, Error> {
    if i !in s.nv then Err(TpmRc(RC_HANDLE))
    else if !s.nv[i].written then Err(TpmRc(RC_NV_UNINITIALIZED))
    else if size > MAX_NV_BUFFER then Err(TpmRc(RC_VALUE))
    else if offset + size > |s.nv[i].data| then Err(TpmRc(RC_NV_RANGE))
    else Ok(s.nv[i].data[offset..offset + size])
  }

  lemma TwoWords(a: u16, b: u16)
    ensures GetBE16(BE16(a) + BE16(b), 0) == a && GetBE16(BE16(a) + BE16(b), 2) == b
  {
    hide BE16, GetBE16;
    var d := BE16(a) + BE16(b);
    assert At(d, 0, d);
    AtConcat(d, 0, BE16(a), BE16(b));
    BE16At(d, 0, a);
    BE16At(d, 2, b);
  }

  lemma SizedIsParsed(x: bytes)
    requires |x| <= 0x1000
    ensures FromBytes(Response(TPM_ST_SESSIONS, 0, WithAck(Sized(x), 0)), ReadSized) == Ok(x)
    ensures |WithAck(Sized(x), 0)| <= 0x8004
  {
    hide Response, FromBytes, Sized, ReadSized;
    forall d: bytes, c: nat | At(d, c, Sized(x))
      ensures ReadSized(d, c) == Ok((x, c + |Sized(x)|))
    {
      ReadSizedIsExact(d, c, x, c + |Sized(x)|);
    }
    ParamsAreParsed(TPM_ST_SESSIONS, Sized(x), [0, 0, 0, 0, 0], ReadSized, x);
  }

  lemma {:induction false} NvReadChunkWithHonest(device: Device, env: Env, s0: State, log: seq<bytes>, i: u32,
                                                 size: u16, offset: u16)
    requires Behaves(device, env, s0)
    ensures var s := StateAfter(env, s0, log);
            var c := NvReadCommand(i, size, offset);
            var x := NvReadChunk(device, log, i, size, offset);
            x.sent == log + [c] && StateAfter(env, s0, x.sent) == s &&
            x.result == if Retried(env, log, c) then Err(TpmRc(RC_RETRY)) else NvReadOutcome(s, i, size, offset)
  {
    hide Command, Body, BE16, GetBE16, Exchange, StateAfter, Behaves, FromBytes, Sized, ReadSized, Response, WithAck;
    var s := StateAfter(env, s0, log);
    var params := BE16(size) + BE16(offset);
    OneSessionBody([RH_OWNER, i], PwSession([]), params);
    TwoWords(size, offset);
    if NvReadOutcome(s, i, size, offset).Ok? {
      SizedIsParsed(s.nv[i].data[offset..offset + size]);
    }
    ExchangeWithHonest(device, env, s0, log, CC_NV_READ, [RH_OWNER, i], Auth([PwSession([])]), params);
  }

  /** The outcome of NV_Write for the client's command: the new entry, or an error. */
  function NvWriteOutcome(s: State, i: u32, x: bytes, offset: nat): Result<NvEntry, Error> {
    if i !in s.nv then Err(TpmRc(RC_HANDLE))
    else if |x| > MAX_NV_BUFFER then Err(TpmRc(RC_SIZE))
    else if offset + |x| > |s.nv[i].data| then Err(TpmRc(RC_NV_RANGE))
    else Ok(s.nv[i].(written := true, data := Spliced(s.nv[i].data, offset, x)))
  }

  lemma WriteParams(x: bytes, offset: u16)
    requires |x| < 0x1_0000
    ensures var d := Sized(x) + BE16(offset);
            ReadSized(d, 0) == Ok((x, 2 + |x|)) && |d| == 4 + |x| && GetBE16(d, 2 + |x|) == offset
  {
    hide BE16, GetBE16, ReadSized;
    var d := Sized(x) + BE16(offset);
    assert At(d, 0, d);
    AtConcat(d, 0, Sized(x), BE16(offset));
    ReadSizedIsExact(d, 0, x, 2 + |x|);
    BE16At(d, 2 + |x|, offset);
  }

  lemma WrittenIsParsed()
    ensures NvWritten(Ok(Response(TPM_ST_SESSIONS, 0, WithAck([], 0)))) == Ok(())
    ensures |WithAck([], 0)| == 9
  {
    hide Response, GetBE32, GetBE16, BE32;
    var body := WithAck([], 0);
    ResponseHeader(TPM_ST_SESSIONS, 0, body);
    var d := Response(TPM_ST_SESSIONS, 0, body);
    AtConcat(d, HEADER_LEN, BE32(0), [] + [0, 0, 0, 0, 0]);
    ReadU32IsExact(d, HEADER_LEN, 0);
  }

  lemma {:induction false} NvWriteChunkWithHonest(device: Device, env: Env, s0: State, log: seq<bytes>, i: u32,
                                                  x: bytes, offset: u16)
    requires Behaves(device, env, s0) && |x| <= 1024
    ensures var s := StateAfter(env, s0, log);
            var c := NvWriteCommand(i, x, offset);
            var run := NvWriteChunk(device, log, i, x, offset);
            run.sent == log + [c] &&
            if Retried(env, log, c) then run.result == Err(TpmRc(RC_RETRY)) && StateAfter(env, s0, run.sent) == s
            else match NvWriteOutcome(s, i, x, offset)
                 case Err(e) => run.result == Err(e) && StateAfter(env, s0, run.sent) == s
                 case Ok(entry) => run.result == Ok(()) && StateAfter(env, s0, run.sent) == s.(nv := s.nv[i := entry])
  {
    hide Command, Body, BE16, GetBE16, Exchange, StateAfter, Behaves, Sized, ReadSized, Response, WithAck, NvWritten,
         Spliced;
    var s := StateAfter(env, s0, log);
    var params := Sized(x) + BE16(offset);
    OneSessionBody([RH_OWNER, i], PwSession([]), params);
    WriteParams(x, offset);
    WrittenIsParsed();
    ExchangeWithHonest(device, env, s0, log, CC_NV_WRITE, [RH_OWNER, i], Auth([PwSession([])]), params);
    assert forall e: Error :: NvWritten(Err(e)) == Err(e) by {
      ErrorIsKept();
    }
  }

  lemma ErrorIsKept()
    ensures forall e: Error :: NvWritten(Err(e)) == Err(e)
  {
  }

  // ---------------------------------------------------------------- all chunks

  /** The state with the bytes of `data` from `offset` to `end` written to index `i`, if there are any. */
  function WithBytes(s: State, i: u32, data: bytes, offset: nat, end: nat): State
    requires i in s.nv && offset <= end <= |data| <= |s.nv[i].data|
  {
    if offset == end then s else
    s.(nv := s.nv[i := s.nv[i].(written := true, data := Spliced(s.nv[i].data, offset, data[offset..end]))])
  }

  lemma SplicesJoin(was: bytes, data: bytes, a: nat, b: nat, c: nat)
    requires a <= b <= c <= |data| <= |was|
    ensures Spliced(Spliced(was, a, data[a..b]), b, data[b..c]) == Spliced(was, a, data[a..c])
  {
    assert data[a..c] == data[a..b] + data[b..c];
  }

  lemma WithBytesJoin(s: State, i: u32, data: bytes, a: nat, b: nat, c: nat)
    requires i in s.nv && a < b <= c <= |data| <= |s.nv[i].data|
    ensures WithBytes(WithBytes(s, i, data, a, b), i, data, b, c) == WithBytes(s, i, data, a, c)
  {
    hide Spliced;
    SplicesJoin(s.nv[i].data, data, a, b, c);
    var t := WithBytes(s, i, data, a, b);
    var e := s.nv[i].(written := true, data := Spliced(s.nv[i].data, a, data[a..c]));
    if b < c {
      assert t.nv[i := e] == s.nv[i := e];
    }
  }

  /**
   The write loop: when it ends well all bytes from the offset on are written; when a command fails,
   exactly the chunks before it. The only error is the TPM's.
   */
  lemma {:induction false} NvWriteFromWithHonest(device: Device, env: Env, s0: State, log: seq<bytes>, i: u32,
                                                 data: bytes, offset: nat)
    requires Behaves(device, env, s0)
    requires var s := StateAfter(env, s0, log);
             i in s.nv && offset <= |data| <= |s.nv[i].data| && |data| <= U16_MAX
    ensures var s := StateAfter(env, s0, log);
            var x := NvWriteFrom(device, log, i, data, offset);
            var n := |x.sent| - |log|;
            n >= 0 &&
            match x.result
            case Ok(_) => StateAfter(env, s0, x.sent) == WithBytes(s, i, data, offset, |data|)
            case Err(e) => e == TpmRc(RC_RETRY) && n >= 1 && env.fails(x.sent) &&
                           offset + 1024 * (n - 1) < |data| &&
                           StateAfter(env, s0, x.sent) == WithBytes(s, i, data, offset, offset + 1024 * (n - 1))
    decreases |data| - offset
  {
    hide NvWriteChunk, NvWriteCommand, StateAfter, Behaves, WithBytes, Spliced;
    var s := StateAfter(env, s0, log);
    if offset < |data| {
      var chunk := ChunkAt(|data|, offset);
      var part := data[offset..offset + chunk];
      NvWriteChunkWithHonest(device, env, s0, log, i, part, offset);
      var x := NvWriteChunk(device, log, i, part, offset);
      if x.result.Ok? {
        OneChunk(s, i, data, offset, offset + chunk);
        WithBytesKeepsSize(s, i, data, offset, offset + chunk);
        NvWriteFromWithHonest(device, env, s0, x.sent, i, data, offset + chunk);
        var rest := NvWriteFrom(device, x.sent, i, data, offset + chunk);
        var m := |rest.sent| - |x.sent|;
        if rest.result.Ok? {
          WithBytesJoin(s, i, data, offset, offset + chunk, |data|);
        } else {
          WithBytesJoin(s, i, data, offset, offset + chunk, offset + chunk + 1024 * (m - 1));
        }
      } else {
        NothingWritten(s, i, data, offset);
      }
    } else {
      NothingWritten(s, i, data, offset);
    }
  }

  lemma OneChunk(s: State, i: u32, data: bytes, a: nat, b: nat)
    requires i in s.nv && a < b <= |data| <= |s.nv[i].data| && b - a <= MAX_NV_BUFFER
    ensures NvWriteOutcome(s, i, data[a..b], a).Ok?
    ensures s.(nv := s.nv[i := NvWriteOutcome(s, i, data[a..b], a).value]) == WithBytes(s, i, data, a, b)
  {
    hide Spliced;
  }

  lemma WithBytesKeepsSize(s: State, i: u32, data: bytes, a: nat, b: nat)
    requires i in s.nv && a <= b <= |data| <= |s.nv[i].data|
    ensures i in WithBytes(s, i, data, a, b).nv && |WithBytes(s, i, data, a, b).nv[i].data| == |s.nv[i].data|
  {
    hide Spliced;
  }

  lemma NothingWritten(s: State, i: u32, data: bytes, a: nat)
    requires i in s.nv && a <= |data| <= |s.nv[i].data|
    ensures WithBytes(s, i, data, a, a) == s
  {
  }

  /** The read loop: the bytes from the offset on, in order, or the TPM's error; nothing is changed. */
  lemma {:induction false} NvReadFromWithHonest(device: Device, env: Env, s0: State, log: seq<bytes>, i: u32,
                                                offset: nat, data: bytes)
    requires Behaves(device, env, s0)
    requires var s := StateAfter(env, s0, log);
             i in s.nv && offset <= |s.nv[i].data| <= U16_MAX && (s.nv[i].written || offset == |s.nv[i].data|)
    ensures var s := StateAfter(env, s0, log);
            var x := NvReadFrom(device, log, i, |s.nv[i].data|, offset, data);
            StateAfter(env, s0, x.sent) == s &&
            match x.result
            case Ok(all) => all == data + s.nv[i].data[offset..]
            case Err(e) => e == TpmRc(RC_RETRY) && env.fails(x.sent)
    decreases |StateAfter(env, s0, log).nv[i].data| - offset
  {
    hide NvReadChunk, NvReadCommand, StateAfter, Behaves;
    var s := StateAfter(env, s0, log);
    var total := |s.nv[i].data|;
    if offset < total {
      var chunk := ChunkAt(total, offset);
      NvReadChunkWithHonest(device, env, s0, log, i, chunk, offset);
      var x := NvReadChunk(device, log, i, chunk, offset);
      if x.result.Ok? {
        NvReadFromWithHonest(device, env, s0, x.sent, i, offset + chunk, data + x.result.value);
        assert s.nv[i].data[offset..] == s.nv[i].data[offset..offset + chunk] + s.nv[i].data[offset + chunk..];
      }
    } else {
      assert data + s.nv[i].data[offset..] == data;
    }
  }

  // ---------------------------------------------------------------- the two operations

  /** With `n` commands sent: already the first, for the public area, failed, or the one for chunk `k`. */
  predicate StoppedAt(k: nat, n: int, length: nat) {
    (n == 1 && k == 0) || (n == k + 2 && 1024 * k < length)
  }

  /**
   `write_nv_index`: on success the index holds `data` followed by what was behind it, as one splice would
   leave it. On a failure of the TPM in the k-th chunk exactly the first 1024 * k bytes are written. No
   other index, session, key or PCR changes in either case.
   */
  lemma {:induction false} WriteNvIsOneSplice(device: Device, env: Env, s0: State, log: seq<bytes>, i: u32, data: bytes)
    requires Behaves(device, env, s0) && ValidEnv(env) && ValidState(s0)
    requires i in StateAfter(env, s0, log).nv && |data| <= |StateAfter(env, s0, log).nv[i].data|
    ensures var s := StateAfter(env, s0, log);
            var x := WriteNv(device, log, i, data);
            match x.result
            case Ok(_) => StateAfter(env, s0, x.sent) == WithBytes(s, i, data, 0, |data|)
            case Err(e) => e == TpmRc(RC_RETRY) && env.fails(x.sent) &&
                           exists k: nat :: 1024 * k <= |data| && StoppedAt(k, |x.sent| - |log|, |data|) &&
                                            StateAfter(env, s0, x.sent) == WithBytes(s, i, data, 0, 1024 * k)
  {
    hide NvReadPublic, NvWriteFrom, StateAfter, Behaves, ValidState, ValidEnv, WithBytes;
    var s := StateAfter(env, s0, log);
    RunsKeepState(env, s0, log);
    EntrySize(s, i);
    NvReadPublicWithHonest(device, env, s0, log, i);
    var p := NvReadPublic(device, log, i);
    NothingWritten(s, i, data, 0);
    if p.result.Ok? {
      NvWriteFromWithHonest(device, env, s0, p.sent, i, data, 0);
      var x := NvWriteFrom(device, p.sent, i, data, 0);
      if x.result.Err? {
        var k := |x.sent| - |p.sent| - 1;
        assert 1024 * k <= |data| && StoppedAt(k, |x.sent| - |log|, |data|) &&
               StateAfter(env, s0, x.sent) == WithBytes(s, i, data, 0, 1024 * k);
      }
    } else {
      var k := 0;
      assert StoppedAt(k, |p.sent| - |log|, |data|) &&
             StateAfter(env, s0, p.sent) == WithBytes(s, i, data, 0, 1024 * k);
    }
  }

  /** `read_nv_index`: all bytes of a written index, whatever their number; nothing changes. */
  lemma {:induction false} ReadNvIsTheIndex(device: Device, env: Env, s0: State, log: seq<bytes>, i: u32)
    requires Behaves(device, env, s0) && ValidEnv(env) && ValidState(s0)
    requires i in StateAfter(env, s0, log).nv
    requires StateAfter(env, s0, log).nv[i].written || StateAfter(env, s0, log).nv[i].data == []
    ensures var s := StateAfter(env, s0, log);
            var x := ReadNv(device, log, i);
            StateAfter(env, s0, x.sent) == s &&
            match x.result
            case Ok(all) => all == s.nv[i].data
            case Err(e) => e == TpmRc(RC_RETRY) && env.fails(x.sent)
  {
    hide NvReadPublic, NvReadFrom, StateAfter, Behaves, ValidState, ValidEnv;
    var s := StateAfter(env, s0, log);
    RunsKeepState(env, s0, log);
    EntrySize(s, i);
    NvReadPublicWithHonest(device, env, s0, log, i);
    var p := NvReadPublic(device, log, i);
    if p.result.Ok? {
      NvReadFromWithHonest(device, env, s0, p.sent, i, 0, []);
      assert [] + s.nv[i].data[0..] == s.nv[i].data;
    }
  }

  lemma WrittenFromStart(s: State, i: u32, data: bytes)
    requires i in s.nv && |data| <= |s.nv[i].data|
    ensures var t := WithBytes(s, i, data, 0, |data|);
            i in t.nv && t.nv[i].data == data + s.nv[i].data[|data|..] &&
            (t.nv[i].written <==> s.nv[i].written || data != [])
  {
    assert data[0..|data|] == data;
    assert s.nv[i].data[..0] + data == data;
  }

  /**
   Writing and then reading an index gives the data and what was behind them, unless a command fails for a
   passing reason; the one that stopped the write or the read is then the last that was sent.
   */
  lemma {:induction false} WriteThenRead(device: Device, env: Env, s0: State, log: seq<bytes>, i: u32, data: bytes)
    requires Behaves(device, env, s0) && ValidEnv(env) && ValidState(s0)
    requires i in StateAfter(env, s0, log).nv && |data| <= |StateAfter(env, s0, log).nv[i].data|
    requires StateAfter(env, s0, log).nv[i].written || data != [] || StateAfter(env, s0, log).nv[i].data == []
    ensures var was := StateAfter(env, s0, log).nv[i].data;
            var w := WriteNv(device, log, i, data);
            var r := ReadNv(device, w.sent, i);
            if w.result.Err? then env.fails(w.sent)
            else if r.result.Err? then env.fails(r.sent)
            else r.result.value == data + was[|data|..]
  {
    hide WriteNv, ReadNv, StateAfter, Behaves, ValidState, ValidEnv, WithBytes;
    var s := StateAfter(env, s0, log);
    WriteNvIsOneSplice(device, env, s0, log, i, data);
    var w := WriteNv(device, log, i, data);
    if w.result.Ok? {
      WrittenFromStart(s, i, data);
      ReadNvIsTheIndex(device, env, s0, w.sent, i);
    }
  }
}
