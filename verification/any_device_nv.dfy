/**
 NV reads and writes on any device: the commands that go out, chunk after chunk, and what a read makes of the
 answers, whatever their lengths.
 */
module AnyDeviceNv {
  import opened Bytes
  import opened Errors
  import opened Wire
  import opened Framing
  import opened Commands
  import opened AnyDevice
  import opened HonestTpm
  import HonestNv

  // ---------------------------------------------------------------- one command

  lemma ReadSizedErrors(d: bytes, c: nat)
    ensures ReadSized(d, c).Err? ==> ReadSized(d, c).error == UnexpectedEof
  {
    hide GetBE16;
  }

  lemma NvReadChunkSends(device: Device, sent: seq<bytes>, index: u32, size: nat, offset: nat)
    ensures var x := NvReadChunk(device, sent, index, size, offset);
            x.sent == sent + [NvReadCommand(index, size, offset)] && (x.result.Err? ==> !Internal(x.result.error))
  {
    hide Command, Body, GetBE32, GetBE16, BE16, Exchange, CheckRc;
    var params := BE16(size) + BE16(offset);
    OneSessionBody([RH_OWNER, index], PwSession([]), params);
    ExchangeSends(device, sent, CC_NV_READ, [RH_OWNER, index], Auth([PwSession([])]), params);
    ExchangeErrors(device, sent, NvReadCommand(index, size, offset));
    var x := Exchange(device, sent, NvReadCommand(index, size, offset));
    if x.result.Ok? {
      ReadSizedErrors(x.result.value, HEADER_LEN);
      ReadSizedErrors(x.result.value, HEADER_LEN + 4);
    }
  }

  lemma NvWriteChunkSends(device: Device, sent: seq<bytes>, index: u32, chunk: bytes, offset: nat)
    requires |chunk| <= 1024
    ensures var x := NvWriteChunk(device, sent, index, chunk, offset);
            x.sent == sent + [NvWriteCommand(index, chunk, offset)] && (x.result.Err? ==> !Internal(x.result.error))
  {
    hide Command, Body, GetBE32, GetBE16, BE16, Exchange, CheckRc;
    var params := Sized(chunk) + BE16(offset);
    OneSessionBody([RH_OWNER, index], PwSession([]), params);
    ExchangeSends(device, sent, CC_NV_WRITE, [RH_OWNER, index], Auth([PwSession([])]), params);
    ExchangeErrors(device, sent, NvWriteCommand(index, chunk, offset));
  }

  lemma NvReadPublicSends(device: Device, sent: seq<bytes>, index: u32)
    ensures var x := NvReadPublic(device, sent, index);
            x.sent == sent + [NvReadPublicCommand(index)] && (x.result.Err? ==> !Internal(x.result.error))
  {
    hide Command, Body, GetBE32, GetBE16, BE32, Exchange, CheckRc, ReadNvInner, ReadSized;
    NoAuthBody([], BE32(index));
    ExchangeSends(device, sent, CC_NV_READ_PUBLIC, [], NoAuth, BE32(index));
    ExchangeErrors(device, sent, NvReadPublicCommand(index));
    var x := Exchange(device, sent, NvReadPublicCommand(index));
    if x.result.Ok? {
      NvPublicErrors(x.result.value, HEADER_LEN);
      NvPublicErrors(x.result.value, HEADER_LEN + 4);
    }
  }

  lemma NvPublicErrors(d: bytes, c: nat)
    ensures ReadNvPublic(d, c).Err? ==> ReadNvPublic(d, c).error == UnexpectedEof
  {
    hide GetBE16, GetBE32;
  }

  /** A write is taken for done exactly when the response says success and holds the parameters it announces. */
  lemma WrittenExactly(d: bytes)
    ensures NvWritten(Ok(d)).Ok? <==>
            HeaderTaken(d) && (BigEndian(d[0..2]) == 0x8002 ==> |d| >= 14 && 14 + BigEndian(d[10..14]) <= |d|)
  {
    hide GetBE16, GetBE32, BigEndian;
    HeaderTakenExactly(d);
    ReadersAreBigEndian(d, 10);
  }

  // ---------------------------------------------------------------- the chunks

  /** The number of chunks that `n` bytes take. */
  function Chunks(n: nat): nat {
    (n + 1023) / 1024
  }

  /** Where chunk `k` of `total` bytes begins. */
  function OffsetOf(total: nat, k: nat): (r: nat)
    ensures r <= total
  {
    if 1024 * k <= total then 1024 * k else total
  }

  lemma NextOffset(total: nat, k: nat)
    ensures k < Chunks(total) <==> OffsetOf(total, k) < total
    ensures k < Chunks(total) ==> OffsetOf(total, k + 1) == OffsetOf(total, k) + ChunkAt(total, OffsetOf(total, k))
    ensures OffsetOf(total, Chunks(total)) == total
  {
  }

  /** The commands of a read, up to the first `n` chunks: each asks for its own piece, and the pieces tile the range. */
  function ReadsSent(sent: seq<bytes>, index: u32, total: nat, n: nat): seq<bytes> {
    if n == 0 then sent else
    var offset := OffsetOf(total, n - 1);
    ReadsSent(sent, index, total, n - 1) + [NvReadCommand(index, ChunkAt(total, offset), offset)]
  }

  /** The commands of a write, up to the first `n` chunks: each carries its own piece of the data. */
  function WritesSent(sent: seq<bytes>, index: u32, data: bytes, n: nat): seq<bytes> {
    if n == 0 then sent else
    var offset := OffsetOf(|data|, n - 1);
    WritesSent(sent, index, data, n - 1) +
    [NvWriteCommand(index, data[offset..offset + ChunkAt(|data|, offset)], offset)]
  }

  /** What the device answers to the read of chunk `k`. */
  function AnswerAt(device: Device, sent: seq<bytes>, index: u32, total: nat, k: nat): Result<bytes, Error> {
    var offset := OffsetOf(total, k);
    NvReadChunk(device, ReadsSent(sent, index, total, k), index, ChunkAt(total, offset), offset).result
  }

  /** The chunks from `k` up to `n` were all answered. */
  ghost predicate AllAnswered(device: Device, sent: seq<bytes>, index: u32, total: nat, k: nat, n: nat) {
    forall j | k <= j < n :: AnswerAt(device, sent, index, total, j).Ok?
  }

  lemma OneMoreAnswered(device: Device, sent: seq<bytes>, index: u32, total: nat, k: nat, n: nat)
    ensures AllAnswered(device, sent, index, total, n, n)
    ensures AnswerAt(device, sent, index, total, k).Ok? && AllAnswered(device, sent, index, total, k + 1, n) ==>
            AllAnswered(device, sent, index, total, k, n)
  {
    hide AnswerAt;
  }

  /** The first `n` answers put together in order. */
  function Joined(device: Device, sent: seq<bytes>, index: u32, total: nat, n: nat): bytes {
    if n == 0 then [] else
    var part := AnswerAt(device, sent, index, total, n - 1);
    Joined(device, sent, index, total, n - 1) + if part.Ok? then part.value else []
  }

  lemma {:induction false} SentSoFar(sent: seq<bytes>, index: u32, total: nat, data: bytes, n: nat)
    ensures |ReadsSent(sent, index, total, n)| == |sent| + n && |WritesSent(sent, index, data, n)| == |sent| + n
    decreases n
  {
    hide NvReadCommand, NvWriteCommand;
    if n > 0 {
      SentSoFar(sent, index, total, data, n - 1);
    }
  }

  /** One turn of the read loop. */
  lemma NvReadStep(device: Device, sent: seq<bytes>, index: u32, total: u16, k: nat)
    requires k < Chunks(total)
    ensures var log, next := ReadsSent(sent, index, total, k), ReadsSent(sent, index, total, k + 1);
            var x := NvReadFrom(device, log, index, total, OffsetOf(total, k), Joined(device, sent, index, total, k));
            match AnswerAt(device, sent, index, total, k)
            case Err(e) => x == Run(Err(e), next) && !Internal(e)
            case Ok(_) => x == NvReadFrom(device, next, index, total, OffsetOf(total, k + 1),
                                          Joined(device, sent, index, total, k + 1))
  {
    hide NvReadChunk, NvReadCommand, Chunks, OffsetOf, ChunkAt;
    var log, offset := ReadsSent(sent, index, total, k), OffsetOf(total, k);
    NextOffset(total, k);
    NvReadChunkSends(device, log, index, ChunkAt(total, offset), offset);
  }

  lemma {:induction false} NvReadStops(device: Device, sent: seq<bytes>, index: u32, total: u16, data: bytes)
    ensures NvReadFrom(device, sent, index, total, OffsetOf(total, Chunks(total)), data) == Run(Ok(data), sent)
  {
    NextOffset(total, 0);
  }

  /**
   The read loop from chunk `k`, with the answers before it collected: on success all answers in order; on a
   failure the error of the chunk whose command was the last.
   */
  lemma {:induction false} NvReadFromJoins(device: Device, sent: seq<bytes>, index: u32, total: u16, k: nat)
    requires k <= Chunks(total)
    ensures var x := NvReadFrom(device, ReadsSent(sent, index, total, k), index, total, OffsetOf(total, k),
                                Joined(device, sent, index, total, k));
            var n := |x.sent| - |sent|;
            k <= n <= Chunks(total) && x.sent == ReadsSent(sent, index, total, n) &&
            match x.result
            case Ok(all) => n == Chunks(total) && AllAnswered(device, sent, index, total, k, n) &&
                            all == Joined(device, sent, index, total, n)
            case Err(e) => !Internal(e) && n > k && AnswerAt(device, sent, index, total, n - 1) == Err(e)
    decreases Chunks(total) - k
  {
    hide *;
    SentSoFar(sent, index, total, [], k);
    if k < Chunks(total) {
      SentSoFar(sent, index, total, [], k + 1);
      NvReadStep(device, sent, index, total, k);
      if AnswerAt(device, sent, index, total, k).Ok? {
        NvReadFromJoins(device, sent, index, total, k + 1);
        OneMoreAnswered(device, sent, index, total, k, Chunks(total));
      }
    } else {
      OneMoreAnswered(device, sent, index, total, k, k);
      NvReadStops(device, ReadsSent(sent, index, total, k), index, total, Joined(device, sent, index, total, k));
    }
  }

  /** One turn of the write loop. */
  lemma NvWriteStep(device: Device, sent: seq<bytes>, index: u32, data: bytes, k: nat)
    requires |data| <= U16_MAX && k < Chunks(|data|)
    ensures var log, next := WritesSent(sent, index, data, k), WritesSent(sent, index, data, k + 1);
            var x := NvWriteFrom(device, log, index, data, OffsetOf(|data|, k));
            (x.sent == next && x.result.Err? && !Internal(x.result.error)) ||
            x == NvWriteFrom(device, next, index, data, OffsetOf(|data|, k + 1))
  {
    hide NvWriteChunk, NvWriteCommand, Chunks, OffsetOf;
    var log, offset := WritesSent(sent, index, data, k), OffsetOf(|data|, k);
    NextOffset(|data|, k);
    var chunk := ChunkAt(|data|, offset);
    hide ChunkAt;
    NvWriteChunkSends(device, log, index, data[offset..offset + chunk], offset);
  }

  lemma {:induction false} NvWriteStops(device: Device, sent: seq<bytes>, index: u32, data: bytes)
    ensures NvWriteFrom(device, sent, index, data, OffsetOf(|data|, Chunks(|data|))) == Run(Ok(()), sent)
  {
    NextOffset(|data|, 0);
  }

  lemma {:induction false} NvWriteFromTiles(device: Device, sent: seq<bytes>, index: u32, data: bytes, k: nat)
    requires |data| <= U16_MAX && k <= Chunks(|data|)
    ensures var x := NvWriteFrom(device, WritesSent(sent, index, data, k), index, data, OffsetOf(|data|, k));
            var n := |x.sent| - |sent|;
            k <= n <= Chunks(|data|) && x.sent == WritesSent(sent, index, data, n) &&
            match x.result
            case Ok(_) => n == Chunks(|data|)
            case Err(e) => !Internal(e) && n > k
    decreases Chunks(|data|) - k
  {
    hide *;
    SentSoFar(sent, index, 0, data, k);
    if k < Chunks(|data|) {
      SentSoFar(sent, index, 0, data, k + 1);
      NvWriteStep(device, sent, index, data, k);
      NvWriteFromTiles(device, sent, index, data, k + 1);
    } else {
      NvWriteStops(device, WritesSent(sent, index, data, k), index, data);
    }
  }

  lemma {:induction false} BeforeChunks(device: Device, sent: seq<bytes>, index: u32, total: nat, data: bytes)
    ensures OffsetOf(total, 0) == 0 && OffsetOf(|data|, 0) == 0
    ensures ReadsSent(sent, index, total, 0) == sent && WritesSent(sent, index, data, 0) == sent
    ensures Joined(device, sent, index, total, 0) == []
  {
  }

  // ---------------------------------------------------------------- the two operations

  /**
   `read_nv_index` on any device: behind the command for the public area the commands of the chunks go out in
   order, all of them if the read succeeds; the result is then the answers put together in order. The only errors
   are the device's, so the 16-bit offset never overflows.
   */
  lemma {:induction false} NvReadOnAnyDevice(device: Device, sent: seq<bytes>, index: u32)
    ensures var p := NvReadPublic(device, sent, index);
            var x := ReadNv(device, sent, index);
            p.sent == sent + [NvReadPublicCommand(index)] && (x.result.Err? ==> !Internal(x.result.error)) &&
            match p.result
            case Err(e) => x == Run(Err(e), p.sent)
            case Ok(public) =>
              var total := public.dataSize;
              var n := |x.sent| - |p.sent|;
              0 <= n <= Chunks(total) && x.sent == ReadsSent(p.sent, index, total, n) &&
              match x.result
              case Ok(all) => n == Chunks(total) && AllAnswered(device, p.sent, index, total, 0, n) &&
                              all == Joined(device, p.sent, index, total, n)
              case Err(e) => n > 0 && AnswerAt(device, p.sent, index, total, n - 1) == Err(e)
  {
    hide NvReadPublic, NvReadFrom, NvReadPublicCommand, AnswerAt, AllAnswered, Chunks, OffsetOf, ReadsSent, Joined;
    NvReadPublicSends(device, sent, index);
    var p := NvReadPublic(device, sent, index);
    if p.result.Ok? {
      BeforeChunks(device, p.sent, index, p.result.value.dataSize, []);
      NvReadFromJoins(device, p.sent, index, p.result.value.dataSize, 0);
    }
  }

  /**
   `write_nv_index` on any device: data larger than the index are refused before anything is written; otherwise the
   commands that go out carry the data piece by piece, all of them if the write succeeds.
   */
  lemma {:induction false} NvWriteOnAnyDevice(device: Device, sent: seq<bytes>, index: u32, data: bytes)
    ensures var p := NvReadPublic(device, sent, index);
            var x := WriteNv(device, sent, index, data);
            p.sent == sent + [NvReadPublicCommand(index)] &&
            match p.result
            case Err(e) => x == Run(Err(e), p.sent) && !Internal(e)
            case Ok(public) =>
              if |data| > public.dataSize then x == Run(Err(InvalidInput), p.sent)
              else
                var n := |x.sent| - |p.sent|;
                0 <= n <= Chunks(|data|) && x.sent == WritesSent(p.sent, index, data, n) &&
                match x.result
                case Ok(_) => n == Chunks(|data|)
                case Err(e) => n > 0 && !Internal(e)
  {
    hide NvReadPublic, NvWriteFrom, NvReadPublicCommand, Chunks, OffsetOf, WritesSent;
    NvReadPublicSends(device, sent, index);
    var p := NvReadPublic(device, sent, index);
    if p.result.Ok? && |data| <= p.result.value.dataSize {
      BeforeChunks(device, p.sent, index, 0, data);
      NvWriteFromTiles(device, p.sent, index, data, 0);
    }
  }

  // ---------------------------------------------------------------- lengths

  /** The device answers chunk `k` with as many bytes as were asked for. */
  predicate AnswersAsAsked(device: Device, sent: seq<bytes>, index: u32, total: nat, k: nat) {
    var part := AnswerAt(device, sent, index, total, k);
    part.Ok? ==> |part.value| == ChunkAt(total, OffsetOf(total, k))
  }

  lemma {:induction false} JoinedLength(device: Device, sent: seq<bytes>, index: u32, total: nat, n: nat)
    requires n <= Chunks(total)
    requires AllAnswered(device, sent, index, total, 0, n)
    requires forall k | 0 <= k < n :: AnswersAsAsked(device, sent, index, total, k)
    ensures |Joined(device, sent, index, total, n)| == OffsetOf(total, n)
    decreases n
  {
    hide AnswerAt, OffsetOf, ChunkAt, Chunks;
    if n > 0 {
      JoinedLength(device, sent, index, total, n - 1);
      NextOffset(total, n - 1);
      assert AnswersAsAsked(device, sent, index, total, n - 1);
    } else {
      BeforeChunks(device, sent, index, total, []);
    }
  }

  /**
   So if the device answers every chunk with as many bytes as were asked for, a read has just the size of the
   index.
   */
  lemma ReadHasTheSize(device: Device, sent: seq<bytes>, index: u32)
    requires NvReadPublic(device, sent, index).result.Ok? && ReadNv(device, sent, index).result.Ok?
    requires var p := NvReadPublic(device, sent, index);
             forall k | 0 <= k < Chunks(p.result.value.dataSize) ::
               AnswersAsAsked(device, p.sent, index, p.result.value.dataSize, k)
    ensures |ReadNv(device, sent, index).result.value| == NvReadPublic(device, sent, index).result.value.dataSize
  {
    hide NvReadPublic, ReadNv, NvReadPublicCommand, Joined, ReadsSent, Chunks, AnswerAt, AnswersAsAsked, AllAnswered;
    var p := NvReadPublic(device, sent, index);
    var total := p.result.value.dataSize;
    NvReadOnAnyDevice(device, sent, index);
    NextOffset(total, 0);
    JoinedLength(device, p.sent, index, total, Chunks(total));
  }

  /**
   A device that answers NV_ReadPublic with `p`, and any other command with the same bytes, whatever was asked
   for.
   */
  function Stubborn(p: NvPublic, name: bytes, part: bytes): Device {
    (log: seq<bytes>) =>
      if log != [] && CodeOf(log[|log| - 1]) == CC_NV_READ_PUBLIC
      then Some(Response(TPM_ST_NO_SESSIONS, 0, HonestNv.PublicParams(p, name)))
      else Some(Response(TPM_ST_SESSIONS, 0, WithAck(Sized(part), 0)))
  }

  lemma StubbornPublic(p: NvPublic, name: bytes, part: bytes, sent: seq<bytes>, index: u32)
    requires |p.authPolicy| <= 64 && |name| == 34
    ensures NvReadPublic(Stubborn(p, name, part), sent, index).result == Ok(p)
  {
    hide Command, Body, BE32, GetBE32, Response, HonestNv.PublicParams, WithAck, FromBytes, Wire.ReadNvPublic, CodeOf,
         TransmitAccepts;
    NoAuthBody([], BE32(index));
    ExchangeSends(Stubborn(p, name, part), sent, CC_NV_READ_PUBLIC, [], NoAuth, BE32(index));
    HonestNv.PublicIsParsed(p, name);
    ResponseHeader(TPM_ST_NO_SESSIONS, 0, HonestNv.PublicParams(p, name));
  }

  lemma StubbornPart(p: NvPublic, name: bytes, part: bytes, sent: seq<bytes>, index: u32, size: nat, offset: nat)
    requires |part| <= 0x1000
    ensures NvReadChunk(Stubborn(p, name, part), sent, index, size, offset).result == Ok(part)
  {
    hide Command, Body, BE16, GetBE32, Response, HonestNv.PublicParams, WithAck, FromBytes, ReadSized, CodeOf,
         TransmitAccepts;
    var params := BE16(size) + BE16(offset);
    OneSessionBody([RH_OWNER, index], PwSession([]), params);
    ExchangeSends(Stubborn(p, name, part), sent, CC_NV_READ, [RH_OWNER, index], Auth([PwSession([])]), params);
    HonestNv.SizedIsParsed(part);
    ResponseHeader(TPM_ST_SESSIONS, 0, WithAck(Sized(part), 0));
  }

  lemma {:induction false} StubbornJoined(p: NvPublic, name: bytes, part: bytes, sent: seq<bytes>, index: u32,
                                          total: nat, n: nat)
    requires |part| <= 0x1000
    ensures |Joined(Stubborn(p, name, part), sent, index, total, n)| == |part| * n
    decreases n
  {
    hide Stubborn, NvReadChunk, ReadsSent;
    if n > 0 {
      var offset := OffsetOf(total, n - 1);
      StubbornPart(p, name, part, ReadsSent(sent, index, total, n - 1), index, ChunkAt(total, offset), offset);
      StubbornJoined(p, name, part, sent, index, total, n - 1);
    }
  }

  /**
   Otherwise the length is the device's: whatever the size of the index, one that answers every chunk with the same
   bytes gets them taken once for each chunk, and the read succeeds.
   */
  lemma LengthIsTheDevices(p: NvPublic, name: bytes, part: bytes, sent: seq<bytes>, index: u32)
    requires |p.authPolicy| <= 64 && |name| == 34 && |part| <= 0x1000
    ensures var x := ReadNv(Stubborn(p, name, part), sent, index);
            x.result.Ok? && |x.result.value| == |part| * Chunks(p.dataSize)
  {
    hide Stubborn, NvReadChunk, NvReadPublic, ReadNv, ReadsSent, Joined, AllAnswered, Chunks, NvReadPublicCommand;
    var device := Stubborn(p, name, part);
    StubbornPublic(p, name, part, sent, index);
    NvReadOnAnyDevice(device, sent, index);
    var log := NvReadPublic(device, sent, index).sent;
    var x := ReadNv(device, sent, index);
    if x.result.Err? {
      var k := |x.sent| - |log| - 1;
      var offset := OffsetOf(p.dataSize, k);
      StubbornPart(p, name, part, ReadsSent(log, index, p.dataSize, k), index, ChunkAt(p.dataSize, offset), offset);
    }
    StubbornJoined(p, name, part, log, index, p.dataSize, Chunks(p.dataSize));
  }
}
