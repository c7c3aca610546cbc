/**
 The client side of the TPM commands: PCR_Read, the NV commands, and the policy
 sessions. Each operation is a method of the device that changes nothing but the
 list of commands sent, and is proved equal to a function of that list and of
 the device's answers.
 */
module Commands {
  import opened Bytes
  import opened Errors
  import opened Algorithms
  import opened Wire
  import opened PcrBitmap
  import opened Framing

  const CC_NV_WRITE: u32 := 0x0000_0137
  const CC_NV_READ: u32 := 0x0000_014E
  const CC_RSA_DECRYPT: u32 := 0x0000_0159
  const CC_FLUSH_CONTEXT: u32 := 0x0000_0165
  const CC_NV_READ_PUBLIC: u32 := 0x0000_0169
  const CC_START_AUTH_SESSION: u32 := 0x0000_0176
  const CC_PCR_READ: u32 := 0x0000_017E
  const CC_POLICY_PCR: u32 := 0x0000_017F
  const CC_POLICY_GET_DIGEST: u32 := 0x0000_0189

  const RH_OWNER: u32 := 0x4000_0001
  const RH_NULL: u32 := 0x4000_0007
  const SE_POLICY: byte := 0x01
  const SE_TRIAL: byte := 0x03
  const ALG_RSAES: u16 := 0x0015
  const ALG_OAEP: u16 := 0x0017
  const NV_CHUNK := 1024
  const U16_MAX := 0xFFFF

  /** A caller nonce is always sixteen bytes. */
  type Nonce = n: bytes | |n| == 16 witness [0, 0, 0, 0, 0, 0, 0, 0, 0, 0, 0, 0, 0, 0, 0, 0]

  /**
   A device: its answer to the last of the commands sent so far, or none if it cannot be reached.
   Any behaviour over time, with any state inside, is such a function of the history.
   */
  type Device = seq<bytes> -> Option<bytes>

  /** What a run answers, and all commands sent by its end. */
  datatype Run<+T> = Run(result: Result<T, Error>, sent: seq<bytes>)

  datatype DecryptScheme = Rsaes | Oaep(hashAlg: u16)

  // ---------------------------------------------------------------- the commands

  function PcrReadCommand(alg: PcrAlgorithm, pcrs: seq<u32>): bytes {
    Command(CC_PCR_READ, [], NoAuth, MarshalSelections(SelectionOf(pcrs, alg.AlgId())))
  }

  function NvReadPublicCommand(index: u32): bytes {
    Command(CC_NV_READ_PUBLIC, [], NoAuth, BE32(index))
  }

  function NvReadCommand(index: u32, size: nat, offset: nat): bytes {
    Command(CC_NV_READ, [RH_OWNER, index], Auth([PwSession([])]), BE16(size) + BE16(offset))
  }

  function NvWriteCommand(index: u32, data: bytes, offset: nat): bytes {
    Command(CC_NV_WRITE, [RH_OWNER, index], Auth([PwSession([])]), Sized(data) + BE16(offset))
  }

  function StartAuthCommand(nonce: Nonce, kind: byte, authHash: u16): bytes {
    Command(CC_START_AUTH_SESSION, [RH_NULL, RH_NULL], NoAuth,
            Sized(nonce) + (Sized([]) + ([kind] + (MarshalSym(SymDefObject(ALG_NULL, 0, 0)) + BE16(authHash)))))
  }

  function PolicyPcrCommand(session: u32, digest: bytes, pcrs: seq<u32>): bytes {
    Command(CC_POLICY_PCR, [session], NoAuth, Sized(digest) + MarshalSelections(SelectionOf(pcrs, ALG_SHA256)))
  }

  function PolicyGetDigestCommand(session: u32): bytes {
    Command(CC_POLICY_GET_DIGEST, [session], NoAuth, [])
  }

  function FlushCommand(handle: u32): bytes {
    Command(CC_FLUSH_CONTEXT, [handle], NoAuth, [])
  }

  function MarshalDecryptScheme(s: DecryptScheme): bytes {
    match s
    case Rsaes => BE16(ALG_RSAES)
    case Oaep(hashAlg) => BE16(ALG_OAEP) + BE16(hashAlg)
  }

  function RsaDecryptCommand(key: u32, cipherText: bytes, scheme: DecryptScheme, session: Session): bytes {
    Command(CC_RSA_DECRYPT, [key], Auth([session]), Sized(cipherText) + (MarshalDecryptScheme(scheme) + Sized([])))
  }

  // ---------------------------------------------------------------- one exchange

  /** `transmit_raw`: a command that fails the check is not sent. */
  function Transmit(device: Device, sent: seq<bytes>, command: bytes): Run<bytes> {
    if !TransmitAccepts(command) then Run(Err(CommandRefused), sent) else
    match device(sent + [command])
    case Some(response) => Run(Ok(response), sent + [command])
    case None => Run(Err(TransportFailed), sent + [command])
  }

  function Checked(r: Result<bytes, Error>): Result<bytes, Error> {
    var d :- r;
    var _ :- CheckRc(d);
    Ok(d)
  }

  /** Sends a command and checks the response code. */
  function Exchange(device: Device, sent: seq<bytes>, command: bytes): Run<bytes> {
    var t := Transmit(device, sent, command);
    Run(Checked(t.result), t.sent)
  }

  function LongEnough(r: Result<bytes, Error>): Result<bytes, Error> {
    var d :- r;
    if |d| < 14 then Err(UnexpectedEof) else Ok(d)
  }

  function Parsed<T>(r: Result<bytes, Error>, read: (bytes, nat) -> Result<(T, nat), Error>): Result<T, Error> {
    var d :- r;
    FromBytes(d, read)
  }

  function FlushContext(device: Device, sent: seq<bytes>, handle: u32): Run<()> {
    var x := Exchange(device, sent, FlushCommand(handle));
    Run(if x.result.Ok? then Ok(()) else Err(x.result.error), x.sent)
  }

  // ---------------------------------------------------------------- reading PCRs

  function ReadPcrParams(d: bytes, c: nat): Result<((Selections, seq<bytes>), nat), Error> {
    var (_, c1) :- ReadU32(d, c);
    var (sels, c2) :- ReadSelections(d, c1);
    var (digests, c3) :- ReadDigestList(d, c2);
    Ok(((sels, digests), c3))
  }

  /**
   The indices a response names, in the order of the bitmap bits, and its digests: as many of the one as of the
   other.
   */
  function PcrsReturned(r: Result<bytes, Error>): (p: Result<(seq<nat>, seq<bytes>), Error>)
    ensures p.Ok? ==> |p.value.0| == |p.value.1|
  {
    var (sels, digests) :- Parsed(LongEnough(r), ReadPcrParams);
    if |AllIndices(sels)| != |digests| then Err(DigestCountMismatch) else Ok((AllIndices(sels), digests))
  }

  datatype Progress = Progress(remaining: set<nat>, collected: map<nat, bytes>)

  /** Takes in what was returned: a digest is kept once, for an index still wanted, and must have the right length. */
  function Absorb(s: Progress, indices: seq<nat>, digests: seq<bytes>, alg: PcrAlgorithm): (r: Result<Progress, Error>)
    requires |indices| == |digests|
    ensures r.Ok? ==> r.value.remaining <= s.remaining
    decreases |indices|
  {
    if indices == [] then Ok(s)
    else if indices[0] !in s.remaining then Absorb(s, indices[1..], digests[1..], alg)
    else if |digests[0]| != alg.DigestLen() then Err(InvalidData)
    else Absorb(Progress(s.remaining - {indices[0]}, s.collected[indices[0] := digests[0]]),
                indices[1..], digests[1..], alg)
  }

  /** One round of PCR_Read; it is an error if nothing wanted came back. */
  function PcrRound(device: Device, sent: seq<bytes>, s: Progress, alg: PcrAlgorithm): (r: Run<Progress>)
    ensures r.result.Ok? ==> r.result.value.remaining < s.remaining
  {
    var x := Exchange(device, sent, PcrReadCommand(alg, Ascending(s.remaining)));
    match PcrsReturned(x.result)
    case Err(e) => Run(Err(e), x.sent)
    case Ok((indices, digests)) =>
      match Absorb(s, indices, digests, alg)
      case Err(e) => Run(Err(e), x.sent)
      case Ok(s') => Run(if s'.remaining == s.remaining then Err(NothingReturned) else Ok(s'), x.sent)
  }

  function PcrRounds(device: Device, sent: seq<bytes>, s: Progress, alg: PcrAlgorithm): Run<map<nat, bytes>>
    decreases s.remaining
  {
    if s.remaining == {} then Run(Ok(s.collected), sent) else
    var x := PcrRound(device, sent, s, alg);
    match x.result
    case Err(e) => Run(Err(e), x.sent)
    case Ok(s') => PcrRounds(device, x.sent, s', alg)
  }

  /** The collected digests in the caller's order. */
  function InOrder(pcrs: seq<u32>, collected: map<nat, bytes>): Result<seq<(u32, bytes)>, Error> {
    if pcrs == [] then Ok([])
    else if pcrs[0] !in collected then Err(PcrMissing(pcrs[0]))
    else
      var rest :- InOrder(pcrs[1..], collected);
      Ok([(pcrs[0], collected[pcrs[0]])] + rest)
  }

  function AsSet(pcrs: seq<u32>): set<nat> {
    set p: nat | p in pcrs
  }

  function ReadPcrs(device: Device, sent: seq<bytes>, alg: PcrAlgorithm, pcrs: seq<u32>): Run<seq<(u32, bytes)>> {
    if exists p :: p in pcrs && p >= PCR_COUNT then Run(Err(InvalidInput), sent) else
    var x := PcrRounds(device, sent, Progress(AsSet(pcrs), map[]), alg);
    match x.result
    case Err(e) => Run(Err(e), x.sent)
    case Ok(collected) => Run(InOrder(pcrs, collected), x.sent)
  }

  // ---------------------------------------------------------------- NV storage

  function NvReadPublic(device: Device, sent: seq<bytes>, index: u32): Run<NvPublic> {
    var x := Exchange(device, sent, NvReadPublicCommand(index));
    match Parsed<(NvPublic, bytes)>(LongEnough(x.result), Wire.ReadNvPublic)
    case Ok((p, _)) => Run(Ok(p), x.sent)
    case Err(e) => Run(Err(e), x.sent)
  }

  function NvReadChunk(device: Device, sent: seq<bytes>, index: u32, size: nat, offset: nat): Run<bytes> {
    var x := Exchange(device, sent, NvReadCommand(index, size, offset));
    Run(Parsed(x.result, ReadSized), x.sent)
  }

  /** `NvWriteResponse::from_bytes`: only that the parameters it announces are there. */
  function NvWritten(r: Result<bytes, Error>): Result<(), Error> {
    var d :- r;
    var tag :- ParseHeader(d);
    if tag == TPM_ST_SESSIONS then
      var (size, start) :- ReadU32(d, HEADER_LEN);
      if start + size > |d| then Err(UnexpectedEof) else Ok(())
    else Ok(())
  }

  function NvWriteChunk(device: Device, sent: seq<bytes>, index: u32, chunk: bytes, offset: nat): Run<()> {
    if |chunk| > U16_MAX then Run(Err(InvalidInput), sent) else
    var x := Exchange(device, sent, NvWriteCommand(index, chunk, offset));
    Run(NvWritten(x.result), x.sent)
  }

  function ChunkAt(total: nat, offset: nat): nat
    requires offset <= total
  {
    if total - offset < NV_CHUNK then total - offset else NV_CHUNK
  }

  function NvReadFrom(device: Device, sent: seq<bytes>, index: u32, total: nat, offset: nat, data: bytes): Run<bytes>
    decreases total - offset
  {
    if offset >= total then Run(Ok(data), sent) else
    var chunk := ChunkAt(total, offset);
    var x := NvReadChunk(device, sent, index, chunk, offset);
    match x.result
    case Err(e) => Run(Err(e), x.sent)
    case Ok(part) =>
      if offset + chunk > U16_MAX then Run(Err(OffsetOverflow), x.sent)
      else NvReadFrom(device, x.sent, index, total, offset + chunk, data + part)
  }

  function ReadNv(device: Device, sent: seq<bytes>, index: u32): Run<bytes> {
    var p := NvReadPublic(device, sent, index);
    match p.result
    case Err(e) => Run(Err(e), p.sent)
    case Ok(public) => NvReadFrom(device, p.sent, index, public.dataSize, 0, [])
  }

  function NvWriteFrom(device: Device, sent: seq<bytes>, index: u32, data: bytes, offset: nat): Run<()>
    decreases |data| - offset
  {
    if offset >= |data| then Run(Ok(()), sent) else
    var chunk := ChunkAt(|data|, offset);
    var x := NvWriteChunk(device, sent, index, data[offset..offset + chunk], offset);
    match x.result
    case Err(e) => Run(Err(e), x.sent)
    case Ok(_) =>
      if offset + chunk > U16_MAX then Run(Err(OffsetOverflow), x.sent)
      else NvWriteFrom(device, x.sent, index, data, offset + chunk)
  }

  function WriteNv(device: Device, sent: seq<bytes>, index: u32, data: bytes): Run<()> {
    var p := NvReadPublic(device, sent, index);
    match p.result
    case Err(e) => Run(Err(e), p.sent)
    case Ok(public) =>
      if |data| > public.dataSize then Run(Err(InvalidInput), p.sent)
      else NvWriteFrom(device, p.sent, index, data, 0)
  }

  // ---------------------------------------------------------------- policy sessions

  /** `StartAuthSessionResponse::from_bytes`: the handle, then the TPM's nonce. */
  function SessionHandle(r: Result<bytes, Error>): Result<u32, Error> {
    var d :- r;
    var tag :- ParseHeader(d);
    var (handle, c) :- ReadU32(d, HEADER_LEN);
    var _ :- ReadParams(d, c, tag, ReadSized);
    Ok(handle)
  }

  function StartAuthSession(device: Device, sent: seq<bytes>, nonce: Option<Nonce>, kind: byte): Run<u32> {
    match nonce
    case None => Run(Err(NoEntropy), sent)
    case Some(n) =>
      var x := Exchange(device, sent, StartAuthCommand(n, kind, ALG_SHA256));
      Run(SessionHandle(LongEnough(x.result)), x.sent)
  }

  function Values(read: seq<(u32, bytes)>): bytes {
    if read == [] then [] else read[0].1 + Values(read[1..])
  }

  function PolicyPcr(device: Device, sha256: bytes -> bytes, sent: seq<bytes>, session: u32, pcrs: seq<u32>): Run<()> {
    if pcrs == [] then Run(Ok(()), sent) else
    var read := ReadPcrs(device, sent, Sha256, pcrs);
    match read.result
    case Err(e) => Run(Err(e), read.sent)
    case Ok(values) =>
      var x := Exchange(device, read.sent, PolicyPcrCommand(session, sha256(Values(values)), pcrs));
      Run(if x.result.Ok? then Ok(()) else Err(x.result.error), x.sent)
  }

  /** What `compute_pcr_policy_digest` does inside its session. */
  function PolicyDigestIn(device: Device, sha256: bytes -> bytes, sent: seq<bytes>, session: u32,
                          pcrs: seq<u32>): Run<bytes> {
    var p := PolicyPcr(device, sha256, sent, session, pcrs);
    match p.result
    case Err(e) => Run(Err(e), p.sent)
    case Ok(_) =>
      var x := Exchange(device, p.sent, PolicyGetDigestCommand(session));
      Run(Parsed(LongEnough(x.result), ReadSized), x.sent)
  }

  function ComputePolicyDigest(device: Device, sha256: bytes -> bytes, sent: seq<bytes>, nonce: Option<Nonce>,
                               pcrs: seq<u32>): Run<bytes> {
    var s := StartAuthSession(device, sent, nonce, SE_TRIAL);
    match s.result
    case Err(e) => Run(Err(e), s.sent)
    case Ok(session) =>
      var x := PolicyDigestIn(device, sha256, s.sent, session, pcrs);
      Run(x.result, FlushContext(device, x.sent, session).sent)
  }

  /** What `rsa_decrypt` does inside its session. */
  function DecryptIn(device: Device, sha256: bytes -> bytes, sent: seq<bytes>, session: u32, key: u32, pcrs: seq<u32>,
                     cipherText: bytes, scheme: DecryptScheme): Run<bytes> {
    var p := PolicyPcr(device, sha256, sent, session, pcrs);
    match p.result
    case Err(e) => Run(Err(e), p.sent)
    case Ok(_) => Transmit(device, p.sent, RsaDecryptCommand(key, cipherText, scheme, Session(session, [], 0)))
  }

  function DecryptWithPolicy(device: Device, sha256: bytes -> bytes, sent: seq<bytes>, nonce: Option<Nonce>, key: u32,
                             pcrs: seq<u32>, cipherText: bytes, scheme: DecryptScheme): Run<bytes> {
    var s := StartAuthSession(device, sent, nonce, SE_POLICY);
    match s.result
    case Err(e) => Run(Err(e), s.sent)
    case Ok(session) =>
      var x := DecryptIn(device, sha256, s.sent, session, key, pcrs, cipherText, scheme);
      Run(x.result, FlushContext(device, x.sent, session).sent)
  }

  /** A leading zero of a ciphertext of 257 bytes is dropped. */
  function Trimmed(cipherText: bytes): bytes {
    if |cipherText| == 257 && cipherText[0] == 0 then cipherText[1..] else cipherText
  }

  function RsaDecrypt(device: Device, sha256: bytes -> bytes, sent: seq<bytes>, nonce: Option<Nonce>, key: u32,
                      pcrs: seq<u32>, cipherText: bytes, scheme: DecryptScheme): Run<bytes> {
    var ct := Trimmed(cipherText);
    if |ct| > 512 then Run(Err(InvalidInput), sent) else
    var x := if pcrs == [] then Transmit(device, sent, RsaDecryptCommand(key, ct, scheme, PwSession([])))
             else DecryptWithPolicy(device, sha256, sent, nonce, key, pcrs, ct, scheme);
    Run(Parsed(Checked(x.result), ReadSized), x.sent)
  }

  // ---------------------------------------------------------------- the methods

  /** A device in use: the platform's SHA-256, and the commands sent so far. */
  class Tpm {
    const device: Device
    const sha256: bytes -> bytes
    var sent: seq<bytes>

    constructor (device: Device, sha256: bytes -> bytes)
      ensures this.device == device && this.sha256 == sha256 && sent == []
    {
      this.device := device;
      this.sha256 := sha256;
      sent := [];
    }

    method TransmitRaw(command: bytes) returns (r: Result<bytes, Error>)
      modifies this
      ensures Run(r, sent) == Transmit(device, old(sent), command)
    {
      if !TransmitAccepts(command) {
        return Err(CommandRefused);
      }
      sent := sent + [command];
      match device(sent)
      case Some(response) => return Ok(response);
      case None => return Err(TransportFailed);
    }

    method Call(command: bytes) returns (r: Result<bytes, Error>)
      modifies this
      ensures Run(r, sent) == Exchange(device, old(sent), command)
    {
      var response := TransmitRaw(command);
      r := Checked(response);
    }

    method FlushContextOf(handle: u32) returns (r: Result<(), Error>)
      modifies this
      ensures Run(r, sent) == FlushContext(device, old(sent), handle)
    {
      var command := BuildNoSessions(CC_FLUSH_CONTEXT, [handle], []);
      var response := Call(command);
      r := if response.Ok? then Ok(()) else Err(response.error);
    }

    /** `read_pcrs_for_alg` */
    method ReadPcrsForAlg(alg: PcrAlgorithm, pcrs: seq<u32>) returns (r: Result<seq<(u32, bytes)>, Error>)
      modifies this
      ensures Run(r, sent) == ReadPcrs(device, old(sent), alg, pcrs)
    {
      hide PcrRound;
      if pcrs == [] {
        assert AsSet(pcrs) == {};
        return Ok([]);
      }
      var remaining: set<nat> := {};
      for i := 0 to |pcrs|
        invariant remaining == AsSet(pcrs[..i])
        invariant forall k | 0 <= k < i :: pcrs[k] < PCR_COUNT
        invariant sent == old(sent)
      {
        assert pcrs[..i + 1] == pcrs[..i] + [pcrs[i]];
        if pcrs[i] > 23 {
          assert pcrs[i] in pcrs;
          return Err(InvalidInput);
        }
        remaining := remaining + {pcrs[i]};
      }
      assert pcrs[..|pcrs|] == pcrs;
      var s := Progress(remaining, map[]);
      while s.remaining != {}
        invariant PcrRounds(device, old(sent), Progress(AsSet(pcrs), map[]), alg) == PcrRounds(device, sent, s, alg)
        decreases s.remaining
      {
        var round := OnePcrRound(s, alg);
        s :- round;
      }
      r := Collect(pcrs, s.collected);
    }

    /** One turn of the loop of `read_pcrs_for_alg`; a set in ascending order stands for the `BTreeSet`. */
    method OnePcrRound(s: Progress, alg: PcrAlgorithm) returns (r: Result<Progress, Error>)
      modifies this
      ensures Run(r, sent) == PcrRound(device, old(sent), s, alg)
    {
      hide Absorb, AllIndices, Ascending, MarshalSelections, Exchange;
      var selection := FromPcrs(Ascending(s.remaining), alg.AlgId());
      var command := BuildNoSessions(CC_PCR_READ, [], MarshalSelections(selection));
      var response := Call(command);
      var parsed :- Parsed(LongEnough(response), ReadPcrParams);
      var indices := CollectAll(parsed.0);
      if |indices| != |parsed.1| {
        return Err(DigestCountMismatch);
      }
      var taken := TakeIn(s, indices, parsed.1, alg);
      var s' :- taken;
      if s'.remaining == s.remaining {
        return Err(NothingReturned);
      }
      return Ok(s');
    }

    /** `nv_read_public` */
    method NvReadPublicOf(index: u32) returns (r: Result<NvPublic, Error>)
      modifies this
      ensures Run(r, sent) == NvReadPublic(device, old(sent), index)
    {
      var command := BuildNoSessions(CC_NV_READ_PUBLIC, [], BE32(index));
      var response := Call(command);
      var parsed :- Parsed<(NvPublic, bytes)>(LongEnough(response), Wire.ReadNvPublic);
      return Ok(parsed.0);
    }

    method NvReadChunkOf(index: u32, size: nat, offset: nat) returns (r: Result<bytes, Error>)
      modifies this
      ensures Run(r, sent) == NvReadChunk(device, old(sent), index, size, offset)
    {
      OnePwSession();
      var command := BuildPwSessions(CC_NV_READ, [RH_OWNER, index], [[]], BE16(size) + BE16(offset));
      var response := Call(command);
      r := Parsed(response, ReadSized);
    }

    method NvWriteChunkOf(index: u32, chunk: bytes, offset: nat) returns (r: Result<(), Error>)
      modifies this
      ensures Run(r, sent) == NvWriteChunk(device, old(sent), index, chunk, offset)
    {
      if |chunk| > U16_MAX {
        return Err(InvalidInput);
      }
      OnePwSession();
      var command := BuildPwSessions(CC_NV_WRITE, [RH_OWNER, index], [[]], Sized(chunk) + BE16(offset));
      var response := Call(command);
      r := NvWritten(response);
    }

    /** `read_nv_index` */
    method ReadNvIndex(index: u32) returns (r: Result<bytes, Error>)
      modifies this
      ensures Run(r, sent) == ReadNv(device, old(sent), index)
    {
      hide NvReadChunk, NvReadPublic;
      var public := NvReadPublicOf(index);
      var p :- public;
      var total := p.dataSize;
      var data, offset := [], 0;
      label start:
      while offset < total
        invariant NvReadFrom(device, old@start(sent), index, total, 0, []) ==
                  NvReadFrom(device, sent, index, total, offset, data)
        decreases total - offset
      {
        var remaining := total - offset;
        var chunk := if remaining < NV_CHUNK then remaining else NV_CHUNK;
        var part := NvReadChunkOf(index, chunk, offset);
        var bytes :- part;
        data := data + bytes;
        if offset + chunk > U16_MAX {
          return Err(OffsetOverflow);
        }
        offset := offset + chunk;
      }
      return Ok(data);
    }

    /** `write_nv_index` */
    method WriteNvIndex(index: u32, data: bytes) returns (r: Result<(), Error>)
      modifies this
      ensures Run(r, sent) == WriteNv(device, old(sent), index, data)
    {
      hide NvWriteChunk, NvReadPublic;
      var public := NvReadPublicOf(index);
      var p :- public;
      if |data| > p.dataSize {
        return Err(InvalidInput);
      }
      var offset := 0;
      label start:
      while offset < |data|
        invariant NvWriteFrom(device, old@start(sent), index, data, 0) == NvWriteFrom(device, sent, index, data, offset)
        decreases |data| - offset
      {
        var remaining := |data| - offset;
        var chunk := if remaining < NV_CHUNK then remaining else NV_CHUNK;
        var written := NvWriteChunkOf(index, data[offset..offset + chunk], offset);
        var _ :- written;
        if offset + chunk > U16_MAX {
          return Err(OffsetOverflow);
        }
        offset := offset + chunk;
      }
      return Ok(());
    }

    /** `start_auth_session`, for SHA-256; the random nonce is passed in, or is missing. */
    method StartAuthSessionOf(nonce: Option<Nonce>, kind: byte) returns (r: Result<u32, Error>)
      modifies this
      ensures Run(r, sent) == StartAuthSession(device, old(sent), nonce, kind)
    {
      if nonce.None? {
        return Err(NoEntropy);
      }
      var params := Sized(nonce.value) +
                    (Sized([]) + ([kind] + (MarshalSym(SymDefObject(ALG_NULL, 0, 0)) + BE16(ALG_SHA256))));
      var command := BuildNoSessions(CC_START_AUTH_SESSION, [RH_NULL, RH_NULL], params);
      var response := Call(command);
      r := SessionHandle(LongEnough(response));
    }

    /** `policy_pcr` */
    method PolicyPcrOf(session: u32, pcrs: seq<u32>) returns (r: Result<(), Error>)
      modifies this
      ensures Run(r, sent) == PolicyPcr(device, sha256, old(sent), session, pcrs)
    {
      hide ReadPcrs, Exchange, MarshalSelections;
      if pcrs == [] {
        return Ok(());
      }
      var read := ReadPcrsForAlg(Sha256, pcrs);
      var values :- read;
      var selection := FromPcrs(pcrs, ALG_SHA256);
      var params := Sized(sha256(Values(values))) + MarshalSelections(selection);
      var command := BuildNoSessions(CC_POLICY_PCR, [session], params);
      var response := Call(command);
      r := if response.Ok? then Ok(()) else Err(response.error);
    }

    /** The closure of `compute_pcr_policy_digest`. */
    method PolicyDigestInSession(session: u32, pcrs: seq<u32>) returns (r: Result<bytes, Error>)
      modifies this
      ensures Run(r, sent) == PolicyDigestIn(device, sha256, old(sent), session, pcrs)
    {
      hide PolicyPcr, Exchange;
      var policy := PolicyPcrOf(session, pcrs);
      var _ :- policy;
      var command := BuildNoSessions(CC_POLICY_GET_DIGEST, [session], []);
      var response := Call(command);
      r := Parsed(LongEnough(response), ReadSized);
    }

    /** `compute_pcr_policy_digest`: the trial session is flushed whatever happened in it. */
    method ComputePcrPolicyDigest(nonce: Option<Nonce>, pcrs: seq<u32>) returns (r: Result<bytes, Error>)
      modifies this
      ensures Run(r, sent) == ComputePolicyDigest(device, sha256, old(sent), nonce, pcrs)
    {
      hide StartAuthSession, PolicyDigestIn, FlushContext;
      var start := StartAuthSessionOf(nonce, SE_TRIAL);
      var session :- start;
      r := PolicyDigestInSession(session, pcrs);
      var _ := FlushContextOf(session);
    }

    /** The closure of `rsa_decrypt`. */
    method DecryptInSession(session: u32, key: u32, pcrs: seq<u32>, cipherText: bytes, scheme: DecryptScheme)
      returns (r: Result<bytes, Error>)
      modifies this
      ensures Run(r, sent) == DecryptIn(device, sha256, old(sent), session, key, pcrs, cipherText, scheme)
    {
      hide PolicyPcr, Transmit;
      var policy := PolicyPcrOf(session, pcrs);
      var _ :- policy;
      OneSessionFits(Session(session, [], 0));
      var command := BuildCustomSessions(CC_RSA_DECRYPT, [key], [Session(session, [], 0)],
                                         Sized(cipherText) + (MarshalDecryptScheme(scheme) + Sized([])));
      r := TransmitRaw(command);
    }

    /** `rsa_decrypt`: with PCRs in a policy session, which is flushed whatever happened in it. */
    method RsaDecryptWith(nonce: Option<Nonce>, key: u32, pcrs: seq<u32>, cipherText: bytes, scheme: DecryptScheme)
      returns (r: Result<bytes, Error>)
      modifies this
      ensures Run(r, sent) == RsaDecrypt(device, sha256, old(sent), nonce, key, pcrs, cipherText, scheme)
    {
      hide StartAuthSession, DecryptIn, FlushContext, Transmit;
      var ct := if |cipherText| == 257 && cipherText[0] == 0 then cipherText[1..] else cipherText;
      if |ct| > 512 {
        return Err(InvalidInput);
      }
      var response;
      if pcrs == [] {
        OnePwSession();
        var command := BuildPwSessions(CC_RSA_DECRYPT, [key], [[]],
                                       Sized(ct) + (MarshalDecryptScheme(scheme) + Sized([])));
        response := TransmitRaw(command);
      } else {
        var start := StartAuthSessionOf(nonce, SE_POLICY);
        var session :- start;
        response := DecryptInSession(session, key, pcrs, ct, scheme);
        var _ := FlushContextOf(session);
      }
      r := Parsed(Checked(response), ReadSized);
    }
  }

  lemma OneSessionFits(s: Session)
    ensures EncodeSessions([s]) == EncodeSession(s)
  {
    hide EncodeSession;
    assert [s][1..] == [];
    assert EncodeSessions([s][1..]) == [];
  }

  lemma OnePwSession()
    ensures PwSessions([[]]) == [PwSession([])]
    ensures |EncodeSessions(PwSessions([[]]))| < 0x1_0000_0000
  {
    var auths: seq<bytes> := [[]];
    assert auths[1..] == [];
    assert PwSessions(auths[1..]) == [];
    OneSessionFits(PwSession([]));
  }

  /** The loop over the selections of a response. */
  method CollectAll(sels: Selections) returns (r: seq<nat>)
    ensures r == AllIndices(sels)
  {
    hide IndicesFrom;
    r := [];
    for i := 0 to |sels|
      invariant SelectionsFit(sels[i..])
      invariant AllIndices(sels) == r + AllIndices(sels[i..])
    {
      assert sels[i..][1..] == sels[i + 1..];
      var indices := CollectIndices(sels[i]);
      r := r + indices;
    }
  }

  /** The loop over the returned indices and digests. */
  method TakeIn(start: Progress, indices: seq<nat>, digests: seq<bytes>, alg: PcrAlgorithm)
    returns (r: Result<Progress, Error>)
    requires |indices| == |digests|
    ensures r == Absorb(start, indices, digests, alg)
  {
    var s := start;
    for i := 0 to |indices|
      invariant Absorb(start, indices, digests, alg) == Absorb(s, indices[i..], digests[i..], alg)
    {
      assert indices[i..][1..] == indices[i + 1..] && digests[i..][1..] == digests[i + 1..];
      if indices[i] in s.remaining {
        if |digests[i]| != alg.DigestLen() {
          return Err(InvalidData);
        }
        s := Progress(s.remaining - {indices[i]}, s.collected[indices[i] := digests[i]]);
      }
    }
    return Ok(s);
  }

  /** The last loop of `read_pcrs_for_alg`. */
  method Collect(pcrs: seq<u32>, collected: map<nat, bytes>) returns (r: Result<seq<(u32, bytes)>, Error>)
    ensures r == InOrder(pcrs, collected)
  {
    var out := [];
    for i := 0 to |pcrs|
      invariant match InOrder(pcrs, collected)
                case Ok(all) => var rest := InOrder(pcrs[i..], collected); rest.Ok? && all == out + rest.value
                case Err(e) => InOrder(pcrs[i..], collected) == Err(e)
    {
      assert pcrs[i..][1..] == pcrs[i + 1..];
      if pcrs[i] !in collected {
        return Err(PcrMissing(pcrs[i]));
      }
      out := out + [(pcrs[i], collected[pcrs[i]])];
    }
    assert out + [] == out;
    return Ok(out);
  }
}
