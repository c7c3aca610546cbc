/**
 A TPM that does what the TPM 2.0 Library, Part 3 says of the commands the client
 sends. It takes commands apart as bytes and answers with bytes. What the
 standard leaves open, and which commands fail for a passing reason, is in `Env`.
 */
module HonestTpm {
  import opened Bytes
  import opened Errors
  import opened Algorithms
  import opened Wire
  import opened PcrBitmap
  import opened Framing
  import opened Commands

  // Numbers from Part 2 of the standard, and from the TCG Algorithm Registry. The TPM goes by these, whatever the
  // client's own constants say.
  const TPM_CC_NV_WRITE: u32 := 0x0000_0137
  const TPM_CC_NV_READ: u32 := 0x0000_014E
  const TPM_CC_RSA_DECRYPT: u32 := 0x0000_0159
  const TPM_CC_FLUSH_CONTEXT: u32 := 0x0000_0165
  const TPM_CC_NV_READ_PUBLIC: u32 := 0x0000_0169
  const TPM_CC_START_AUTH_SESSION: u32 := 0x0000_0176
  const TPM_CC_PCR_READ: u32 := 0x0000_017E
  const TPM_CC_POLICY_PCR: u32 := 0x0000_017F
  const TPM_CC_POLICY_GET_DIGEST: u32 := 0x0000_0189
  const TPM_RH_OWNER: u32 := 0x4000_0001
  const TPM_RH_NULL: u32 := 0x4000_0007
  const TPM_RH_PASSWORD: u32 := 0x4000_0009
  const TPM_SE_POLICY: byte := 0x01
  const TPM_SE_TRIAL: byte := 0x03
  const ST_NO_SESSIONS: u16 := 0x8001
  const ST_SESSIONS: u16 := 0x8002
  const ID_SHA256: u16 := 0x000B
  const ID_NULL: u16 := 0x0010
  const ID_RSAES: u16 := 0x0015
  const ID_OAEP: u16 := 0x0017

  /** The number of PCRs in a bank. */
  const BANK_SIZE := 24

  const RC_VALUE: u32 := 0x084
  const RC_HANDLE: u32 := 0x08B
  const RC_HASH: u32 := 0x083
  const RC_SIZE: u32 := 0x095
  const RC_AUTH_FAIL: u32 := 0x08E
  const RC_POLICY_FAIL: u32 := 0x09D
  const RC_COMMAND_CODE: u32 := 0x143
  const RC_NV_RANGE: u32 := 0x146
  const RC_NV_UNINITIALIZED: u32 := 0x14A
  const RC_RETRY: u32 := 0x922
  const RC_OBJECT_HANDLES: u32 := 0x906

  /** The largest piece of an NV index that one command moves. */
  const MAX_NV_BUFFER := 1024

  datatype NvEntry = NvEntry(public: NvPublic, written: bool, data: bytes)

  datatype PolicySession = PolicySession(trial: bool, digest: bytes)

  /** A decryption key: its authPolicy, whether an empty password is enough, and the size of its modulus. */
  datatype Key = Key(authPolicy: bytes, passwordSuffices: bool, modulusSize: nat)

  datatype State = State(
    banks: map<PcrAlgorithm, seq<bytes>>, nv: map<u32, NvEntry>,
    sessions: map<u32, PolicySession>, keys: map<u32, Key>)

  /**
   Choices that depend on the commands so far: passing failures, PCRs left out, new handles and nonces, key
   operations.
   */
  datatype Env = Env(
    sha256: bytes -> bytes,
    fails: seq<bytes> -> bool,
    given: seq<bytes> -> set<nat>,
    counter: seq<bytes> -> u32,
    newHandle: seq<bytes> -> u32,
    nonceTpm: seq<bytes> -> bytes,
    nvName: NvPublic -> bytes,
    decrypt: (u32, bytes, DecryptScheme) -> bytes)

  /** Results have their sizes, and no session gets the handle that stands for a password. */
  ghost predicate ValidEnv(env: Env) {
    (forall x :: |env.sha256(x)| == 32) && (forall x :: |env.nonceTpm(x)| == 16) &&
    (forall p :: |env.nvName(p)| == 34) &&
    (forall k, x, s :: |env.decrypt(k, x, s)| <= 512) && (forall l :: env.newHandle(l) != TPM_RH_PASSWORD)
  }

  /**
   All banks hold twenty-four values of their length, and each NV index as many bytes as it announces.
   The handle that stands for a password is no session's.
   */
  ghost predicate ValidState(s: State) {
    (forall alg: PcrAlgorithm :: alg in s.banks && |s.banks[alg]| == BANK_SIZE &&
                                 forall p | 0 <= p < BANK_SIZE :: |s.banks[alg][p]| == Registered(alg).1) &&
    (forall i | i in s.nv :: |s.nv[i].data| == s.nv[i].public.dataSize && |s.nv[i].public.authPolicy| <= 64) &&
    (forall h | h in s.sessions :: |s.sessions[h].digest| == 32) && TPM_RH_PASSWORD !in s.sessions
  }

  /** What a command comes to: a new state with tag and body of the response, or an error code. */
  datatype Outcome = Done(state: State, tag: u16, body: bytes) | Failed(rc: u32)

  // ---------------------------------------------------------------- PCRs

  /** The values of some PCRs of a bank, as PCR_Read lists them. */
  function Listed(bank: seq<bytes>, pcrs: seq<u32>): (r: seq<bytes>)
    requires forall k | 0 <= k < |pcrs| :: pcrs[k] < |bank|
    ensures |r| == |pcrs|
  {
    if pcrs == [] then [] else [bank[pcrs[0]]] + Listed(bank, pcrs[1..])
  }

  function Concat(ds: seq<bytes>): bytes {
    if ds == [] then [] else ds[0] + Concat(ds[1..])
  }

  /** The PCRs a bitmap selects. */
  function SelectedSet(m: Bitmap): set<nat> {
    set p: nat | p < BANK_SIZE && Bit(m[p / 8], p % 8)
  }

  lemma {:induction false} AscendingInRange(s: set<nat>, i: nat)
    ensures forall k | 0 <= k < |AscendingFrom(s, i)| :: AscendingFrom(s, i)[k] < BANK_SIZE
    decreases BANK_SIZE - i
  {
    if i < BANK_SIZE {
      AscendingInRange(s, i + 1);
    }
  }

  /** The values of a set of PCRs in ascending order. */
  function ValuesOf(bank: seq<bytes>, s: set<nat>): seq<bytes>
    requires |bank| == BANK_SIZE
  {
    AscendingInRange(s, 0);
    Listed(bank, Ascending(s))
  }

  /** The bank that an algorithm identifier of the registry stands for. */
  function BankNumbered(id: u16): Option<PcrAlgorithm> {
    if id == Registered(Sha1).0 then Some(Sha1)
    else if id == Registered(Sha256).0 then Some(Sha256)
    else if id == Registered(Sha384).0 then Some(Sha384)
    else None
  }

  /** A selection list with one bitmap of three bytes over a bank the TPM has. */
  predicate OneBank(sels: Selections, s: State) {
    |sels| == 1 && sels[0].sizeOfSelect == 3 && |sels[0].select| == 3 && BankNumbered(sels[0].hashAlg).Some? &&
    BankNumbered(sels[0].hashAlg).value in s.banks && |s.banks[BankNumbered(sels[0].hashAlg).value]| == BANK_SIZE
  }

  function BankOf(sels: Selections, s: State): seq<bytes>
    requires OneBank(sels, s)
  {
    s.banks[BankNumbered(sels[0].hashAlg).value]
  }

  /** Some of what was asked for, never nothing. */
  function Answered(asked: set<nat>, given: set<nat>): set<nat> {
    if asked * given == {} then asked else asked * given
  }

  /** TPM2_PCR_Read (section 22.4): any part of the selection, with its own bitmap and the values in ascending order. */
  function PcrRead(env: Env, log: seq<bytes>, s: State, params: bytes): Outcome {
    match ReadSelections(params, 0)
    case Err(_) => Failed(RC_SIZE)
    case Ok((sels, end)) =>
      if end != |params| then Failed(RC_SIZE)
      else if !OneBank(sels, s) then Failed(RC_VALUE)
      else
        var some := Answered(SelectedSet(sels[0].select), env.given(log));
        Done(s, ST_NO_SESSIONS,
             BE32(env.counter(log)) +
             (MarshalSelections([PcrSelection(sels[0].hashAlg, 3, OctetsOf(some))]) +
              MarshalDigestList(ValuesOf(BankOf(sels, s), some))))
  }

  // ---------------------------------------------------------------- NV storage

  function NvReadPublicDone(env: Env, s: State, params: bytes): Outcome {
    if |params| != 4 then Failed(RC_SIZE) else
    var i := GetBE32(params, 0);
    if i !in s.nv then Failed(RC_HANDLE)
    else Done(s, ST_NO_SESSIONS, Sized(NvArea(s.nv[i].public)) + Sized(env.nvName(s.nv[i].public)))
  }

  /** The response parameters of a command with one session, and that session's acknowledgement. */
  function WithAck(params: bytes, attrs: byte): bytes {
    ResponseBody(ST_SESSIONS, params, [0, 0, attrs, 0, 0])
  }

  /** The owner has no password. */
  predicate OwnerAuthorizes(f: Frame) {
    |f.handles| == 2 && f.handles[0] == TPM_RH_OWNER && f.auth == Auth([PwSession([])])
  }

  /** TPM2_NV_Read (section 31.13). */
  function NvRead(s: State, f: Frame): Outcome {
    if |f.params| != 4 then Failed(RC_SIZE)
    else if !OwnerAuthorizes(f) then Failed(RC_AUTH_FAIL)
    else
      var i, size, offset := f.handles[1], GetBE16(f.params, 0), GetBE16(f.params, 2);
      if i !in s.nv then Failed(RC_HANDLE)
      else if !s.nv[i].written then Failed(RC_NV_UNINITIALIZED)
      else if size > MAX_NV_BUFFER then Failed(RC_VALUE)
      else if offset + size > |s.nv[i].data| then Failed(RC_NV_RANGE)
      else Done(s, ST_SESSIONS, WithAck(Sized(s.nv[i].data[offset..offset + size]), 0))
  }

  /** `data` with `x` over the bytes from `offset` on. */
  function Spliced(data: bytes, offset: nat, x: bytes): (r: bytes)
    requires offset + |x| <= |data|
    ensures |r| == |data|
  {
    data[..offset] + x + data[offset + |x|..]
  }

  /** TPM2_NV_Write (section 31.7). */
  function NvWrite(s: State, f: Frame): Outcome {
    match ReadSized(f.params, 0)
    case Err(_) => Failed(RC_SIZE)
    case Ok((x, c)) =>
      if |f.params| != c + 2 then Failed(RC_SIZE)
      else if !OwnerAuthorizes(f) then Failed(RC_AUTH_FAIL)
      else
        var i, offset := f.handles[1], GetBE16(f.params, c);
        if i !in s.nv then Failed(RC_HANDLE)
        else if |x| > MAX_NV_BUFFER then Failed(RC_SIZE)
        else if offset + |x| > |s.nv[i].data| then Failed(RC_NV_RANGE)
        else
          var e := s.nv[i].(written := true, data := Spliced(s.nv[i].data, offset, x));
          Done(s.(nv := s.nv[i := e]), ST_SESSIONS, WithAck([], 0))
  }

  // ---------------------------------------------------------------- policy sessions

  datatype AuthRequest = AuthRequest(nonce: bytes, salt: bytes, kind: byte, sym: SymDefObject, authHash: u16)

  function ReadAuthRequest(d: bytes): Result<AuthRequest, Error> {
    var (nonce, c1) :- ReadSized(d, 0);
    var (salt, c2) :- ReadSized(d, c1);
    var (kind, c3) :- ReadU8(d, c2);
    var (sym, c4) :- ReadSym(d, c3);
    var (authHash, c5) :- ReadU16(d, c4);
    if c5 != |d| then Err(InvalidData) else Ok(AuthRequest(nonce, salt, kind, sym, authHash))
  }

  /** TPM2_StartAuthSession (section 11.1), for policy and trial sessions over SHA-256 without salt. */
  function StartSession(env: Env, log: seq<bytes>, s: State, f: Frame): Outcome {
    match ReadAuthRequest(f.params)
    case Err(_) => Failed(RC_SIZE)
    case Ok(q) =>
      if f.handles != [TPM_RH_NULL, TPM_RH_NULL] || q.salt != [] || q.kind !in {TPM_SE_POLICY, TPM_SE_TRIAL}
      then Failed(RC_VALUE)
      else if |q.nonce| < 16 then Failed(RC_SIZE)
      else if q.authHash != ID_SHA256 then Failed(RC_HASH)
      else if env.newHandle(log) in s.sessions then Failed(RC_OBJECT_HANDLES)
      else
        var h := env.newHandle(log);
        Done(s.(sessions := s.sessions[h := PolicySession(q.kind == TPM_SE_TRIAL, ZeroDigest())]),
             ST_NO_SESSIONS, BE32(h) + Sized(env.nonceTpm(log)))
  }

  function ZeroDigest(): (r: bytes)
    ensures |r| == 32
  {
    seq(32, _ => 0)
  }

  /** The policy digest after a PolicyPCR assertion. */
  function Extended(env: Env, before: bytes, sels: Selections, pcrDigest: bytes): bytes {
    env.sha256(before + (BE32(TPM_CC_POLICY_PCR) + (MarshalSelections(sels) + pcrDigest)))
  }

  function CurrentDigest(env: Env, s: State, sels: Selections): bytes
    requires OneBank(sels, s)
  {
    env.sha256(Concat(ValuesOf(BankOf(sels, s), SelectedSet(sels[0].select))))
  }

  /**
   TPM2_PolicyPCR (section 23.7): a policy session accepts a given digest only if it is that of the
   current values in ascending order; a trial session takes the given digest as it is.
   */
  function PolicyPcrDone(env: Env, s: State, f: Frame): Outcome {
    match ReadSized(f.params, 0)
    case Err(_) => Failed(RC_SIZE)
    case Ok((given, c)) =>
      match ReadSelections(f.params, c)
      case Err(_) => Failed(RC_SIZE)
      case Ok((sels, end)) =>
        if end != |f.params| || |f.handles| != 1 then Failed(RC_SIZE)
        else if f.handles[0] !in s.sessions then Failed(RC_HANDLE)
        else if !OneBank(sels, s) then Failed(RC_VALUE)
        else
          var h := f.handles[0];
          var now := CurrentDigest(env, s, sels);
          if !s.sessions[h].trial && given != [] && given != now then Failed(RC_VALUE)
          else
            var taken := if s.sessions[h].trial && given != [] then given else now;
            var t := s.sessions[h].(digest := Extended(env, s.sessions[h].digest, sels, taken));
            Done(s.(sessions := s.sessions[h := t]), ST_NO_SESSIONS, [])
  }

  function PolicyGetDigestDone(s: State, f: Frame): Outcome {
    if |f.handles| != 1 || f.params != [] then Failed(RC_SIZE)
    else if f.handles[0] !in s.sessions then Failed(RC_HANDLE)
    else Done(s, ST_NO_SESSIONS, Sized(s.sessions[f.handles[0]].digest))
  }

  function FlushDone(s: State, f: Frame): Outcome {
    if |f.handles| != 1 || f.params != [] then Failed(RC_SIZE)
    else if f.handles[0] !in s.sessions then Failed(RC_HANDLE)
    else Done(s.(sessions := s.sessions - {f.handles[0]}), ST_NO_SESSIONS, [])
  }

  // ---------------------------------------------------------------- decryption

  function ReadDecryptScheme(d: bytes, c: nat): Result<(DecryptScheme, nat), Error> {
    var (id, c1) :- ReadU16(d, c);
    if id == ID_RSAES then Ok((Rsaes, c1))
    else if id == ID_OAEP then
      var (hashAlg, c2) :- ReadU16(d, c1);
      Ok((Oaep(hashAlg), c2))
    else Err(InvalidData)
  }

  function ReadDecryptRequest(d: bytes): Result<(bytes, DecryptScheme), Error> {
    var (cipherText, c1) :- ReadSized(d, 0);
    var (scheme, c2) :- ReadDecryptScheme(d, c1);
    var (tag, c3) :- ReadSized(d, c2);
    if c3 != |d| || tag != [] then Err(InvalidData) else Ok((cipherText, scheme))
  }

  /** A key may be used with an empty password if it says so, or in a policy session whose digest is its authPolicy. */
  predicate KeyAuthorizes(s: State, key: u32, u: Session) {
    key in s.keys && u.auth == [] &&
    if u.handle == TPM_RH_PASSWORD then s.keys[key].passwordSuffices
    else u.handle in s.sessions && !s.sessions[u.handle].trial && s.sessions[u.handle].digest == s.keys[key].authPolicy
  }

  /**
   TPM2_RSA_Decrypt (section 14.3): the cipher text must be of the size of the modulus. A session without
   continueSession is gone after it.
   */
  function RsaDecryptDone(env: Env, s: State, f: Frame): Outcome {
    match ReadDecryptRequest(f.params)
    case Err(_) => Failed(RC_SIZE)
    case Ok((cipherText, scheme)) =>
      if |f.handles| != 1 || !f.auth.Auth? || |f.auth.sessions| != 1 then Failed(RC_SIZE)
      else if f.handles[0] !in s.keys then Failed(RC_HANDLE)
      else if !KeyAuthorizes(s, f.handles[0], f.auth.sessions[0]) then Failed(RC_POLICY_FAIL)
      else if |cipherText| != s.keys[f.handles[0]].modulusSize then Failed(RC_SIZE)
      else
        var u := f.auth.sessions[0];
        var rest := if u.attrs % 2 == 0 then s.sessions - {u.handle} else s.sessions;
        Done(s.(sessions := rest), ST_SESSIONS,
             WithAck(Sized(env.decrypt(f.handles[0], cipherText, scheme)), u.attrs))
  }

  // ---------------------------------------------------------------- dispatch

  function HandleCount(code: u32): nat {
    if code in {TPM_CC_NV_READ, TPM_CC_NV_WRITE, TPM_CC_START_AUTH_SESSION} then 2
    else if code in {TPM_CC_POLICY_PCR, TPM_CC_POLICY_GET_DIGEST, TPM_CC_FLUSH_CONTEXT, TPM_CC_RSA_DECRYPT} then 1
    else 0
  }

  function Execute(env: Env, log: seq<bytes>, s: State, f: Frame): Outcome {
    if f.code == TPM_CC_PCR_READ then PcrRead(env, log, s, f.params)
    else if f.code == TPM_CC_NV_READ_PUBLIC then NvReadPublicDone(env, s, f.params)
    else if f.code == TPM_CC_NV_READ then NvRead(s, f)
    else if f.code == TPM_CC_NV_WRITE then NvWrite(s, f)
    else if f.code == TPM_CC_START_AUTH_SESSION then StartSession(env, log, s, f)
    else if f.code == TPM_CC_POLICY_PCR then PolicyPcrDone(env, s, f)
    else if f.code == TPM_CC_POLICY_GET_DIGEST then PolicyGetDigestDone(s, f)
    else if f.code == TPM_CC_FLUSH_CONTEXT then FlushDone(s, f)
    else if f.code == TPM_CC_RSA_DECRYPT then RsaDecryptDone(env, s, f)
    else Failed(RC_COMMAND_CODE)
  }

  /** The last command of `log` is `command`; `s` is the state before it. */
  function Perform(env: Env, log: seq<bytes>, s: State, command: bytes): Outcome {
    if env.fails(log) then Failed(RC_RETRY)
    else if |command| < HEADER_LEN then Failed(RC_SIZE)
    else
      match Decode(command, HandleCount(GetBE32(command, 6)))
      case Err(_) => Failed(RC_SIZE)
      case Ok(f) => Execute(env, log, s, f)
  }

  function StateOf(o: Outcome, before: State): State {
    match o
    case Done(state, _, _) => state
    case Failed(_) => before
  }

  function ReplyOf(o: Outcome): bytes {
    match o
    case Done(_, tag, body) => Response(tag, 0, body)
    case Failed(rc) => Response(ST_NO_SESSIONS, rc, [])
  }

  function StateAfter(env: Env, s0: State, log: seq<bytes>): State {
    if log == [] then s0 else
    var before := StateAfter(env, s0, log[..|log| - 1]);
    StateOf(Perform(env, log, before, log[|log| - 1]), before)
  }

  /** The device answers every history as the TPM does that started in `s0`. */
  ghost predicate Behaves(device: Device, env: Env, s0: State) {
    forall log: seq<bytes> | log != [] ::
      device(log) == Some(ReplyOf(Perform(env, log, StateAfter(env, s0, log[..|log| - 1]), log[|log| - 1])))
  }

  /** The TPM itself, as a device. */
  ghost function AsDevice(env: Env, s0: State): Device {
    (log: seq<bytes>) =>
      if log == [] then None
      else Some(ReplyOf(Perform(env, log, StateAfter(env, s0, log[..|log| - 1]), log[|log| - 1])))
  }

  /** There is such a device, whatever the choices and the first state. */
  lemma TpmBehaves(env: Env, s0: State)
    ensures Behaves(AsDevice(env, s0), env, s0)
  {
    hide Perform, StateAfter, ReplyOf;
  }
}
