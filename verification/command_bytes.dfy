/**
 The bytes on the wire, number by number: what the client sends for each command, and how structures are laid out,
 as the TPM 2.0 Library, Parts 2 and 3, gives them.
 */
module CommandBytes {
  import opened Bytes
  import opened Algorithms
  import opened Wire
  import opened PcrBitmap
  import opened Framing
  import opened Commands
  import opened AnyDevice

  // ---------------------------------------------------------------- commands

  /** A header without sessions, with the low octets of length and command code. */
  function Plain(length: byte, code: byte): bytes {
    [0x80, 0x01, 0, 0, 0, length, 0, 0, 0x01, code]
  }

  /** An authorization area with one empty-password session: its size, and the session. */
  function EmptyPassword(): bytes {
    [0, 0, 0, 9, 0x40, 0, 0, 0x09, 0, 0, 0, 0, 0]
  }

  lemma TagOctets()
    ensures BE16(TPM_ST_NO_SESSIONS) == [0x80, 0x01] && BE16(TPM_ST_SESSIONS) == [0x80, 0x02]
  {
  }

  lemma {:induction false} PlainBody(handles: seq<u32>, params: bytes)
    ensures Body(handles, NoAuth, params) == EncodeHandles(handles) + params
  {
    hide EncodeHandles;
    assert [] + params == params;
  }

  lemma {:induction false} SessionBody(handles: seq<u32>, s: Session, params: bytes)
    requires s.auth == []
    ensures Body(handles, Auth([s]), params) ==
            EncodeHandles(handles) + (BE32(9) + (BE32(s.handle) + [0, 0, s.attrs, 0, 0]) + params)
  {
    hide BE32, EncodeHandles, EncodeSessions, EncodeSession;
    OneSessionFits(s);
    EmptySession(s);
  }

  lemma CommandParts(code: u32, handles: seq<u32>, a: AuthArea, params: bytes)
    ensures var body := Body(handles, a, params);
            Command(code, handles, a, params) ==
            BE16(if a.NoAuth? then TPM_ST_NO_SESSIONS else TPM_ST_SESSIONS) + (BE32(10 + |body|) + (BE32(code) + body))
  {
    hide BE16, BE32, Body;
  }

  lemma {:induction false} NoSessionBytes(code: u32, handles: seq<u32>, params: bytes)
    ensures Command(code, handles, NoAuth, params) ==
            [0x80, 0x01] + (BE32(10 + 4 * |handles| + |params|) + (BE32(code) + (EncodeHandles(handles) + params)))
  {
    hide *;
    TagOctets();
    PlainBody(handles, params);
    CommandParts(code, handles, NoAuth, params);
    var body := EncodeHandles(handles) + params;
    assert |body| == 4 * |handles| + |params|;
    assert Command(code, handles, NoAuth, params) ==
           BE16(TPM_ST_NO_SESSIONS) + (BE32(10 + |body|) + (BE32(code) + body));
  }

  lemma EmptySession(s: Session)
    requires s.auth == []
    ensures EncodeSession(s) == BE32(s.handle) + [0, 0, s.attrs, 0, 0]
  {
    hide BE32;
    assert Sized([]) == [0, 0];
  }

  lemma {:induction false} OneSessionBytes(code: u32, handles: seq<u32>, s: Session, params: bytes)
    requires s.auth == []
    ensures Command(code, handles, Auth([s]), params) ==
            [0x80, 0x02] + (BE32(23 + 4 * |handles| + |params|) + (BE32(code) + (EncodeHandles(handles) +
            (BE32(9) + (BE32(s.handle) + [0, 0, s.attrs, 0, 0]) + params))))
  {
    hide *;
    TagOctets();
    SessionBody(handles, s, params);
    CommandParts(code, handles, Auth([s]), params);
  }

  lemma HandlesOf(a: u32, b: u32)
    ensures EncodeHandles([a]) == BE32(a) && EncodeHandles([a, b]) == BE32(a) + BE32(b)
  {
    hide BE32;
    assert [a, b][1..] == [b] && [b][1..] == [] && [a][1..] == [];
    assert EncodeHandles([b][1..]) == [] && EncodeHandles([a][1..]) == [];
    assert EncodeHandles([b]) == BE32(b);
  }

  lemma CodeOctets(code: byte)
    ensures BE32(0x100 + code as nat) == [0, 0, 0x01, code]
  {
  }

  lemma LengthOctets(n: byte)
    ensures BE32(n) == [0, 0, 0, n]
  {
  }

  /** TPM2_NV_ReadPublic, TPM2_PolicyGetDigest and TPM2_FlushContext: one handle and nothing else. */
  lemma OneHandleCommands(h: u32)
    ensures NvReadPublicCommand(h) == Plain(14, 0x69) + BE32(h)
    ensures PolicyGetDigestCommand(h) == Plain(14, 0x89) + BE32(h)
    ensures FlushCommand(h) == Plain(14, 0x65) + BE32(h)
  {
    hide BE32, Command, EncodeHandles;
    HandlesOf(h, h);
    LengthOctets(14);
    CodeOctets(0x69);
    CodeOctets(0x89);
    CodeOctets(0x65);
    NoSessionBytes(CC_NV_READ_PUBLIC, [], BE32(h));
    NoSessionBytes(CC_POLICY_GET_DIGEST, [h], []);
    NoSessionBytes(CC_FLUSH_CONTEXT, [h], []);
    assert EncodeHandles([]) == [] by {
      NoHandles();
    }
    assert [] + BE32(h) == BE32(h) && BE32(h) + [] == BE32(h);
  }

  lemma NoHandles()
    ensures EncodeHandles([]) == []
  {
  }

  lemma NvBytes(code: u32, index: u32, params: bytes)
    ensures Command(code, [RH_OWNER, index], Auth([PwSession([])]), params) ==
            [0x80, 0x02] + (BE32(31 + |params|) + (BE32(code) + (([0x40, 0, 0, 0x01] + BE32(index)) +
            (EmptyPassword() + params))))
  {
    OwnerPassword();
    hide *;
    HandlesOf(RH_OWNER, index);
    OneSessionBytes(code, [RH_OWNER, index], PwSession([]), params);
    HandleOctets();
    PasswordOctets();
  }

  lemma OwnerPassword()
    ensures PwSession([]) == Session(TPM_RS_PW, [], 0)
  {
  }

  /** TPM2_NV_Read: owner and index, the owner's empty password, size and offset. */
  lemma NvReadBytes(index: u32, size: nat, offset: nat)
    ensures NvReadCommand(index, size, offset) ==
            [0x80, 0x02] + ([0, 0, 0, 35] + ([0, 0, 0x01, 0x4E] + (([0x40, 0, 0, 0x01] + BE32(index)) +
            (EmptyPassword() + (BE16(size) + BE16(offset))))))
  {
    hide BE32, BE16, Command, EncodeHandles, EmptyPassword, PwSession;
    NvBytes(CC_NV_READ, index, BE16(size) + BE16(offset));
    LengthOctets(35);
    CodeOctets(0x4E);
  }

  /** TPM2_NV_Write: the same with the data, and offset. */
  lemma NvWriteBytes(index: u32, offset: nat, data: bytes)
    ensures NvWriteCommand(index, data, offset) ==
            [0x80, 0x02] + (BE32(35 + |data|) + ([0, 0, 0x01, 0x37] + (([0x40, 0, 0, 0x01] + BE32(index)) +
            (EmptyPassword() + (BE16(|data|) + data + BE16(offset))))))
  {
    hide BE32, BE16, Command, EncodeHandles, EmptyPassword, PwSession;
    NvBytes(CC_NV_WRITE, index, Sized(data) + BE16(offset));
    CodeOctets(0x37);
  }

  lemma PasswordOctets()
    ensures BE32(9) + (BE32(TPM_RS_PW) + [0, 0, 0, 0, 0]) == EmptyPassword()
  {
    LengthOctets(9);
    HandleOctets();
    hide BE32;
  }

  lemma HandleOctets()
    ensures BE32(RH_OWNER) == [0x40, 0, 0, 0x01] && BE32(RH_NULL) == [0x40, 0, 0, 0x07]
    ensures BE32(TPM_RS_PW) == [0x40, 0, 0, 0x09]
  {
  }

  /** TPM2_PCR_Read: one bank, three octets of selection with PCR 0 in the low bit of the first. */
  lemma PcrReadBytes(alg: PcrAlgorithm, pcrs: seq<u32>)
    requires pcrs != [] && forall p | p in pcrs :: p < 24
    ensures PcrReadCommand(alg, pcrs) ==
            Plain(20, 0x7E) + [0, 0, 0, 1, 0, Registered(alg).0 % 0x100, 3] + OctetsOf(AsSet(pcrs))
  {
    hide BE32, Command, EncodeHandles, OctetsOf, MarshalSelections;
    SelectionBytes(alg, pcrs);
    var params := MarshalSelections(SelectionOf(pcrs, alg.AlgId()));
    NoSessionBytes(CC_PCR_READ, [], params);
    NoHandles();
    LengthOctets(20);
    CodeOctets(0x7E);
    assert [] + params == params;
  }

  lemma SelectionBytes(alg: PcrAlgorithm, pcrs: seq<u32>)
    requires pcrs != [] && forall p | p in pcrs :: p < 24
    ensures SelectionsFit(SelectionOf(pcrs, alg.AlgId()))
    ensures MarshalSelections(SelectionOf(pcrs, alg.AlgId())) ==
            [0, 0, 0, 1, 0, Registered(alg).0 % 0x100, 3] + OctetsOf(AsSet(pcrs))
  {
    hide BitmapOf, OctetsOf, BE32;
    BitmapIsOctets(pcrs, AsSet(pcrs));
    var m := BitmapOf(pcrs);
    var sels := SelectionOf(pcrs, alg.AlgId());
    assert sels[1..] == [];
    assert MarshalEach(sels[1..]) == [];
    LengthOctets(1);
    assert m[..3] == m;
    assert MarshalSelection(sels[0]) == [0, Registered(alg).0 % 0x100, 3] + m;
  }

  /** TPM2_PolicyPCR: the session, the digest, and the selection that was read. */
  lemma PolicyPcrBytes(session: u32, digest: bytes, pcrs: seq<u32>)
    requires pcrs != [] && (forall p | p in pcrs :: p < 24) && |digest| == 32
    ensures PolicyPcrCommand(session, digest, pcrs) ==
            Plain(58, 0x7F) + BE32(session) + [0, 32] + digest + [0, 0, 0, 1, 0, 0x0B, 3] + OctetsOf(AsSet(pcrs))
  {
    hide BE32, Command, EncodeHandles, OctetsOf, MarshalSelections;
    SelectionBytes(Sha256, pcrs);
    HandlesOf(session, session);
    NoSessionBytes(CC_POLICY_PCR, [session], Sized(digest) + MarshalSelections(SelectionOf(pcrs, ALG_SHA256)));
    LengthOctets(58);
    CodeOctets(0x7F);
    assert Sized(digest) == [0, 32] + digest;
  }

  /** TPM2_StartAuthSession: unsalted and unbound, a nonce of sixteen bytes, the type of session, no cipher, SHA-256. */
  lemma StartAuthBytes(nonce: Nonce, kind: byte)
    ensures StartAuthCommand(nonce, kind, ALG_SHA256) ==
            Plain(43, 0x76) + [0x40, 0, 0, 0x07, 0x40, 0, 0, 0x07, 0, 16] + nonce + [0, 0, kind, 0, 0x10, 0, 0x0B]
  {
    hide BE32, Command, EncodeHandles;
    var sym := SymDefObject(ALG_NULL, 0, 0);
    var tail := Sized([]) + ([kind] + (MarshalSym(sym) + BE16(ALG_SHA256)));
    assert MarshalSym(sym) == [0, 0x10];
    assert tail == [0, 0, kind, 0, 0x10, 0, 0x0B];
    assert Sized(nonce) == [0, 16] + nonce;
    HandlesOf(RH_NULL, RH_NULL);
    HandleOctets();
    NoSessionBytes(CC_START_AUTH_SESSION, [RH_NULL, RH_NULL], Sized(nonce) + tail);
    LengthOctets(43);
    CodeOctets(0x76);
  }

  lemma RsaDecryptParams(cipherText: bytes, hashAlg: u16)
    ensures Sized(cipherText) + (MarshalDecryptScheme(Rsaes) + Sized([])) ==
            BE16(|cipherText|) + cipherText + [0, 0x15, 0, 0]
    ensures Sized(cipherText) + (MarshalDecryptScheme(Oaep(hashAlg)) + Sized([])) ==
            BE16(|cipherText|) + cipherText + ([0, 0x17] + BE16(hashAlg) + [0, 0])
  {
    assert BE16(ALG_RSAES) == [0, 0x15] && BE16(ALG_OAEP) == [0, 0x17] && Sized([]) == [0, 0];
    hide BE16;
    assert BE16(ALG_RSAES) + Sized([]) == [0, 0x15, 0, 0];
  }

  /** TPM2_RSA_Decrypt with one session: the cipher text, RSAES or OAEP with its hash, and an empty label. */
  lemma RsaDecryptBytes(key: u32, cipherText: bytes, hashAlg: u16, s: Session)
    requires s.auth == []
    ensures var middle := [0, 0, 0x01, 0x59] + (BE32(key) + ([0, 0, 0, 9] + (BE32(s.handle) + [0, 0, s.attrs, 0, 0])));
            var data := BE16(|cipherText|) + cipherText;
            RsaDecryptCommand(key, cipherText, Rsaes, s) ==
              [0x80, 0x02] + (BE32(33 + |cipherText|) + (middle + (data + [0, 0x15, 0, 0]))) &&
            RsaDecryptCommand(key, cipherText, Oaep(hashAlg), s) ==
              [0x80, 0x02] + (BE32(35 + |cipherText|) + (middle + (data + ([0, 0x17] + BE16(hashAlg) + [0, 0]))))
  {
    hide BE16, BE32, Command, EncodeHandles, MarshalDecryptScheme, Sized;
    HandlesOf(key, key);
    LengthOctets(9);
    CodeOctets(0x59);
    RsaDecryptParams(cipherText, hashAlg);
    var data := BE16(|cipherText|) + cipherText;
    DecryptBytes(key, s, data + [0, 0x15, 0, 0]);
    DecryptBytes(key, s, data + ([0, 0x17] + BE16(hashAlg) + [0, 0]));
  }

  lemma DecryptBytes(key: u32, s: Session, params: bytes)
    requires s.auth == []
    ensures Command(CC_RSA_DECRYPT, [key], Auth([s]), params) ==
            [0x80, 0x02] + (BE32(27 + |params|) + ([0, 0, 0x01, 0x59] +
            (BE32(key) + ([0, 0, 0, 9] + (BE32(s.handle) + [0, 0, s.attrs, 0, 0]))) + params))
  {
    hide BE32, Command, EncodeHandles;
    HandlesOf(key, key);
    LengthOctets(9);
    CodeOctets(0x59);
    OneSessionBytes(CC_RSA_DECRYPT, [key], s, params);
    var session := BE32(s.handle) + [0, 0, s.attrs, 0, 0];
    FourParts([0, 0, 0x01, 0x59], BE32(key), [0, 0, 0, 9] + session, params);
  }

  lemma FourParts(a: bytes, b: bytes, c: bytes, d: bytes)
    ensures a + (b + (c + d)) == a + (b + c) + d
  {
  }

  /**
   What the two operations start: `compute_pcr_policy_digest` a trial session, of type 0x03, `rsa_decrypt` with PCRs
   a policy session, of type 0x01, both as their first command.
   */
  lemma SessionTypes(device: Device, sha256: bytes -> bytes, sent: seq<bytes>, nonce: Nonce, key: u32, pcrs: seq<u32>,
                     cipherText: bytes, scheme: DecryptScheme)
    requires (forall x :: |sha256(x)| == 32) && pcrs != [] && |cipherText| <= 512
    ensures var start := Plain(43, 0x76) + [0x40, 0, 0, 0x07, 0x40, 0, 0, 0x07, 0, 16] + nonce;
            var trial := ComputePolicyDigest(device, sha256, sent, Some(nonce), pcrs).sent;
            var policy := RsaDecrypt(device, sha256, sent, Some(nonce), key, pcrs, cipherText, scheme).sent;
            sent + [start + [0, 0, 0x03, 0, 0x10, 0, 0x0B]] <= trial &&
            sent + [start + [0, 0, 0x01, 0, 0x10, 0, 0x0B]] <= policy
  {
    hide StartAuthSession, PolicyDigestIn, DecryptIn, FlushContext, Plain, StartAuthCommand, ReadSized, CheckRc;
    StartAuthBytes(nonce, 0x01);
    StartAuthBytes(nonce, 0x03);
    StartSends(device, sent, Some(nonce), SE_TRIAL);
    StartSends(device, sent, Some(nonce), SE_POLICY);
    ComputePolicyCleansUp(device, sha256, sent, Some(nonce), pcrs);
    RsaDecryptCleansUp(device, sha256, sent, Some(nonce), key, pcrs, cipherText, scheme);
  }

  // ---------------------------------------------------------------- structures

  /** A list of one selection: count, algorithm, number of octets, octets. */
  lemma SelectionListBytes(a: byte, b: byte, c: byte)
    ensures var sels := [PcrSelection(0x000B, 3, [a, b, c])];
            SelectionsFit(sels) && MarshalSelections(sels) == [0, 0, 0, 1, 0, 0x0B, 3, a, b, c]
  {
    var sels := [PcrSelection(0x000B, 3, [a, b, c])];
    assert sels[1..] == [];
    assert MarshalEach(sels[1..]) == [];
    assert [a, b, c][..3] == [a, b, c];
    LengthOctets(1);
  }

  /** A list of two digests: count, and each behind its size. */
  lemma DigestListBytes(a: byte, b: byte, c: byte)
    ensures MarshalDigestList([[a], [b, c]]) == [0, 0, 0, 2, 0, 1, a, 0, 2, b, c]
  {
    var ds: seq<bytes> := [[a], [b, c]];
    assert ds[1..] == [[b, c]] && ds[1..][1..] == [];
    assert MarshalDigests(ds[1..][1..]) == [];
    assert MarshalDigests(ds[1..]) == [0, 2, b, c];
    LengthOctets(2);
  }

  lemma TwoOctets(hi: byte, lo: byte)
    ensures BE16(0x100 * hi as nat + lo as nat) == [hi, lo]
  {
  }

  lemma FourOctets(a: byte, b: byte, c: byte, d: byte)
    ensures BE32(0x100_0000 * a as nat + 0x1_0000 * b as nat + 0x100 * c as nat + d as nat) == [a, b, c, d]
  {
    var hi, lo := 0x100 * a as nat + b as nat, 0x100 * c as nat + d as nat;
    var v := 0x1_0000 * hi + lo;
    assert v / 0x1_0000 == hi && v % 0x1_0000 == lo;
    TwoOctets(a, b);
    TwoOctets(c, d);
  }

  lemma OneOctet(a: byte)
    ensures Sized([a]) == [0, 1, a]
  {
  }

  /** A public area: type, name algorithm, attributes, policy, cipher, scheme, key size, exponent, modulus. */
  lemma PublicBytes(a: byte, b: byte)
    ensures MarshalPublic(TpmtPublic(0x0001, 0x000B, 0x0005_0472, [a], SymDefObject(0x0006, 128, 0x0043),
                                     Rsassa(0x000C), 2048, 0x0001_0001, [b])) ==
            [0, 0x01] + ([0, 0x0B] + ([0, 0x05, 0x04, 0x72] + ([0, 1, a] + ([0, 0x06, 0, 128, 0, 0x43] +
            ([0, 0x14, 0, 0x0C] + ([8, 0] + ([0, 1, 0, 1] + [0, 1, b])))))))
    ensures MarshalSym(SymDefObject(0x0010, 0, 0)) == [0, 0x10] && MarshalScheme(NullScheme) == [0, 0x10]
  {
    hide BE16, BE32, Sized;
    TwoOctets(0, 0x01);
    TwoOctets(0, 0x0B);
    TwoOctets(0, 0x0C);
    TwoOctets(0, 0x06);
    TwoOctets(0, 128);
    TwoOctets(0, 0x43);
    TwoOctets(0, 0x14);
    TwoOctets(0, 0x10);
    TwoOctets(8, 0);
    FourOctets(0, 0x05, 0x04, 0x72);
    FourOctets(0, 1, 0, 1);
    OneOctet(a);
    OneOctet(b);
    assert MarshalSym(SymDefObject(0x0006, 128, 0x0043)) == [0, 0x06, 0, 128, 0, 0x43];
    assert MarshalScheme(Rsassa(0x000C)) == [0, 0x14, 0, 0x0C];
  }

  /** Points and signatures. */
  lemma SignatureBytes(a: byte, b: byte)
    ensures MarshalPoint(EccPoint([a], [b])) == [0, 1, a, 0, 1, b]
    ensures MarshalSignature(RsassaSig(0x000B, [a])) == [0, 0x14, 0, 0x0B, 0, 1, a]
    ensures MarshalSignature(EcdsaSig(0x000B, [a], [b])) == [0, 0x18, 0, 0x0B, 0, 1, a, 0, 1, b]
    ensures MarshalSignature(NullSig) == [0, 0x10]
  {
  }

  /** An NV public area: index, name algorithm, attributes, policy, size. */
  lemma NvPublicBytes(a: byte)
    ensures MarshalNvPublic(NvPublic(0x0140_0001, 0x000B, 0x6204_0408, [a], 0x0102)) ==
            [0, 15] + ([0x01, 0x40, 0, 0x01] + ([0, 0x0B] + ([0x02, 0x04, 0x04, 0x08] + ([0, 1, a] + [0x01, 0x02]))))
  {
    hide BE16, BE32;
    assert Masked(0x6204_0408) == 0x0204_0408;
    TwoOctets(0, 15);
    TwoOctets(0, 0x0B);
    TwoOctets(0, 1);
    TwoOctets(1, 2);
    FourOctets(0x01, 0x40, 0, 0x01);
    FourOctets(0x02, 0x04, 0x04, 0x08);
    OneOctet(a);
    assert [0, 1] + [a] == [0, 1, a];
  }

  /** A quote body: magic, type, signer, extra data, clock, firmware version, selections, digest. */
  lemma QuoteBytes(a: byte, b: byte, c: byte, k: QuoteContext)
    requires k.magic == 0xFF54_4347 && k.signer == [a]
    ensures MarshalQuote(Quote([], [c], [b]), k) ==
            [0xFF, 0x54, 0x43, 0x47, 0x80, 0x18, 0, 1, a, 0, 1, b] + k.clockInfo + k.firmware + [0, 0, 0, 0, 0, 1, c]
  {
    assert BE32(0xFF54_4347) == [0xFF, 0x54, 0x43, 0x47];
    assert BE16(ATTEST_QUOTE) == [0x80, 0x18];
    var tail := MarshalSelections([]) + Sized([c]);
    assert tail == [0, 0, 0, 0, 0, 1, c];
  }
}
