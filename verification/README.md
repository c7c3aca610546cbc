# A verified model of the TPM, event-log and COSE cores of the Azure guest attestation SDK

This Dafny project models three cores of the repository and proves what they promise:

- the **TCG event log**: the chain of binary parsers, the crypto-agile digest heuristic with its reset of the
  cursor, and the replay of a log into PCR values (`algorithms`, `eventlog`, `eventlog_format`, `eventlog_forms`,
  `eventlog_layouts`, `eventlog_profile`, `replay`);
- the **TPM client**: structures on the wire, command framing, PCR_Read, chunked NV access and policy sessions
  (`errors`, `wire`, `wire_exact`, `pcr_bitmap`, `framing`, `commands`, `command_bytes`, `responses`), first against
  any device (`any_device`, `any_device_nv`), then against a TPM that follows the TPM 2.0 Library (`honest`, `honest_runs`, `honest_nv`, `honest_pcr`,
  `honest_policy`);
- the **CBOR and COSE_Sign1** reader (`cbor`, `cose`).

`bytes` holds integers in both byte orders and the predicate `At`, which says that an encoding stands at an offset
of a buffer; nearly all results about formats are stated with it, so they hold at any offset of any buffer.

## How to read it

Code with loops or changing state is a method, and each method is proved equal to a function of its inputs or of the
old state. The theorems are lemmas about those functions. Formats have encoders of their own, written without looking
at the readers, and the lemmas tie the two together in both directions. Every induction is written out: lemmas that
Dafny would prove by automatic induction carry `{:induction false}`.

A device is an arbitrary function from the history of commands to an answer, which stands for any behaviour over time
with any inner state. `Commands.Tpm` keeps the list of commands sent. The honest TPM takes each command apart from its
bytes, changes its state, and answers in bytes. It goes by numbers of its own from Part 2 of the standard, not by
the client's constants; what the standard leaves open (which part of a PCR selection is
answered, handles, nonces, key operations) and passing failures are in `HonestTpm.Env`, over which the lemmas quantify.
Hashes are parameters; where it matters they are only required to have a fixed length. The caller's nonce is a
parameter too, and may be missing. Buffers are at most `isize::MAX` bytes where the code's overflow checks need it.

## What the proofs found

- A raw digest whose first two bytes spell its own length is read as prefixed. `ProfileLogsComeBack` shows, for what
  `parse_event_log` returns, that this is the only way in which a log written as the profile says can fail to come
  back event for event. Its one side condition is that no prefixed digest belongs to an algorithm whose number is its
  own size; none of the built-in algorithms is such, and a log that is raw wherever the size is known has no such
  digest. `OwnSizedLogComesBack` is a log where the condition is needed, and `EventsComeBackWhenPlain` is exact
  without it. `AmbiguousLogIsRefused` gives a whole family of logs that all binary alternatives refuse.
- The second, prefixed pass runs only when the first one ended with an implausible payload size
  (`SecondPassRecovers`); an error inside the first pass is final.
- The "made no progress" error, the "unexpectedly missing" error of PCR_Read and the NV "offset overflow" error
  cannot occur.
- `policy_pcr` hashes values in the caller's order, the TPM in ascending order. The two inputs are the same for
  every content of the bank exactly when the caller's list is strictly ascending (`OrdersAgreeExactlyWhenAscending`).
  For any other list, also one with a repetition, on a bank whose values differ, no key decrypts, not even one bound
  to the digest that the client computed, unless SHA-256 collides on the two inputs (`TrialPolicyIsTheRealPolicy`).
- On the TPM a session stays behind exactly when the flush itself fails, and for `rsa_decrypt` only if RSA_Decrypt
  has not used it up; failures inside the session leave nothing (`ComputePolicyIsThePolicy`, `DecryptWithHonest`).
- TPM2B_PUBLIC comes back exactly when it is canonical and its size fits 16 bits, a signature exactly when its scheme
  is RSASSA, ECDSA or null, and a command's sessions exactly when every authorization value fits 16 bits.
- The COSE comments describe the protected header as a byte string and the unprotected header as a map; the code
  takes any item for either, and a text string for the payload. The model follows the code.
- A session is flushed once `start_auth_session` has returned its handle. If the TPM made a session but its response
  cannot be parsed, no handle is returned and nothing is flushed; the lemmas say no more than the code does.
- `read_nv_index` puts together whatever the chunk responses hold. If every response has the length asked for, the
  result has the size of the index (`ReadHasTheSize`); a device that answers otherwise decides the length
  (`LengthIsTheDevices`).
- The SHA-1 retry of `parse_event_log` can be what decides, but only behind a crypto-agile beginning
  (`RetryNeedsCryptoAgileBeginning`, `RetryDecides`).

## Model

| member | source | states |
|---|---|---|
| `Cbor.SkipCborItem` | crates/azure-guest-attestation-sdk/src/cose.rs:196-229 | the recursive skipper with its loops answers what the specification of skipping answers, and its ghost counter is the number of heads read |
| `Cbor.ReadHeadComplete` | crates/azure-guest-attestation-sdk/src/cose.rs:112-173 | a head of any width is read as the major type and argument it was written with |
| `Cbor.ReadHeadSound` | crates/azure-guest-attestation-sdk/src/cose.rs:112-173 | a head that is read is the encoding of what is answered, in one of the five widths |
| `Cbor.SkipIsExact` | crates/azure-guest-attestation-sdk/src/cose.rs:196-229 | Ok(q) exactly when one definite-length item, with any nesting and any head widths, stands from pos to q |
| `Cbor.ItemsAreUnique` | crates/azure-guest-attestation-sdk/src/cose.rs:196-229 | two items that stand at one place are the same item, so the encoding is prefix-free |
| `Cbor.SkipIsLinear` | crates/azure-guest-attestation-sdk/src/cose.rs:196-229 | whatever counts the input announces, a run reads at most one head a byte and one more on failure |
| `Cose.ParseCoseSign1Payload` | crates/azure-guest-attestation-sdk/src/cose.rs:72-105 | the parser answers the payload found by the specification, or its error |
| `Cose.PayloadIsExact` | crates/azure-guest-attestation-sdk/src/cose.rs:72-105 | a payload is answered exactly when the data begin with tag 18, array of four, two items and that payload as a string |
| `Cose.TailIsIgnored` | crates/azure-guest-attestation-sdk/src/cose.rs:101-105 | replacing all bytes after the payload leaves the answer as it is |
| `Cose.DetachedPayloadIsRefused` | crates/azure-guest-attestation-sdk/src/cose.rs:177-193 | a third element that is no string is an error that names its major type |
| `Bytes.ReadersAreBigEndian` | crates/azure-guest-attestation-sdk/src/cose.rs:128-165 | the readers of CBOR and TPM integers answer the number that the bytes stand for, most significant first |
| `Bytes.ReadersAreLittleEndian` | crates/azure-tpm/src/event_log.rs:780-807 | those of event logs the number with the least significant byte first |
| `EventLog.ParseEvent2Digest` | crates/azure-tpm/src/event_log.rs:729-775 | one turn of the digest loop: raw by known size, behind a recognised prefix, or always behind a prefix |
| `EventLog.ParseEvent2Digests` | crates/azure-tpm/src/event_log.rs:720-778 | the digest loop equals the recursive reader of digests |
| `EventLog.ParseEvent2Entry` | crates/azure-tpm/src/event_log.rs:451-518 | one entry, with the reset of the cursor and the second pass, equals its specification, errors included |
| `EventLog.ParseEvent2EntriesFrom` | crates/azure-tpm/src/event_log.rs:445-543 | the event loop with its changing size table pushes exactly the specified events |
| `EventLog.ParseEvent1EntriesFrom` | crates/azure-tpm/src/event_log.rs:433-443 | the SHA-1 event loop pushes exactly the specified events |
| `EventLog.ParseSpecIdEvent` | crates/azure-tpm/src/event_log.rs:625-699 | the Spec ID parser equals its specification, errors included |
| `EventLog.EnterSizes` | crates/azure-tpm/src/event_log.rs:358-363 | sizes are entered in order; every algorithm ends with the last size announced for it that is not zero, or with what it had |
| `EventLog.EnteredIsTheLastSize` | crates/azure-tpm/src/event_log.rs:358-363 | the same of the specification, algorithm by algorithm |
| `EventLog.ParseEventLogWithEvent1Spec` | crates/azure-tpm/src/event_log.rs:350-381 | the first alternative: a SHA-1 entry, then the layout its Spec ID calls for |
| `EventLog.ParseEventLog` | crates/azure-tpm/src/event_log.rs:343-348 | the alternatives are tried in order and the first success is the answer |
| `EventLogFormat.ReadEntry2IsLossless` | crates/azure-tpm/src/event_log.rs:451-531 | an accepted entry, in the forms found, is exactly the bytes consumed, also after the second pass |
| `EventLogFormat.ReadEntries2IsLossless` | crates/azure-tpm/src/event_log.rs:445-543 | whenever the event loop succeeds, some raw or prefixed form for every digest re-encodes the events to exactly the input |
| `EventLogFormat.ReadEntry2Advances` | crates/azure-tpm/src/event_log.rs:451-540 | every entry takes at least sixteen bytes |
| `EventLogFormat.ReadEntries2Advances` | crates/azure-tpm/src/event_log.rs:535-540 | the "made no progress" error never occurs and the number of events is at most a sixteenth of the length |
| `EventLogFormat.ReadDigestDecides` | crates/azure-tpm/src/event_log.rs:730-746 | a writable digest is read in its own form unless it is raw and spells its own length |
| `EventLogFormat.ReadEntry2Decides` | crates/azure-tpm/src/event_log.rs:451-531 | a writable entry comes back in its own forms exactly when none of its raw fields spells its length |
| `EventLogFormat.SecondPassRecovers` | crates/azure-tpm/src/event_log.rs:483-495 | an all-prefixed entry whose lengths contradict the size table is recovered by the second pass |
| `EventLogFormat.WrittenLogsAreReadBack` | crates/azure-tpm/src/event_log.rs:445-543 | a writable log, with its size table changing on the way, comes back in its own forms if and only if no raw field spells its length |
| `EventLogFormat.RawAndPrefixedParseAlike` | crates/azure-tpm/src/event_log.rs:734-746 | two unambiguous writings of one list of events parse to the same events |
| `EventLogForms.EventsComeBackExactly` | crates/azure-tpm/src/event_log.rs:445-543 | the events alone, in whatever forms they are found, come back if and only if no raw field spells its length, unless a prefixed digest is of an algorithm numbered by its own size |
| `EventLogForms.LogStaysBehind` | crates/azure-tpm/src/event_log.rs:720-778 | two writings of the same events, once shifted against each other by a prefix, never come together again without such a digest |
| `EventLogForms.OrdinaryLogsHaveNoOwnSized` | crates/azure-tpm/src/event_log.rs:809-814 | only an announced size can make an algorithm numbered by its own size |
| `EventLogForms.RawLogsHaveNoOwnSized` | crates/azure-tpm/src/event_log.rs:734-746 | a log that is raw wherever the size is known has no such digest |
| `EventLogForms.OwnSizedLogComesBack` | crates/azure-tpm/src/event_log.rs:742-746 | with one, a log whose raw field spells its length comes back all the same, in other forms |
| `EventLogForms.EventsComeBackWhenPlain` | crates/azure-tpm/src/event_log.rs:445-543 | for every writable log: its events come back exactly when some writing of them in the same bytes is unambiguous |
| `EventLogLayouts.ReadEntry1IsExact` | crates/azure-tpm/src/event_log.rs:398-431 | reading and writing one SHA-1 entry are inverse to each other |
| `EventLogLayouts.ReadEntries1IsExact` | crates/azure-tpm/src/event_log.rs:433-443 | the SHA-1 parser accepts exactly the written SHA-1 logs and answers their events |
| `EventLogLayouts.ReadEntries1Advances` | crates/azure-tpm/src/event_log.rs:398-443 | the number of SHA-1 events is at most a thirty-second of the length |
| `EventLogLayouts.ReadSpecIdIsExact` | crates/azure-tpm/src/event_log.rs:625-699 | a payload is a Spec ID event exactly when it begins with the encoding of one |
| `EventLogLayouts.FirstAndThirdAgree` | crates/azure-tpm/src/event_log.rs:350-396 | without a crypto-agile beginning the first and third alternatives are one parser, errors included |
| `EventLogLayouts.RetryNeedsCryptoAgileBeginning` | crates/azure-tpm/src/event_log.rs:343-348 | the SHA-1 retry changes the outcome only after a crypto-agile header |
| `EventLogLayouts.RetryDecides` | crates/azure-tpm/src/event_log.rs:343-348 | behind a crypto-agile beginning, an entry of the SHA-1 layout is taken by the retry alone |
| `EventLogLayouts.SpecFirstIsLossless` | crates/azure-tpm/src/event_log.rs:350-381 | what the first alternative accepts is byte for byte one of its two layouts |
| `EventLogLayouts.ParseIsLossless` | crates/azure-tpm/src/event_log.rs:343-348 | what any binary alternative accepts is byte for byte one of the three layouts of the events answered |
| `EventLogLayouts.CryptoAgileRoundTrip` | crates/azure-tpm/src/event_log.rs:343-381 | a Spec ID entry followed by writable unambiguous entries parses to exactly those events |
| `EventLogLayouts.Sha1RoundTrip` | crates/azure-tpm/src/event_log.rs:343-396 | a SHA-1 log, also the empty one, parses to exactly its events |
| `EventLogLayouts.SpecFirstReadsBackExactly` | crates/azure-tpm/src/event_log.rs:350-381 | the first alternative answers the written events exactly for the unambiguous logs |
| `EventLogLayouts.CryptoAgileExactly` | crates/azure-tpm/src/event_log.rs:343-381 | `parse_event_log` answers the events of a written crypto-agile log exactly when no raw field spells its length |
| `EventLogLayouts.AmbiguousFieldIsRefused` | crates/azure-tpm/src/event_log.rs:742-746 | the event loop refuses the rest of a log that is one raw field that spells its length |
| `EventLogLayouts.AmbiguousLogIsRefused` | crates/azure-tpm/src/event_log.rs:343-396 | behind a Spec ID entry such a log is refused by every binary alternative of `parse_event_log` |
| `EventLogProfile.CryptoAgileExactlyWhen` | crates/azure-tpm/src/event_log.rs:358-379 | a log goes on in the crypto-agile layout exactly behind a Spec ID event of version 2 or later, or with an algorithm other than SHA-1 |
| `EventLogProfile.TableAfterTracks` | crates/azure-tpm/src/event_log.rs:519-528 | the size table always says what the Spec ID events so far announced last, else the built-in sizes |
| `EventLogProfile.WritableIsProfile` | crates/azure-tpm/src/event_log.rs:809-814 | the logs writable under the parser's table are those that keep to the sizes announced so far, or 20, 32 and 48 |
| `EventLogProfile.ProfileLogsComeBack` | crates/azure-tpm/src/event_log.rs:343-381 | behind any Spec ID entry that calls for the crypto-agile layout, `parse_event_log` answers such a log exactly when no raw field spells its length |
| `EventLogProfile.BareLogsComeBack` | crates/azure-tpm/src/event_log.rs:445-543 | without a SHA-1 entry in front the second alternative does the same |
| `EventLogProfile.BareLogsComeSecond` | crates/azure-tpm/src/event_log.rs:343-348 | it is asked before the SHA-1 retry |
| `EventLogProfile.Sha1LogsComeBack` | crates/azure-tpm/src/event_log.rs:374-379 | behind no Spec ID event, or an old one of SHA-1 alone, SHA-1 logs come back |
| `EventLogProfile.AnnouncementTakesEffect` | crates/azure-tpm/src/event_log.rs:519-528 | behind a Spec ID event inside a log, a raw digest of the size it announces last for the algorithm comes back |
| `EventLogProfile.BuiltInSizesHold` | crates/azure-tpm/src/event_log.rs:809-814 | with nothing announced, raw digests of 20, 32 and 48 bytes come back for SHA-1, SHA-256 and SHA-384 |
| `Replay.ReplayPcrs` | crates/azure-tpm/src/event_log.rs:545-563 | the loop over the events, with its early continue and its inserted zeros, equals the stepwise replay |
| `Replay.ReplayIsTheFold` | crates/azure-tpm/src/event_log.rs:545-563 | from any state, each PCR holds the hash-extend fold of its own measurements in log order |
| `Replay.ReplayFromReset` | crates/azure-tpm/src/event_log.rs:60-67 | exactly the PCRs with a measurement of the right length are present, folded from zeros, with digest length |
| `Replay.DigestForIsFirst` | crates/azure-tpm/src/event_log.rs:60-67 | the digest found for an algorithm is the first one under its number, and none is found when there is none |
| `Replay.ReplayIsTheTrace` | crates/azure-tpm/src/event_log.rs:545-563 | by event and digest index: a PCR is present when some event measures it, and goes from zeros through the hash of value and digest of each |
| `Replay.ReplayContinues` | crates/azure-tpm/src/event_log.rs:545-563 | replaying a then b is replaying b from the result of a |
| `Replay.CombinedLogsReplayInTurn` | tools/azure-guest-attest/src/main.rs:942-978 | the combined events of several logs replay as the logs do one by one |
| `Replay.ReplayIgnoresInterleaving` | crates/azure-tpm/src/event_log.rs:545-563 | any reordering that keeps each PCR's own order gives the same values |
| `Replay.DisjointLogsCommute` | tools/azure-guest-attest/src/main.rs:942-978 | logs that share no PCR may be combined in either order |
| `Replay.EqualPcrsMeanEqualMeasurements` | crates/azure-tpm/src/event_log.rs:617-623 | two different measurement lists with one PCR value yield a collision between an input hashed for the one and an input hashed for the other, or an input of either that hashes to zeros |
| `Replay.ReplayedValuePinsTheLog` | crates/azure-tpm/src/event_log.rs:545-563 | two logs that replay to one value of a PCR have the same measurements of it, or break the hash at inputs of their replays |
| `Wire.UnmarshalSelection` | crates/azure-tpm/src/types.rs:1676-1700 | one selection is read and copied into three bytes |
| `Wire.UnmarshalSelections` | crates/azure-tpm/src/types.rs:1672-1704 | the selection loop equals the recursive reader |
| `Wire.UnmarshalDigestList` | crates/azure-tpm/src/types.rs:2028-2042 | the digest loop equals the recursive reader |
| `Wire.Tpm2b.Bytes` | crates/azure-tpm/src/types.rs:1567-1580 | the cached bytes always equal a fresh prefixed marshal of the inner value |
| `WireExact.ReadSizedIsExact` | crates/azure-tpm/src/types.rs:1594-1616 | a TPM2B is answered exactly when its encoding stands there and its content is shorter than 64 KiB |
| `WireExact.ReadSelectionsIsExact` | crates/azure-tpm/src/types.rs:1656-1704 | selection lists are answered exactly when they are canonical and stand at the cursor |
| `WireExact.ReadDigestListIsExact` | crates/azure-tpm/src/types.rs:2028-2042 | digest lists are answered exactly when their encoding stands at the cursor |
| `WireExact.ReadSchemeIsExact` | crates/azure-tpm/src/types.rs:1713-1729 | an RSA scheme comes back unless it carries unknown trailing bytes |
| `WireExact.ReadSymIsExact` | crates/azure-tpm/src/types.rs:1738-1768 | a symmetric definition comes back unless it is null with key size or mode |
| `WireExact.ReadPublicIsExact` | crates/azure-tpm/src/types.rs:1784-1834 | public areas are answered exactly when they are canonical and stand at the cursor |
| `WireExact.Public2BRoundTrip` | crates/azure-tpm/src/types.rs:1838-1853 | TPM2B_PUBLIC in any surroundings comes back, with the cursor behind it, exactly when canonical and short enough |
| `WireExact.Public2BIsExact` | crates/azure-tpm/src/types.rs:1842-1853 | on any buffer: the canonical area behind the size is answered and the cursor set by the size, which must lie in the buffer |
| `WireExact.ReadPointIsExact` | crates/azure-tpm/src/types.rs:2073-2098 | ECC points are answered exactly when their encoding stands at the cursor |
| `WireExact.RsassaIsExact` | crates/azure-tpm/src/types.rs:2156-2165 | RSASSA signatures are answered exactly when their encoding stands at the cursor |
| `WireExact.EcdsaIsExact` | crates/azure-tpm/src/types.rs:2108-2138 | ECDSA signatures are answered exactly when their encoding stands at the cursor |
| `WireExact.OtherRawIsExact` | crates/azure-tpm/src/types.rs:2150-2209 | any other scheme gives the rest of the buffer without the scheme |
| `WireExact.SignatureRoundTrip` | crates/azure-tpm/src/types.rs:2150-2209 | a signature in any surroundings comes back exactly when its scheme is RSASSA, ECDSA or null and its parts are short |
| `WireExact.MaskKeepsOtherBits` | crates/azure-tpm/src/types.rs:2245-2247 | the mask clears bits 29 and 30 and no others |
| `WireExact.NvPublicIsRead` | crates/azure-tpm/src/types.rs:2369-2417 | an NV public area and its name are read as sent |
| `WireExact.NvPublicWithoutName` | crates/azure-tpm/src/types.rs:2395-2417 | at the end of the buffer the area is read with an empty name |
| `WireExact.NvPublicRoundTrip` | crates/azure-tpm/src/types.rs:2242-2264 | a marshalled NV public area and its name come back, with bits 29 and 30 cleared and the cursor behind them, exactly when both lengths fit 16 bits |
| `WireExact.ReadQuoteIsExact` | crates/azure-tpm/src/types.rs:3130-3184 | a quote is recovered exactly when the body begins with an encoding of it, whatever signer, clock and firmware say |
| `PcrBitmap.FromPcrs` | crates/azure-tpm/src/types.rs:1622-1643 | the loop that sets bits builds the bitmap of the list, passing over indices above 23 |
| `PcrBitmap.BuildPcrBitmap` | crates/azure-tpm/src/commands.rs:984-998 | the bitmap, or an error exactly when an index is out of range |
| `PcrBitmap.BitmapSelects` | crates/azure-tpm/src/types.rs:1628-1635 | a bitmap selects exactly the listed PCRs |
| `PcrBitmap.BitmapIsOctets` | crates/azure-tpm/src/types.rs:1628-1635 | a bitmap is the three octets of the standard, PCR 0 in the low bit of the first |
| `PcrBitmap.CollectIndices` | crates/azure-tpm/src/commands.rs:555-565 | the loops over bytes and bits list the selected indices in ascending order |
| `PcrBitmap.IndicesOfSelection` | crates/azure-tpm/src/commands.rs:553-565 | the indices of a built bitmap are the listed PCRs in ascending order |
| `Framing.CommandBuffer.FinalizeSize` | crates/azure-tpm/src/helpers.rs:21-24 | the length is written over the four bytes behind the tag and nothing else changes |
| `Framing.CommandBuffer.Sessions` | crates/azure-tpm/src/helpers.rs:120-136 | the summed area size is the size of the sessions that follow |
| `Framing.BuildNoSessions` | crates/azure-tpm/src/helpers.rs:33-48 | the built bytes are the laid-out command, with its size |
| `Framing.BuildPwSessions` | crates/azure-tpm/src/helpers.rs:54-94 | the same with one password session for each value |
| `Framing.BuildCustomSessions` | crates/azure-tpm/src/helpers.rs:105-142 | the same with the given sessions |
| `Framing.BuiltCommandsAreAccepted` | crates/azure-tpm/src/device.rs:69-97 | a built command passes the check before sending exactly when it is at most 64 KiB |
| `Framing.AcceptedExactly` | crates/azure-tpm/src/device.rs:69-97 | of any bytes, exactly those are sent that say their own length and hold 10 bytes to 64 KiB |
| `Framing.CommandsAreDecoded` | crates/azure-tpm/src/helpers.rs:33-142 | a decoder recovers code, handles, sessions and parameters exactly when all authorization values fit 16 bits |
| `Framing.ParamsAreReached` | crates/azure-tpm/src/types.rs:3073-3109 | well-framed response parameters, with or without a size, reach their reader |
| `Framing.ResponsesAreChecked` | crates/azure-tpm/src/helpers.rs:145-175 | a response passes exactly when it is whole and says success, and its code is told when it is whole and says another |
| `Framing.SizedResponsesAreExact` | crates/azure-tpm/src/types.rs:1247-1283 | of any response bytes a sized value is answered exactly when it stands there with just its size announced |
| `Responses.DigestResponsesAreExact` | crates/azure-tpm/src/types.rs:989-1025 | the same for PolicyGetDigest, of at least fourteen bytes |
| `Responses.HandleResponsesAreExact` | crates/azure-tpm/src/types.rs:845-898 | a session handle is answered exactly when it stands behind the header and a nonce behind it |
| `Responses.IndicesAreTheBits` | crates/azure-tpm/src/commands.rs:553-565 | the indices of a selection of any number of octets are its set bits in ascending order |
| `Responses.PcrResponsesAreExact` | crates/azure-tpm/src/types.rs:3050-3109 | indices and digests are taken from a response exactly when it holds selections and as many digests |
| `CommandBytes.OneHandleCommands` | crates/azure-tpm/src/types.rs:188-214 | the bytes of NV_ReadPublic, PolicyGetDigest and FlushContext |
| `CommandBytes.NvReadBytes` | crates/azure-tpm/src/commands.rs:1000-1012 | the bytes of NV_Read |
| `CommandBytes.NvWriteBytes` | crates/azure-tpm/src/commands.rs:1014-1035 | the bytes of NV_Write |
| `CommandBytes.PcrReadBytes` | crates/azure-tpm/src/commands.rs:533-541 | the bytes of PCR_Read |
| `CommandBytes.PolicyPcrBytes` | crates/azure-tpm/src/commands.rs:785-797 | the bytes of PolicyPCR |
| `CommandBytes.StartAuthBytes` | crates/azure-tpm/src/commands.rs:742-770 | the bytes of StartAuthSession |
| `CommandBytes.RsaDecryptBytes` | crates/azure-tpm/src/commands.rs:683-700 | the bytes of RSA_Decrypt |
| `CommandBytes.SessionTypes` | crates/azure-tpm/src/commands.rs:43-48 | the digest is computed in a session of type 0x03 and decryption runs in one of type 0x01 |
| `CommandBytes.PublicBytes` | crates/azure-tpm/src/types.rs:1784-1806 | the bytes of a public area |
| `Commands.Tpm.TransmitRaw` | crates/azure-tpm/src/device.rs:69-105 | a refused command is not sent; any other is sent once and answered by the device |
| `Commands.Tpm.ReadPcrsForAlg` | crates/azure-tpm/src/commands.rs:504-611 | validation, rounds and output in the caller's order equal their specification |
| `Commands.Tpm.OnePcrRound` | crates/azure-tpm/src/commands.rs:533-594 | one round sends the wanted selection and takes in what came back |
| `Commands.Tpm.ReadNvIndex` | crates/azure-tpm/src/commands.rs:217-232 | the chunked read loop equals its specification |
| `Commands.Tpm.WriteNvIndex` | crates/azure-tpm/src/commands.rs:234-258 | the chunked write loop equals its specification |
| `Commands.Tpm.NvReadChunkOf` | crates/azure-tpm/src/commands.rs:1000-1012 | one NV_Read with the owner's empty password |
| `Commands.Tpm.NvWriteChunkOf` | crates/azure-tpm/src/commands.rs:1014-1035 | one NV_Write with the owner's empty password |
| `Commands.Tpm.StartAuthSessionOf` | crates/azure-tpm/src/commands.rs:742-776 | one session start; without a nonce nothing is sent |
| `Commands.Tpm.PolicyPcrOf` | crates/azure-tpm/src/commands.rs:778-798 | the values are read, hashed in the caller's order and sent with their selection; nothing is sent for no PCRs |
| `Commands.Tpm.ComputePcrPolicyDigest` | crates/azure-tpm/src/commands.rs:713-740 | trial session, policy, digest, flush, in that order on every path |
| `Commands.Tpm.RsaDecryptWith` | crates/azure-tpm/src/commands.rs:637-711 | trimming, size check, password or policy session, flush, and the check of the response after it |
| `AnyDevice.ReadPcrsOnAnyDevice` | crates/azure-tpm/src/commands.rs:504-611 | on any device: at most one PCR_Read for each different index, results in the caller's order with equal digests for equal indices and the right length, never the "missing" error, and a refusal exactly for an index over 23 |
| `AnyDevice.PcrRoundsEnd` | crates/azure-tpm/src/commands.rs:529-594 | on any device the rounds end, and a good end has collected every wanted index |
| `AnyDevice.AbsorbIsExact` | crates/azure-tpm/src/commands.rs:574-590 | of whatever a response returns, the first digest of each wanted index is kept and nothing else; an error exactly when one of these has the wrong length |
| `AnyDeviceNv.NvReadOnAnyDevice` | crates/azure-tpm/src/commands.rs:217-232 | on any device: the commands ask for one chunk after the other, all of them on success, and the result is the answers in order; a failure is that of the last command; never an offset overflow or a refused command |
| `AnyDeviceNv.NvWriteOnAnyDevice` | crates/azure-tpm/src/commands.rs:234-258 | on any device: the commands carry the data chunk after chunk, all of it on success; data too large are refused before any write; never an offset overflow or a refused command |
| `AnyDeviceNv.WrittenExactly` | crates/azure-tpm/src/types.rs:2621-2646 | a write is taken for done exactly when the response says success and holds what it announces |
| `AnyDeviceNv.ReadHasTheSize` | crates/azure-tpm/src/commands.rs:217-232 | if every chunk is answered with the length asked for, a read has the size of the index |
| `AnyDeviceNv.LengthIsTheDevices` | crates/azure-tpm/src/commands.rs:222-230 | otherwise the length is the device's: the same bytes for every chunk are taken once a chunk |
| `AnyDevice.FlushSends` | crates/azure-tpm/src/commands.rs:490-502 | flushing always sends its one command |
| `AnyDevice.StartSends` | crates/azure-tpm/src/commands.rs:742-776 | starting a session sends one command, or none without entropy |
| `AnyDevice.ComputePolicyCleansUp` | crates/azure-tpm/src/commands.rs:713-740 | on any device a session that was started is flushed exactly once, by the last command, whichever step failed |
| `AnyDevice.RsaDecryptCleansUp` | crates/azure-tpm/src/commands.rs:676-705 | the same for decryption in a policy session |
| `AnyDevice.LeadingZeroIsOptional` | crates/azure-tpm/src/commands.rs:644-651 | on any device a leading zero before 256 bytes of cipher text changes nothing; any other cipher text is sent as it is |
| `HonestRuns.ExchangeWithHonest` | crates/azure-tpm/src/helpers.rs:146-175 | a built command reaches the TPM's interpretation through its bytes, and the client sees the outcome or the error code |
| `HonestRuns.RunsKeepState` | crates/azure-tpm/src/commands.rs:172-958 | over every run of any commands the TPM keeps its banks whole and every NV index its size |
| `HonestRuns.RunsKeepBanksAndKeys` | crates/azure-tpm/src/commands.rs:172-958 | no modelled command changes a PCR or a key |
| `HonestNv.NvReadChunkWithHonest` | crates/azure-tpm/src/commands.rs:1000-1012 | one chunk read answers exactly that piece of the index, or the TPM's error |
| `HonestNv.NvWriteChunkWithHonest` | crates/azure-tpm/src/commands.rs:1014-1035 | one chunk write splices exactly that piece, or changes nothing |
| `HonestNv.NvWriteFromWithHonest` | crates/azure-tpm/src/commands.rs:242-255 | the chunks tile the range; a failing command leaves exactly the chunks before it |
| `HonestNv.WriteNvIsOneSplice` | crates/azure-tpm/src/commands.rs:234-258 | a write is one splice; a failure in chunk k leaves exactly the first 1024 * k bytes; nothing else changes |
| `HonestNv.ReadNvIsTheIndex` | crates/azure-tpm/src/commands.rs:217-232 | a read answers the whole index and changes nothing |
| `HonestNv.WriteThenRead` | crates/azure-tpm/src/commands.rs:217-258 | write then read gives the data and what was behind them, or the last command sent failed |
| `HonestPcr.PcrRoundWithHonest` | crates/azure-tpm/src/commands.rs:533-594 | a round against any partial answer collects only bank values and shrinks what is wanted |
| `HonestPcr.ReadPcrsIsTheBank` | crates/azure-tpm/src/commands.rs:504-611 | however the TPM splits its answers, the result is the bank in the caller's order with repetitions |
| `HonestPolicy.StartWithHonest` | crates/azure-tpm/src/commands.rs:742-776 | a fresh session of the asked kind with a zero digest |
| `HonestPolicy.PolicyPcrWithHonest` | crates/azure-tpm/src/commands.rs:778-798 | a trial session takes the client's digest; a policy session accepts it exactly when it is that of the ascending values |
| `HonestPolicy.OrdersAgreeExactlyWhenAscending` | crates/azure-tpm/src/commands.rs:782-784 | the client and the TPM hash the same for every bank exactly when the list is strictly ascending |
| `HonestPolicy.OnlyAscendingOrdersAgree` | crates/azure-tpm/src/commands.rs:782-784 | on a bank whose values differ, the two orders of the values are one exactly when the list is strictly ascending |
| `HonestPolicy.DigestsAgreeExactly` | crates/azure-tpm/src/commands.rs:782-784 | on any bank the two digests agree exactly when the two orders of the values do, or SHA-256 collides on them |
| `HonestPolicy.ComputePolicyIsThePolicy` | crates/azure-tpm/src/commands.rs:713-740 | once the session is started, a digest is answered exactly when the last command before the flush does not fail, and is the policy digest over the caller's order, for no PCRs zeros; the TPM is left as it was, or with the session exactly when the flush fails |
| `HonestPolicy.DecryptWithHonest` | crates/azure-tpm/src/commands.rs:637-711 | decryption answers the plain text exactly when the last command before the flush does not fail, the two orders agree or collide, the key is bound to their digest, and the cipher text has the size of its modulus or, for 256 bytes, one leading zero more; the TPM is left as it was, or with the session exactly when the flush fails and RSA_Decrypt has not used it up |
| `HonestPolicy.DecryptExactlyWhenAscending` | crates/azure-tpm/src/commands.rs:676-711 | for strictly ascending lists decryption works exactly for bound keys and cipher texts of their size; for other lists, on a bank whose values differ, for no key unless SHA-256 collides |
| `HonestPolicy.TrialPolicyIsTheRealPolicy` | crates/azure-tpm/src/commands.rs:637-740 | for strictly ascending PCRs, decryption works exactly for a key bound to the digest computed in the trial session; for other lists for no key |
| `HonestPolicy.DecryptWithoutPcrs` | crates/azure-tpm/src/commands.rs:666-675 | without PCRs one command is sent and works, unless it fails for a passing reason, exactly for keys that an empty password opens; the TPM is left as it was |
| `HonestPolicy.TrimKeepsTheNumber` | crates/azure-tpm/src/commands.rs:644-651 | dropping the leading zero of 257 bytes keeps the number |

## Left out

- Devices, files, the Windows registry and the search for log files: foreign calls. The transport is a parameter.
- The JSON event reader, the fourth alternative of `parse_event_log`: a function parameter of the model.
- Hash functions, random bytes and the RSA operation: parameters.
- `EventLog.SpecId` keeps the sixteen signature bytes; the lossy conversion to text and the trimming of zeros are not modelled. The test for the "Spec ID Event" prefix is on the bytes, which is the same test.
- Overflow checks on `cursor + digest length` in the event-log parser: dead for a Rust slice, behind or equivalent to the length checks that are modelled.
- The texts of errors. Error kinds and the branches that raise them are kept apart as far as callers can tell them apart.
- `Framing.BuildCustomSessions` needs the sum of the session sizes to fit 32 bits; beyond it the program stops with a panic or wraps.
- The handles of NV_ReadPublic and FlushContext stand where the client puts them; on the wire that is the place the TPM reads them from.
- Recursion depth: deep nesting in CBOR can exhaust the program's stack, which the model does not have.
- The honest TPM: hierarchies and passwords other than the owner's empty one, salted or HMAC sessions, session nonces, the PCR update counter inside a session, and NV attributes other than whether the index was written.
- Key creation, loading, quoting, certifying, signing, unsealing, eviction, NV definition and extension: each is one exchange of the kind that is modelled.
- SNP, TDX, VBS and report layouts, HTTP clients, endorsement lookup, JWT handling and the command-line and web tools.
