/** The ways in which a TPM exchange can fail. */
module Errors {
  import opened Bytes

  datatype Error =
    | UnexpectedEof          // a buffer ends before what it should hold
    | InvalidData            // a malformed or unexpected structure
    | InvalidInput           // an argument the caller must not pass
    | CommandRefused         // `Tpm::transmit` found the command header or size wrong
    | TransportFailed        // the device could not be reached
    | NoEntropy              // no random bytes for a nonce
    | TpmRc(rc: u32)         // the TPM answered with an error code
    | DigestCountMismatch    // PCR_Read named another number of PCRs than it gave digests
    | NothingReturned        // PCR_Read gave none of the PCRs still wanted
    | PcrMissing(pcr: nat)   // "unexpectedly missing after reads"
    | OffsetOverflow         // the 16-bit NV offset would overflow
}
