/** The three PCR bank algorithms, with their TPM identifiers and digest lengths. */
module Algorithms {
  import opened Bytes

  const ALG_SHA1: u16 := 0x0004
  const ALG_SHA256: u16 := 0x000B
  const ALG_SHA384: u16 := 0x000C

  datatype PcrAlgorithm = Sha1 | Sha256 | Sha384 {
    function AlgId(): u16 {
      match this
      case Sha1 => ALG_SHA1
      case Sha256 => ALG_SHA256
      case Sha384 => ALG_SHA384
    }

    function DigestLen(): nat {
      match this
      case Sha1 => 20
      case Sha256 => 32
      case Sha384 => 48
    }
  }

  function FromAlgId(id: u16): (r: Option<PcrAlgorithm>)
    ensures r.Some? ==> r.value.AlgId() == id
    ensures r.None? ==> forall a: PcrAlgorithm :: a.AlgId() != id
  {
    if id == ALG_SHA1 then Some(Sha1)
    else if id == ALG_SHA256 then Some(Sha256)
    else if id == ALG_SHA384 then Some(Sha384)
    else None
  }

  /** Number and digest size in the TCG Algorithm Registry, against which the constants above are held. */
  function Registered(a: PcrAlgorithm): (u16, nat) {
    match a
    case Sha1 => (0x0004, 20)
    case Sha256 => (0x000B, 32)
    case Sha384 => (0x000C, 48)
  }

  lemma AreRegistered(a: PcrAlgorithm)
    ensures (a.AlgId(), a.DigestLen()) == Registered(a)
  {
  }
}
