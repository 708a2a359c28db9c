/** RatchetManager.swift: the phone's half of an exchange. */
module RatchetPhone {
  import opened Bytes
  import opened Options
  import opened RatchetWire
  import opened RatchetDevice
  import B = RatchetBackend
  import SHA2

  datatype PhoneVerdict = Bootstrap | Verified | Mismatch

  datatype Outcome = Outcome(verdict: PhoneVerdict, attestation: Exchange, signature: Bytes)

  // Absent state on either side is never a mismatch.
  function LocalVerdict(prior: Option<Bytes>, e: Exchange): PhoneVerdict {
    if e.status == 0 || prior.None? then Bootstrap
    else if SHA2.Hmac(prior.value, e.rc) == e.deviceProof then Verified
    else Mismatch
  }

  class Phone {
    var proofs: map<string, Bytes>

    constructor ()
      ensures proofs == map[]
    {
      proofs := map[];
    }

    // runExchange, once the device has answered. None stands for an exception; agreed is what the key
    // agreement with the device's key returns, if it does not throw.
    method RunExchange(deviceId: string, response: Bytes, agreed: Option<Bytes>) returns (outcome: Option<Outcome>)
      modifies this
      ensures outcome.Some? <==> Parse(response).Some? && agreed.Some?
      ensures outcome.Some? ==>
        var (e, signature) := Parse(response).value;
        outcome.value == Outcome(LocalVerdict(B.Lookup(old(proofs), deviceId), e), e, signature)
        && proofs == old(proofs)[deviceId := NextProof(agreed.value)]
      ensures outcome.None? ==> proofs == old(proofs)
    {
      hide NextProof, SHA2.Hmac;
      var parsed := Parse(response);
      if parsed.None? || agreed.None? {
        return None;
      }
      var (e, signature) := parsed.value;
      var nextProof := NextProof(agreed.value);
      var verdict := Bootstrap;
      if e.status == 0 {
        verdict := Bootstrap;
      } else if deviceId in proofs {
        var expected := SHA2.Hmac(proofs[deviceId], e.rc);
        verdict := if expected == e.deviceProof then Verified else Mismatch;
      } else {
        verdict := Bootstrap;
      }
      proofs := proofs[deviceId := nextProof];
      return Some(Outcome(verdict, e, signature));
    }
  }
}
