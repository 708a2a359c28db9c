/** The proofs that devices and phones put on file, in terms of the keyed hash of their shared secrets. */
module RatchetProofs {
  import opened Bytes
  import opened Options
  import opened RatchetWire
  import opened RatchetDevice
  import opened RatchetRuns
  import opened X25519
  import B = RatchetBackend
  import P = RatchetPhone
  import SHA2

  // The text of the code, letter by letter.
  const NEXT_TEXT: Bytes := [
    112, 104, 121, 115, 105, 99, 97, 108, 107, 101, 121, 45, 114, 97, 116, 99, 104, 101, 116, 45, 110, 101, 120, 116, 45, 118, 49]

  // The next proof is the first half of the keyed hash of that text.
  lemma NextProofIs(shared: Bytes)
    ensures NextProof(shared) == SHA2.Hmac(shared, NEXT_TEXT)[..32]
  {
    hide SHA2.Hmac;
    assert NEXT_PROOF_CONTEXT == NEXT_TEXT;
  }

  // The two keys of an exchange: the secret that the device draws, and the key that the phone sends.
  datatype Keys = Keys(secret: Bytes, phoneKey: Bytes) {
    function Secret(): Bytes {
      Shared(secret, phoneKey)
    }
  }

  // Every exchange of the run puts on file what ratchet_derive makes of its keys.
  ghost predicate ByDevice(events: seq<Event>, keys: seq<Keys>) {
    |keys| == |events|
    && forall i :: ExchangedAt(events, i) ==>
         exists prior, rc :: |rc| == 16 && events[i].next == Derived(keys[i].secret, keys[i].phoneKey, prior, rc).nextProof
  }

  // The exchanges of the run have different shared secrets.
  ghost predicate DistinctSecrets(events: seq<Event>, keys: seq<Keys>) {
    |keys| == |events|
    && forall i, j :: 0 <= i < j && ExchangedAt(events, i) && ExchangedAt(events, j) ==> keys[i].Secret() != keys[j].Secret()
  }

  // HMAC-SHA512 on the text of the code, cut to 32 bytes, has no collision among the secrets of the run.
  ghost predicate NoHmacCollision(events: seq<Event>, keys: seq<Keys>) {
    |keys| == |events|
    && forall i, j :: ExchangedAt(events, i) && ExchangedAt(events, j) ==>
         SHA2.Hmac(keys[i].Secret(), NEXT_TEXT)[..32] == SHA2.Hmac(keys[j].Secret(), NEXT_TEXT)[..32] ==>
         keys[i].Secret() == keys[j].Secret()
  }

  // So the proofs of such a run are different exactly if its shared secrets are.
  lemma ProofsDistinct(events: seq<Event>, keys: seq<Keys>)
    requires ByDevice(events, keys) && NoHmacCollision(events, keys)
    ensures DistinctProofs(events) <==> DistinctSecrets(events, keys)
  {
    hide NextProof, SHA2.Hmac, Shared, Derived;
    forall i | ExchangedAt(events, i)
      ensures events[i].next == SHA2.Hmac(keys[i].Secret(), NEXT_TEXT)[..32]
    {
      var prior, rc :| |rc| == 16 && events[i].next == Derived(keys[i].secret, keys[i].phoneKey, prior, rc).nextProof;
      DerivedProof(keys[i].secret, keys[i].phoneKey, prior, rc);
      NextProofIs(keys[i].Secret());
    }
    hide NEXT_TEXT, Keys.Secret, ByDevice;
    if DistinctProofs(events) {
      forall i, j | 0 <= i < j && ExchangedAt(events, i) && ExchangedAt(events, j)
        ensures keys[i].Secret() != keys[j].Secret()
      {
        assert events[i].next != events[j].next;
      }
    }
    if DistinctSecrets(events, keys) {
      forall i, j | 0 <= i < j < |events| && events[i].Exchanged? && events[j].Exchanged?
        ensures events[i].next != events[j].next
      {
        assert ExchangedAt(events, i) && ExchangedAt(events, j);
      }
    }
  }

  lemma DerivedProof(secret: Bytes, phoneKey: Bytes, prior: Option<Bytes>, rc: Bytes)
    requires |rc| == 16
    ensures Derived(secret, phoneKey, prior, rc).nextProof == NextProof(Shared(secret, phoneKey))
  {
    hide NextProof, SHA2.Hmac, Shared, Public;
  }

  // Phone and backend, with the same proof on file and the same MAC, come to the same verdict; a phone with
  // nothing on file calls that a bootstrap, which to the backend is unverifiable if the device claims more.
  lemma SameProofSameVerdict(mac: Mac, row: Option<B.Row>, e: Exchange)
    requires forall k: Bytes, t: Bytes :: mac(k, t) == SHA2.Hmac(k, t)
    ensures P.LocalVerdict(B.ProofOnFile(row), e) ==
      match B.VerdictOf(mac, row, e)
      case Bootstrap => P.Bootstrap
      case Verified => P.Verified
      case Mismatch => P.Mismatch
      case Unverifiable => P.Bootstrap
  {
    hide SHA2.Hmac;
  }
}
