/** The device side of the session ratchet: ratchet_core.cpp, ratchet.cpp and gatt_svr.cpp. */
module RatchetDevice {
  import opened Bytes
  import opened Limbs
  import opened Options
  import opened RatchetWire
  import opened X25519
  import Ed = Ed25519
  import SHA2
  import SHA512

  // The proof that both sides store for the next session.
  function NextProof(shared: Bytes): (p: Bytes)
    ensures |p| == 32
  {
    SHA2.Hmac(shared, NEXT_PROOF_CONTEXT)[..32]
  }

  // What the device with the given stored proof answers to a phone's key.
  function Derived(secret: Bytes, phonePublicKey: Bytes, prior: Option<Bytes>, rc: Bytes): (e: Exchange)
    requires |rc| == 16
    ensures e.Sized() && e.status <= 1
  {
    var next := NextProof(Shared(secret, phonePublicKey));
    match prior
    case Some(p) => Exchange(Public(secret), rc, SHA2.Hmac(p, rc), next, 1)
    case None => Exchange(Public(secret), SHA2.ZeroBytes(16), SHA2.ZeroBytes(64), next, 0)
  }

  // hmac<SHA512> on byte strings, into a fresh buffer.
  method Mac(key: Bytes, text: Bytes, outLen: nat) returns (out: Bytes)
    requires outLen <= 64 && |key| < 0x1_0000_0000_0000_0000 && |text| < 0x1_0000_0000_0000_0000
    ensures out == SHA2.Hmac(key, text)[..outLen]
  {
    hide SHA2.Hmac;
    var k, t, o := new Byte[|key|](i requires 0 <= i < |key| => key[i]),
                   new Byte[|text|](i requires 0 <= i < |text| => text[i]), new Byte[64];
    assert k[..|key|] == key && t[..|text|] == text;
    SHA512.Hmac(o, outLen, k, |key|, t, |text|);
    out := o[..outLen];
  }

  // ratchet_derive. The draws stand for the random number generator behind dh1.
  method RatchetDerive(phonePublicKey: Bytes, priorProof: Bytes, hadPriorState: bool, rc: Bytes, draws: seq<Bytes>)
    returns (ok: bool, out: Exchange)
    requires |phonePublicKey| == |priorProof| == 32 && |rc| == 16 && Usable(draws)
    ensures ok <==> Contributory(Drawn(draws), phonePublicKey)
    ensures ok ==> out == Derived(Drawn(draws), phonePublicKey, if hadPriorState then Some(priorProof) else None, rc)
  {
    hide SHA2.Hmac, Shared, Public, Weak, Contributory, Usable, Drawn, NEXT_PROOF_CONTEXT, Ascii;
    var devicePublicKey, devicePrivateKey := new Byte[32], new Byte[32];
    Dh1(devicePublicKey, devicePrivateKey, draws);
    var pk := devicePublicKey[..];
    var sharedSecret := new Byte[32](i requires 0 <= i < 32 => phonePublicKey[i]);
    assert sharedSecret[..] == phonePublicKey;
    ok := Dh2(sharedSecret, devicePrivateKey);
    out := Exchange(pk, SHA2.ZeroBytes(16), SHA2.ZeroBytes(64), SHA2.ZeroBytes(32), 0);
    if !ok {
      return;
    }
    if hadPriorState {
      var deviceProof := Mac(priorProof, rc, 64);
      out := out.(rc := rc, deviceProof := deviceProof, status := 1);
    }
    ContextLength();
    var nextProof := Mac(sharedSecret[..], NEXT_PROOF_CONTEXT, 32);
    out := out.(nextProof := nextProof);
  }

  lemma ContextLength()
    ensures |NEXT_PROOF_CONTEXT| == 27 && |ATTEST_CONTEXT| == 29
  {
  }

  // What happens on a connection, as far as the challenge cache is concerned.
  datatype GattEvent = ChallengeSigned(challenge: Bytes) | RatchetRun | Disconnected

  // The challenge last signed since the last disconnect.
  ghost function LastSigned(trace: seq<GattEvent>): Option<Bytes> {
    if trace == [] then None
    else match trace[|trace| - 1]
      case ChallengeSigned(c) => Some(c)
      case Disconnected => None
      case RatchetRun => LastSigned(trace[..|trace| - 1])
  }

  ghost predicate SignedAt(trace: seq<GattEvent>, c: Bytes, i: int) {
    0 <= i < |trace| && trace[i] == ChallengeSigned(c) && forall j :: i < j < |trace| ==> trace[j] == RatchetRun
  }

  // What that means event by event.
  lemma {:induction false} LastSignedMeans(trace: seq<GattEvent>, c: Bytes)
    ensures LastSigned(trace) == Some(c) <==> exists i :: SignedAt(trace, c, i)
  {
    if trace == [] {
    } else {
      var n := |trace| - 1;
      LastSignedMeans(trace[..n], c);
      if trace[n] == RatchetRun {
        forall i
          ensures SignedAt(trace, c, i) <==> SignedAt(trace[..n], c, i)
        {
          SignedBefore(trace, c, i);
        }
      } else {
        assert SignedAt(trace, c, n) <==> trace[n] == ChallengeSigned(c);
      }
    }
  }

  lemma SignedBefore(trace: seq<GattEvent>, c: Bytes, i: int)
    requires trace != [] && trace[|trace| - 1] == RatchetRun
    ensures SignedAt(trace, c, i) <==> SignedAt(trace[..|trace| - 1], c, i)
  {
  }

  // A status code of the attribute protocol.
  datatype AttResult = Success | Unlikely | InvalidLength

  class Board {
    const privateKey: array<Byte>
    const publicKey: array<Byte>
    const sha256: Bytes -> Hash32
    var stored: Option<Bytes>
    const lastChallenge: array<Byte>
    var lastChallengeLen: nat
    const signature: array<Byte>
    const wire: array<Byte>
    ghost var trace: seq<GattEvent>

    ghost predicate Valid()
      reads this, lastChallenge
    {
      && privateKey.Length == publicKey.Length == 32 && lastChallenge.Length == 256
      && signature.Length == 64 && wire.Length == 209 && lastChallengeLen <= 256
      && publicKey !in {signature, wire, lastChallenge} && privateKey !in {signature, wire, lastChallenge}
      && signature !in {wire, lastChallenge} && wire != lastChallenge
      && (stored.Some? ==> |stored.value| == 32)
      && LastSigned(trace) == if lastChallengeLen == 0 then None else Some(lastChallenge[..lastChallengeLen])
    }

    constructor (privateKey: array<Byte>, publicKey: array<Byte>, sha256: Bytes -> Hash32, stored: Option<Bytes>)
      requires privateKey.Length == publicKey.Length == 32 && (stored.Some? ==> |stored.value| == 32)
      ensures Valid() && trace == [] && this.stored == stored
      ensures this.privateKey == privateKey && this.publicKey == publicKey && this.sha256 == sha256
      ensures fresh(lastChallenge) && fresh(signature) && fresh(wire)
    {
      this.privateKey, this.publicKey, this.sha256, this.stored := privateKey, publicKey, sha256, stored;
      lastChallenge, lastChallengeLen := new Byte[256], 0;
      signature := new Byte[64];
      wire := new Byte[209];
      trace := [];
    }

    // gatt_svr_clear_challenge_cache, called on disconnect.
    method ClearChallengeCache()
      requires Valid()
      modifies this`lastChallengeLen, this`trace
      ensures Valid() && trace == old(trace) + [Disconnected]
    {
      lastChallengeLen := 0;
      trace := trace + [Disconnected];
    }

    // access_challenge: sign the value written and remember it. The value is what the stack hands over.
    method AccessChallenge(isWrite: bool, value: Bytes, flattened: bool) returns (r: AttResult)
      requires Valid()
      modifies this`lastChallengeLen, this`trace, lastChallenge, signature
      ensures Valid()
      ensures r == if !isWrite then Unlikely
                   else if |value| == 0 || |value| > 256 then InvalidLength
                   else if !flattened then Unlikely else Success
      ensures r == Success ==>
        && trace == old(trace) + [ChallengeSigned(value)]
        && signature[..] == Ed.Signature(privateKey[..], publicKey[..], value)
      ensures r != Success ==> trace == old(trace) && signature[..] == old(signature[..])
    {
      hide Ed.Signature;
      if !isWrite {
        return Unlikely;
      }
      if |value| == 0 || |value| > 256 {
        return InvalidLength;
      }
      if !flattened {
        return Unlikely;
      }
      var challenge := new Byte[|value|](i requires 0 <= i < |value| => value[i]);
      assert challenge[..] == value;
      ghost var key, pk := privateKey[..], publicKey[..];
      Ed.Sign(signature, privateKey, publicKey, challenge);
      ghost var signed := signature[..];
      assert signed == Ed.Signature(key, pk, value);
      forall i | 0 <= i < |value| { lastChallenge[i] := value[i]; }
      assert signature[..] == signed && privateKey[..] == key && publicKey[..] == pk;
      lastChallengeLen := |value|;
      assert lastChallenge[..lastChallengeLen] == value;
      trace := trace + [ChallengeSigned(value)];
      return Success;
    }

    // ratchet_run_exchange: the stored proof moves on exactly if the exchange succeeds.
    method RunExchange(phonePublicKey: Bytes, random: Bytes, draws: seq<Bytes>)
      returns (ok: bool, out: Exchange)
      requires Valid() && |phonePublicKey| == 32 && |random| == 16 && Usable(draws)
      modifies this`stored
      ensures Valid()
      ensures ok <==> Contributory(Drawn(draws), phonePublicKey)
      ensures ok ==> out == Derived(Drawn(draws), phonePublicKey, old(stored), random)
      ensures stored == if ok then Some(out.nextProof) else old(stored)
    {
      hide Derived, Usable, Drawn, Contributory, LastSigned;
      var hadPriorState := stored.Some?;
      var rc := if hadPriorState then random else SHA2.ZeroBytes(16);
      var priorProof := if hadPriorState then stored.value else SHA2.ZeroBytes(32);
      ok, out := RatchetDerive(phonePublicKey, priorProof, hadPriorState, rc, draws);
      if !ok {
        return;
      }
      DerivedIgnoresRc(Drawn(draws), phonePublicKey, stored, rc, random);
      stored := Some(out.nextProof);
    }

    // access_ratchet_pubkey: run an exchange, sign it together with the cached challenge, and publish
    // both. Any failure leaves the stored proof and the response as they were.
    method AccessRatchetPubkey(isWrite: bool, value: Bytes, flattened: bool, random: Bytes, draws: seq<Bytes>)
      returns (r: AttResult)
      requires Valid() && |random| == 16 && Usable(draws)
      modifies this`stored, this`trace, wire
      ensures Valid()
      ensures r == InvalidLength <==> isWrite && |value| != 32
      ensures r == Success <==>
        isWrite && |value| == 32 && LastSigned(old(trace)).Some? && flattened && Contributory(Drawn(draws), value)
      ensures r == Success ==>
        && trace == old(trace) + [RatchetRun]
        && var e := Derived(Drawn(draws), value, old(stored), random);
           stored == Some(e.nextProof)
           && wire[..] == Wire(e, Ed.Signature(privateKey[..], publicKey[..],
                                               AttestMessage(sha256(LastSigned(old(trace)).value), e)))
      ensures r != Success ==> stored == old(stored) && trace == old(trace) && wire[..] == old(wire[..])
    {
      hide Derived, Usable, Drawn, Contributory, Ed.Signature, AttestMessage, Wire;
      if !isWrite {
        return Unlikely;
      }
      if |value| != 32 {
        return InvalidLength;
      }
      if lastChallengeLen == 0 {
        return Unlikely;
      }
      if !flattened {
        return Unlikely;
      }
      var ok, result := RunExchange(value, random, draws);
      if !ok {
        return Unlikely;
      }
      var challengeHash := sha256(lastChallenge[..lastChallengeLen]);
      Publish(challengeHash, result);
      trace := trace + [RatchetRun];
      r := Success;
    }

    method Publish(challengeHash: Hash32, e: Exchange)
      requires Valid() && e.Sized()
      modifies wire
      ensures wire[..] == Wire(e, Ed.Signature(privateKey[..], publicKey[..], AttestMessage(challengeHash, e)))
    {
      hide Ed.Signature, LastSigned;
      var msg := AttestMessage(challengeHash, e);
      ContextLength();
      var attestMsg, ratchetSig := new Byte[|msg|](i requires 0 <= i < |msg| => msg[i]), new Byte[64];
      assert attestMsg[..] == msg;
      ghost var key, pk := privateKey[..], publicKey[..];
      Ed.Sign(ratchetSig, privateKey, publicKey, attestMsg);
      assert ratchetSig[..] == Ed.Signature(key, pk, msg);
      var response := Wire(e, ratchetSig[..]);
      forall i | 0 <= i < 209 { wire[i] := response[i]; }
      assert wire[..] == response && privateKey[..] == key && publicKey[..] == pk;
    }
  }

  lemma DerivedIgnoresRc(secret: Bytes, phonePublicKey: Bytes, prior: Option<Bytes>, rc: Bytes, rc': Bytes)
    requires |rc| == |rc'| == 16 && (prior.Some? ==> rc == rc')
    ensures Derived(secret, phonePublicKey, prior, rc) == Derived(secret, phonePublicKey, prior, rc')
  {
    hide SHA2.Hmac, NextProof, Shared, Public;
  }
}
