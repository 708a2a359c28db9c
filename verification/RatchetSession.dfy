/** One session of device, phone and backend together. */
module RatchetSession {
  import opened Bytes
  import opened Options
  import opened RatchetWire
  import opened RatchetDevice
  import opened X25519
  import B = RatchetBackend
  import R = RatchetRuns
  import P = RatchetPhone
  import G = Group
  import Points
  import Scalars
  import Edwards
  import LadderLaws
  import Ed = Ed25519
  import SHA2

  // What signing and verifying take for granted.
  ghost predicate SignatureLaws() {
    G.CurveLaws(Edwards.D) && G.Multiple(Edwards.D, Scalars.Q, Points.B) == Edwards.O
  }

  // What the backend's verifier must do: take every signature that this one takes and that is strict. It may
  // refuse others.
  ghost predicate TakesSignatures(verify: (Bytes, Bytes, Bytes) -> bool) {
    forall pk: Bytes, m: Bytes, s: Bytes :: |s| == 64 && Ed.Accepts(s, pk, m) && Ed.Strict(s, pk) ==> verify(pk, m, s)
  }

  ghost predicate IsHmac(mac: R.Mac) {
    forall k: Bytes, t: Bytes :: mac(k, t) == SHA2.Hmac(k, t)
  }

  // A world of runs has the device's proof as that of copy 0, and the backend's row, whenever it was written.
  predicate Shows(w: R.World, stored: Option<Bytes>, row: Option<B.Row>) {
    && B.Lookup(w.held, 0) == stored
    && w.row == if row.Some? then Some(row.value.(updatedAt := 0)) else None
  }

  // Two attestations that the backend cannot tell apart.
  ghost predicate JudgedAlike(mac: R.Mac, e: Exchange, e': Exchange) {
    e.nextProof == e'.nextProof && forall row :: B.VerdictOf(mac, row, e) == B.VerdictOf(mac, row, e')
  }

  // The device's answer is the exchange that runs are made of, on any copy, whatever else is going on.
  lemma ExchangeIsStep(mac: R.Mac, w: R.World, copy: nat, secret: Bytes, phoneKey: Bytes, rc: Bytes)
    requires |rc| == 16 && IsHmac(mac)
    ensures var e := Derived(secret, phoneKey, B.Lookup(w.held, copy), rc);
            var w' := R.After(mac, w, R.Exchanged(copy, rc, e.nextProof));
            && w'.held == w.held[copy := e.nextProof] && w'.row == w.row
            && |w'.made| == |w.made| + 1 && w'.made[|w.made|].Some? && JudgedAlike(mac, w'.made[|w.made|].value, e)
  {
    hide SHA2.Hmac, NextProof, Shared, Public;
  }

  // The backend's verdict on it is its delivery, at any later time.
  lemma DeliveryIsStep(mac: R.Mac, w: R.World, x: nat, e: Exchange)
    requires x < |w.made| && w.made[x].Some? && JudgedAlike(mac, w.made[x].value, e)
    ensures var w' := R.After(mac, w, R.Delivered(x));
            w'.held == w.held && w'.row == Some(B.Row(B.VerdictOf(mac, w.row, e), Some(e.nextProof), B.Server, 0))
  {
    hide B.VerdictOf;
  }

  // So a delivered session is an exchange and its delivery, one after the other.
  lemma SessionIsTwoSteps(mac: R.Mac, w: R.World, stored: Option<Bytes>, row: Option<B.Row>,
                          secret: Bytes, phoneKey: Bytes, rc: Bytes, now: int)
    requires |rc| == 16 && IsHmac(mac) && Shows(w, stored, row)
    ensures var e := Derived(secret, phoneKey, stored, rc);
            var w' := R.After(mac, R.After(mac, w, R.Exchanged(0, rc, e.nextProof)), R.Delivered(|w.made|));
            Shows(w', Some(e.nextProof), Some(B.Row(B.VerdictOf(mac, row, e), Some(e.nextProof), B.Server, now)))
  {
    hide R.After, B.VerdictOf, Derived, IsHmac, JudgedAlike;
    var e := Derived(secret, phoneKey, stored, rc);
    var w1 := R.After(mac, w, R.Exchanged(0, rc, e.nextProof));
    ExchangeIsStep(mac, w, 0, secret, phoneKey, rc);
    DeliveryIsStep(mac, w1, |w.made|, e);
    VerdictIgnoresTime(mac, row, e);
  }

  lemma VerdictIgnoresTime(mac: R.Mac, row: Option<B.Row>, e: Exchange)
    ensures row.Some? ==> B.VerdictOf(mac, Some(row.value.(updatedAt := 0)), e) == B.VerdictOf(mac, row, e)
  {
  }

  // The challenge and the exchange on the device.
  method DeviceTurn(board: Board, challenge: Bytes, key: Bytes, random: Bytes, draws: seq<Bytes>) returns (r: AttResult)
    requires board.Valid() && 0 < |challenge| <= 256 && |key| == 32 && |random| == 16 && Usable(draws)
    modifies board, board.lastChallenge, board.signature, board.wire
    ensures board.Valid()
    ensures board.privateKey[..] == old(board.privateKey[..]) && board.publicKey[..] == old(board.publicKey[..])
    ensures r == Success <==> Contributory(Drawn(draws), key)
    ensures r == Success ==>
      var e := Derived(Drawn(draws), key, old(board.stored), random);
      var signature := Ed.Signature(board.privateKey[..], board.publicKey[..], AttestMessage(board.sha256(challenge), e));
      board.stored == Some(e.nextProof) && Parse(board.wire[..]) == Some((e, signature))
    ensures r != Success ==> board.stored == old(board.stored)
  {
    hide Derived, Usable, Drawn, Contributory, Ed.Signature, Wire, Parse, AttestMessage, LastSigned;
    ghost var sk, pk, prior := board.privateKey[..], board.publicKey[..], board.stored;
    var signed := board.AccessChallenge(true, challenge, true);
    LastSignedNow(old(board.trace), challenge);
    assert board.privateKey[..] == sk && board.publicKey[..] == pk;
    r := board.AccessRatchetPubkey(true, key, true, random, draws);
    assert board.privateKey[..] == sk && board.publicKey[..] == pk;
    if r == Success {
      var e := Derived(Drawn(draws), key, prior, random);
      ParseWire(e, Ed.Signature(sk, pk, AttestMessage(board.sha256(challenge), e)));
    }
  }

  // A session whose messages all arrive. The device accepts the exchange exactly if it contributes to the
  // secret; then the attestation that the phone forwards is judged by its proof, and device, phone and
  // backend are left with the same proof on file: an exchange and its delivery, in any run.
  method Session(board: Board, phone: P.Phone, table: B.RatchetTable, deviceId: string, challenge: Bytes,
                 phoneSecret: Bytes, random: Bytes, draws: seq<Bytes>, now: int)
    returns (r: AttResult, j: Option<B.Judgement>, local: Option<P.PhoneVerdict>)
    requires SignatureLaws() && board.Valid() && 0 < |challenge| <= 256
    requires |phoneSecret| == 32 && |random| == 16 && Usable(draws)
    requires board.publicKey[..] == Ed.PublicKey(board.privateKey[..])
    requires table.sha256 == board.sha256 && TakesSignatures(table.verify) && IsHmac(table.mac)
    modifies board, phone, table, board.lastChallenge, board.signature, board.wire
    ensures board.Valid() && board.privateKey[..] == old(board.privateKey[..])
    ensures board.publicKey[..] == old(board.publicKey[..])
    ensures r == Success <==> Contributory(Drawn(draws), Public(phoneSecret))
    ensures r == Success ==>
      var e := Derived(Drawn(draws), Public(phoneSecret), old(board.stored), random);
      var verdict := B.VerdictOf(table.mac, B.Lookup(old(table.rows), deviceId), e);
      && j == Some(B.Judged(verdict))
      && local == Some(P.LocalVerdict(B.Lookup(old(phone.proofs), deviceId), e))
      && Parse(board.wire[..]).Some? && Parse(board.wire[..]).value.0 == e
      && board.stored == Some(e.nextProof)
      && phone.proofs == old(phone.proofs)[deviceId := e.nextProof]
      && table.rows == old(table.rows)[deviceId := B.Row(verdict, Some(e.nextProof), B.Server, now)]
      && forall w :: Shows(w, old(board.stored), B.Lookup(old(table.rows), deviceId)) ==>
           var w' := R.After(table.mac, R.After(table.mac, w, R.Exchanged(0, random, e.nextProof)), R.Delivered(|w.made|));
           Shows(w', board.stored, B.Lookup(table.rows, deviceId))
    ensures r != Success ==>
      && j == None && local == None && board.stored == old(board.stored)
      && phone.proofs == old(phone.proofs) && table.rows == old(table.rows)
  {
    hide *;
    j, local := None, None;
    ghost var sk, prior, row := board.privateKey[..], board.stored, B.Lookup(table.rows, deviceId);
    var key := Public(phoneSecret);
    r := DeviceTurn(board, challenge, key, random, draws);
    if r != Success {
      return;
    }
    ghost var e := Derived(Drawn(draws), key, prior, random);
    ghost var signature := Ed.Signature(sk, Ed.PublicKey(sk), AttestMessage(table.sha256(challenge), e));
    var response := board.wire[..];
    assert Parse(response) == Some((e, signature));
    var agreed := Shared(phoneSecret, Parse(response).value.0.devicePublicKey);
    var outcome := phone.RunExchange(deviceId, response, Some(agreed));
    SecretsAgree(draws, phoneSecret, prior, random);
    AttestationPasses(table, e, sk, challenge);
    var attestation := B.Forwarded(outcome.value.attestation, outcome.value.signature);
    assert outcome.value.attestation == e && outcome.value.signature == signature;
    var judgement := table.VerifyAndRecord(deviceId, challenge, Some(attestation), Some(board.publicKey[..]), now);
    assert board.wire[..] == response;
    forall w | Shows(w, prior, row)
      ensures var w' := R.After(table.mac, R.After(table.mac, w, R.Exchanged(0, random, e.nextProof)), R.Delivered(|w.made|));
              Shows(w', board.stored, B.Lookup(table.rows, deviceId))
    {
      SessionIsTwoSteps(table.mac, w, prior, row, Drawn(draws), key, random, now);
    }
    j, local := Some(judgement), Some(outcome.value.verdict);
  }

  // Of two delivered sessions in a row, the second is verified by backend and phone alike.
  method TwoSessions(board: Board, phone: P.Phone, table: B.RatchetTable, deviceId: string,
                     challenges: (Bytes, Bytes), secrets: (Bytes, Bytes), randoms: (Bytes, Bytes),
                     draws: (seq<Bytes>, seq<Bytes>), now: (int, int))
    returns (delivered: bool, j: Option<B.Judgement>, local: Option<P.PhoneVerdict>)
    requires SignatureLaws() && board.Valid() && 0 < |challenges.0| <= 256 && 0 < |challenges.1| <= 256
    requires |secrets.0| == |secrets.1| == 32 && |randoms.0| == |randoms.1| == 16 && Usable(draws.0) && Usable(draws.1)
    requires board.publicKey[..] == Ed.PublicKey(board.privateKey[..])
    requires table.sha256 == board.sha256 && TakesSignatures(table.verify) && IsHmac(table.mac)
    modifies board, phone, table, board.lastChallenge, board.signature, board.wire
    ensures delivered <==>
      Contributory(Drawn(draws.0), Public(secrets.0)) && Contributory(Drawn(draws.1), Public(secrets.1))
    ensures delivered ==> j == Some(B.Judged(B.Verified)) && local == Some(P.Verified)
  {
    hide *;
    var r;
    r, j, local := Session(board, phone, table, deviceId, challenges.0, secrets.0, randoms.0, draws.0, now.0);
    if r != Success {
      return false, j, local;
    }
    ghost var stored, row, held := board.stored, B.Lookup(table.rows, deviceId), B.Lookup(phone.proofs, deviceId);
    r, j, local := Session(board, phone, table, deviceId, challenges.1, secrets.1, randoms.1, draws.1, now.1);
    delivered := r == Success;
    if delivered {
      ContinuedIsVerified(table.mac, stored.value, row, Drawn(draws.1), Public(secrets.1), randoms.1);
    }
  }

  // With the same proof on file everywhere, a continuation is verified.
  lemma ContinuedIsVerified(mac: R.Mac, proof: Bytes, row: Option<B.Row>, secret: Bytes, phoneKey: Bytes, rc: Bytes)
    requires |rc| == 16 && IsHmac(mac) && row.Some? && row.value.nextProof == Some(proof)
    ensures var e := Derived(secret, phoneKey, Some(proof), rc);
            B.VerdictOf(mac, row, e) == B.Verified && P.LocalVerdict(Some(proof), e) == P.Verified
  {
    hide SHA2.Hmac, NextProof, Shared, Public;
  }

  lemma LastSignedNow(trace: seq<GattEvent>, c: Bytes)
    ensures LastSigned(trace + [ChallengeSigned(c)]) == Some(c)
  {
  }

  // Device and phone make the same next proof of every exchange.
  lemma SecretsAgree(draws: seq<Bytes>, phoneSecret: Bytes, prior: Option<Bytes>, rc: Bytes)
    requires |rc| == 16 && SignatureLaws() && Usable(draws)
    ensures var e := Derived(Drawn(draws), Public(phoneSecret), prior, rc);
            e.nextProof == NextProof(Shared(phoneSecret, e.devicePublicKey))
  {
    hide SHA2.Hmac, NextProof, Shared, Public, Drawn, Usable, G.CurveLaws;
    LadderLaws.SecretsCommute(Drawn(draws), phoneSecret);
  }

  lemma SignedPasses(sk: Bytes, m: Bytes)
    requires SignatureLaws()
    ensures var (s, pk) := (Ed.Signature(sk, Ed.PublicKey(sk), m), Ed.PublicKey(sk));
            Ed.Accepts(s, pk, m) && Ed.Strict(s, pk)
  {
    hide Ed.Accepts, Ed.Strict, Ed.Signature, Ed.PublicKey, G.CurveLaws;
    Ed.SignedIsAccepted(sk, m);
    Ed.SignedIsStrict(sk, m);
  }

  // The backend accepts what the device signed, rebuilt from the fields.
  lemma AttestationPasses(table: B.RatchetTable, e: Exchange, sk: Bytes, challenge: Bytes)
    requires SignatureLaws() && e.Sized() && e.status <= 1 && TakesSignatures(table.verify)
    ensures var pk := Ed.PublicKey(sk);
            var a := B.Forwarded(e, Ed.Signature(sk, pk, AttestMessage(table.sha256(challenge), e)));
            table.Rejection(challenge, Some(a), Some(pk)).None? && B.AllText(a) && B.Fields(a) == e
  {
    hide Ed.Accepts, Ed.Strict, Ed.Signature, Ed.PublicKey, AttestMessage, SignatureLaws;
    SignedPasses(sk, AttestMessage(table.sha256(challenge), e));
  }
}
