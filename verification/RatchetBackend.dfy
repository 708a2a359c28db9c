/** backend/auth/ratchet.js: the verdict on an attestation, and the ratchet_state table. */
module RatchetBackend {
  import opened Bytes
  import opened Options
  import opened RatchetWire

  type DeviceId = string

  datatype Verdict = Bootstrap | Verified | Mismatch | Unverifiable

  datatype Reporter = ClientReported | Server

  // A row of the table; the device id is its key.
  datatype Row = Row(status: Verdict, nextProof: Option<Bytes>, verifiedBy: Reporter, updatedAt: int)

  // A field of the request body: a string, as the bytes that base64 decodes it to, or something else.
  datatype Field = Text(bytes: Bytes) | NotText

  // The status is None unless it is a number.
  datatype Attestation = Attestation(devicePublicKey: Field, rc: Field, deviceProof: Field, nextProof: Field,
                                     status: Option<int>, signature: Field)

  datatype Reason = MalformedStatus | MalformedEncoding | MalformedLength | NotRegistered | BadSignature

  datatype Judgement = Rejected(reason: Reason) | Judged(verdict: Verdict)

  predicate AllText(a: Attestation) {
    a.devicePublicKey.Text? && a.rc.Text? && a.deviceProof.Text? && a.nextProof.Text? && a.signature.Text?
  }

  predicate AllSized(a: Attestation)
    requires AllText(a)
  {
    && |a.devicePublicKey.bytes| == 32 && |a.rc.bytes| == 16 && |a.deviceProof.bytes| == 64
    && |a.nextProof.bytes| == 32 && |a.signature.bytes| == 64
  }

  function Fields(a: Attestation): Exchange
    requires AllText(a) && (a.status == Some(0) || a.status == Some(1))
  {
    Exchange(a.devicePublicKey.bytes, a.rc.bytes, a.deviceProof.bytes, a.nextProof.bytes, a.status.value)
  }

  // The attestation that a phone forwards.
  function Forwarded(e: Exchange, signature: Bytes): Attestation {
    Attestation(Text(e.devicePublicKey), Text(e.rc), Text(e.deviceProof), Text(e.nextProof), Some(e.status), Text(signature))
  }

  // The continuity verdict on a signed claim, against the row on file.
  function VerdictOf(mac: (Bytes, Bytes) -> Bytes, row: Option<Row>, e: Exchange): Verdict {
    if e.status == 0 then Bootstrap
    else match row
      case Some(Row(_, Some(prior), _, _)) => if mac(prior, e.rc) == e.deviceProof then Verified else Mismatch
      case _ => Unverifiable
  }

  function Lookup<K, V>(m: map<K, V>, k: K): (v: Option<V>)
    ensures v.Some? <==> k in m
    ensures v.Some? ==> v.value == m[k]
  {
    if k in m then Some(m[k]) else None
  }

  function ProofOnFile(row: Option<Row>): Option<Bytes> {
    if row.Some? then row.value.nextProof else None
  }

  // ---- sequences of calls ----

  // What the table is given: the hash, the MAC and the check of a signature under a registered key.
  datatype Checks = Checks(sha256: Bytes -> Hash32, mac: (Bytes, Bytes) -> Bytes, verify: (Bytes, Bytes, Bytes) -> bool)

  datatype Call =
    | Attested(id: DeviceId, challenge: Bytes, attestation: Option<Attestation>, deviceKey: Option<Bytes>, now: int)
    | Reported(id: DeviceId, status: Verdict, now: int)
    | Cleared(id: DeviceId)

  // The fields of an attestation that is complete, or nothing.
  function Complete(attestation: Option<Attestation>): (e: Option<(Exchange, Bytes)>)
    ensures e.Some? ==> e.value.0.Sized() && e.value.0.status <= 1 && |e.value.1| == 64
  {
    match attestation
    case Some(Attestation(Text(pk), Text(rc), Text(proof), Text(next), Some(status), Text(signature))) =>
      if 0 <= status <= 1 && |pk| == 32 && |rc| == 16 && |proof| == 64 && |next| == 32 && |signature| == 64 then
        Some((Exchange(pk, rc, proof, next, status), signature))
      else None
    case _ => None
  }

  // The call brings exchange e, signed under the device's key together with the challenge of its session.
  ghost predicate Brings(c: Checks, call: Call, e: Exchange) {
    && call.Attested? && call.deviceKey.Some?
    && exists signature :: Complete(call.attestation) == Some((e, signature))
         && c.verify(call.deviceKey.value, AttestMessage(c.sha256(call.challenge), e), signature)
  }

  function After(c: Checks, rows: map<DeviceId, Row>, call: Call): map<DeviceId, Row> {
    match call
    case Attested(id, challenge, attestation, Some(key), now) =>
      if Complete(attestation).Some?
         && c.verify(key, AttestMessage(c.sha256(challenge), Complete(attestation).value.0), Complete(attestation).value.1) then
        var e := Complete(attestation).value.0;
        rows[id := Row(VerdictOf(c.mac, Lookup(rows, id), e), Some(e.nextProof), Server, now)]
      else rows
    case Attested(_, _, _, None, _) => rows
    case Reported(id, status, now) => rows[id := Row(status, ProofOnFile(Lookup(rows, id)), ClientReported, now)]
    case Cleared(id) => rows - {id}
  }

  // The table after a sequence of calls.
  function TableAfter(c: Checks, calls: seq<Call>): map<DeviceId, Row> {
    if calls == [] then map[] else After(c, TableAfter(c, calls[..|calls| - 1]), calls[|calls| - 1])
  }

  lemma OneCall(c: Checks, rows: map<DeviceId, Row>, call: Call, id: DeviceId)
    ensures var row := Lookup(After(c, rows, call), id);
            || row == Lookup(rows, id)
            || (call == Cleared(id) && row == None)
            || (call.Reported? && call.id == id && row == Some(Row(call.status, ProofOnFile(Lookup(rows, id)), ClientReported, call.now)))
            || (call.Attested? && call.id == id && exists e ::
                  Brings(c, call, e) && row == Some(Row(VerdictOf(c.mac, Lookup(rows, id), e), Some(e.nextProof), Server, call.now)))
  {
    hide VerdictOf;
    if call.Attested? && Complete(call.attestation).Some? {
      var (e, signature) := Complete(call.attestation).value;
      if call.deviceKey.Some? && c.verify(call.deviceKey.value, AttestMessage(c.sha256(call.challenge), e), signature) {
        assert Brings(c, call, e);
      }
    }
  }

  lemma BroughtIs(c: Checks, rows: map<DeviceId, Row>, call: Call, e: Exchange)
    requires Brings(c, call, e)
    ensures Lookup(After(c, rows, call), call.id) == Some(Row(VerdictOf(c.mac, Lookup(rows, call.id), e), Some(e.nextProof), Server, call.now))
  {
    hide VerdictOf;
  }

  // Call i brought the proof for the device, which has not had its row cleared nor brought another since.
  ghost predicate Origin(c: Checks, calls: seq<Call>, i: int, id: DeviceId, proof: Bytes) {
    && 0 <= i < |calls| && calls[i].Attested? && calls[i].id == id
    && (exists e :: Brings(c, calls[i], e) && e.nextProof == proof)
    && forall k :: i < k < |calls| && calls[k].id == id ==> calls[k] != Cleared(id) && forall e :: !Brings(c, calls[k], e)
  }

  // Every proof on file was brought by a signed attestation of its device.
  lemma {:induction false} ProofOrigin(c: Checks, calls: seq<Call>, id: DeviceId) returns (i: nat)
    requires ProofOnFile(Lookup(TableAfter(c, calls), id)).Some?
    ensures Origin(c, calls, i, id, ProofOnFile(Lookup(TableAfter(c, calls), id)).value)
  {
    assert calls != [];
    var n := |calls| - 1;
    var was := TableAfter(c, calls[..n]);
    hide After, VerdictOf, Brings;
    OneCall(c, was, calls[n], id);
    if e :| calls[n].id == id && Brings(c, calls[n], e) {
      i := n;
      BroughtIs(c, was, calls[n], e);
      BringsIsAttested(c, calls[n], e);
    } else {
      i := ProofOrigin(c, calls[..n], id);
      assert forall k :: 0 <= k < n ==> calls[..n][k] == calls[k];
    }
  }

  lemma BringsIsAttested(c: Checks, call: Call, e: Exchange)
    requires Brings(c, call, e)
    ensures call.Attested? && call.deviceKey.Some?
  {
  }

  // A row that the server vouches for is the verdict on such an attestation, at that time.
  lemma {:induction false} ServerRowOrigin(c: Checks, calls: seq<Call>, id: DeviceId) returns (i: nat, e: Exchange)
    requires id in TableAfter(c, calls) && TableAfter(c, calls)[id].verifiedBy == Server
    ensures i < |calls| && calls[i].Attested? && calls[i].id == id && Brings(c, calls[i], e)
    ensures TableAfter(c, calls)[id]
         == Row(VerdictOf(c.mac, Lookup(TableAfter(c, calls[..i]), id), e), Some(e.nextProof), Server, calls[i].now)
  {
    assert calls != [];
    var n := |calls| - 1;
    var was := TableAfter(c, calls[..n]);
    hide After, VerdictOf, Brings;
    OneCall(c, was, calls[n], id);
    if Lookup(TableAfter(c, calls), id) == Lookup(was, id) {
      i, e := ServerRowOrigin(c, calls[..n], id);
      assert calls[..n][..i] == calls[..i];
    } else {
      i := n;
      e :| Brings(c, calls[n], e)
           && TableAfter(c, calls)[id] == Row(VerdictOf(c.mac, Lookup(was, id), e), Some(e.nextProof), Server, calls[n].now);
    }
  }

  class RatchetTable {
    const sha256: Bytes -> Hash32
    const mac: (Bytes, Bytes) -> Bytes
    const verify: (Bytes, Bytes, Bytes) -> bool
    var rows: map<DeviceId, Row>

    constructor (sha256: Bytes -> Hash32, mac: (Bytes, Bytes) -> Bytes, verify: (Bytes, Bytes, Bytes) -> bool)
      ensures rows == map[] && this.sha256 == sha256 && this.mac == mac && this.verify == verify
    {
      this.sha256, this.mac, this.verify, rows := sha256, mac, verify, map[];
    }

    // The legacy report: a bare status that keeps the proof on file.
    method RecordRatchetStatus(deviceId: DeviceId, status: Verdict, now: int)
      modifies this
      ensures rows == old(rows)[deviceId := Row(status, ProofOnFile(Lookup(old(rows), deviceId)), ClientReported, now)]
      ensures rows == After(Checks(sha256, mac, verify), old(rows), Reported(deviceId, status, now))
    {
      var proof := if deviceId in rows then rows[deviceId].nextProof else None;
      rows := rows[deviceId := Row(status, proof, ClientReported, now)];
    }

    method ClearRatchetState(deviceId: DeviceId) returns (existing: Option<Row>)
      modifies this
      ensures rows == old(rows) - {deviceId} && existing == Lookup(old(rows), deviceId)
      ensures rows == After(Checks(sha256, mac, verify), old(rows), Cleared(deviceId))
    {
      existing := Lookup(rows, deviceId);
      rows := rows - {deviceId};
    }

    // The checks of an attestation in the order the code makes them; None if all of them pass.
    ghost function Rejection(challenge: Bytes, attestation: Option<Attestation>, deviceKey: Option<Bytes>): Option<Reason> {
      if attestation.None? || (attestation.value.status != Some(0) && attestation.value.status != Some(1)) then
        Some(MalformedStatus)
      else if !AllText(attestation.value) then Some(MalformedEncoding)
      else if !AllSized(attestation.value) then Some(MalformedLength)
      else if deviceKey.None? then Some(NotRegistered)
      else if !verify(deviceKey.value, AttestMessage(sha256(challenge), Fields(attestation.value)), attestation.value.signature.bytes) then
        Some(BadSignature)
      else None
    }

    // Judge an attestation against the proof on file, then put its own proof on file whatever the verdict.
    method VerifyAndRecord(deviceId: DeviceId, challenge: Bytes, attestation: Option<Attestation>,
                           deviceKey: Option<Bytes>, now: int)
      returns (j: Judgement)
      modifies this
      ensures Rejection(challenge, attestation, deviceKey).Some? ==>
        j == Rejected(Rejection(challenge, attestation, deviceKey).value) && rows == old(rows)
      ensures Rejection(challenge, attestation, deviceKey).None? ==>
        var e := Fields(attestation.value);
        j == Judged(VerdictOf(mac, Lookup(old(rows), deviceId), e))
        && rows == old(rows)[deviceId := Row(j.verdict, Some(e.nextProof), Server, now)]
      ensures j.Judged? <==>
        && attestation.Some? && deviceKey.Some?
        && var a := attestation.value;
           && (a.status == Some(0) || a.status == Some(1))
           && a.devicePublicKey.Text? && a.rc.Text? && a.deviceProof.Text? && a.nextProof.Text? && a.signature.Text?
           && |a.devicePublicKey.bytes| == 32 && |a.rc.bytes| == 16 && |a.deviceProof.bytes| == 64
           && |a.nextProof.bytes| == 32 && |a.signature.bytes| == 64
           && verify(deviceKey.value,
                     AttestMessage(sha256(challenge), Exchange(a.devicePublicKey.bytes, a.rc.bytes, a.deviceProof.bytes,
                                                               a.nextProof.bytes, a.status.value)),
                     a.signature.bytes)
      ensures j.Rejected? ==> rows == old(rows)
      ensures rows == After(Checks(sha256, mac, verify), old(rows), Attested(deviceId, challenge, attestation, deviceKey, now))
    {
      var a := if attestation.Some? then attestation.value
               else Attestation(NotText, NotText, NotText, NotText, None, NotText);
      if a.status != Some(0) && a.status != Some(1) {
        return Rejected(MalformedStatus);
      }
      if !(a.devicePublicKey.Text? && a.rc.Text? && a.deviceProof.Text? && a.nextProof.Text? && a.signature.Text?) {
        return Rejected(MalformedEncoding);
      }
      var e := Exchange(a.devicePublicKey.bytes, a.rc.bytes, a.deviceProof.bytes, a.nextProof.bytes, a.status.value);
      if |e.devicePublicKey| != 32 || |e.rc| != 16 || |e.deviceProof| != 64 || |e.nextProof| != 32 || |a.signature.bytes| != 64 {
        return Rejected(MalformedLength);
      }
      if deviceKey.None? {
        return Rejected(NotRegistered);
      }
      var msg := AttestMessage(sha256(challenge), e);
      if !verify(deviceKey.value, msg, a.signature.bytes) {
        return Rejected(BadSignature);
      }
      var verdict := Unverifiable;
      if e.status == 0 {
        verdict := Bootstrap;
      } else if deviceId in rows && rows[deviceId].nextProof.Some? {
        var expected := mac(rows[deviceId].nextProof.value, e.rc);
        verdict := if expected == e.deviceProof then Verified else Mismatch;
      }
      rows := rows[deviceId := Row(verdict, Some(e.nextProof), Server, now)];
      return Judged(verdict);
    }
  }
}
