/** Self-service repair in every run: each challenge resets at most once, and only the identity it names. */
module AuthRepairs {
  import opened Options
  import opened AuthProtocol
  import opened AuthRuns

  ghost predicate FreshRepairIds(log: seq<Step>) {
    forall i, j :: 0 <= i < j < |log| && log[i].request.RepairChallenge? && log[j].request.RepairChallenge? ==>
      log[i].request.newId != log[j].request.newId
  }

  // Step m of a run put repair p on file under id, when board and phone had been paired.
  predicate Mints(cfg: Config, log: seq<Step>, m: int, id: string, p: Repair) {
    && 0 <= m < |log| && log[m].request.RepairChallenge? && log[m].request.newId == id
    && Answer(cfg, log, m).status == 200
    && p == Repair(log[m].request.board, log[m].request.target,
                   REPAIR_CONTEXT + log[m].request.target + ":" + log[m].request.nonce, log[m].now + TTL)
    && (p.board, p.target) in Run(cfg, log[..m]).pairings
    && Registered(Run(cfg, log[..m]).identities, p.target, Phone)
    && Registered(Run(cfg, log[..m]).identities, p.board, Device)
  }

  lemma StepRepair(cfg: Config, s: State, now: int, r: Request, id: string)
    requires id in Handle(cfg, s, now, r).0.repairs
    ensures (id in s.repairs && s.repairs[id] == Handle(cfg, s, now, r).0.repairs[id])
         || (r.RepairChallenge? && r.newId == id && Handle(cfg, s, now, r).1.status == 200
             && (r.board, r.target) in s.pairings
             && Registered(s.identities, r.target, Phone) && Registered(s.identities, r.board, Device)
             && Handle(cfg, s, now, r).0.repairs[id]
                == Repair(r.board, r.target, REPAIR_CONTEXT + r.target + ":" + r.nonce, now + TTL))
  {
  }

  lemma {:induction false} RepairOrigin(cfg: Config, log: seq<Step>, id: string) returns (m: nat)
    requires id in Run(cfg, log).repairs
    ensures Mints(cfg, log, m, id, Run(cfg, log).repairs[id])
  {
    hide Handle, REPAIR_CONTEXT;
    var n := |log| - 1;
    assert log != [];
    RunNext(cfg, log, n);
    var s := Run(cfg, log[..n]);
    StepRepair(cfg, s, log[n].now, log[n].request, id);
    hide Run, Registered;
    if id in s.repairs && s.repairs[id] == Run(cfg, log).repairs[id] {
      m := RepairOrigin(cfg, log[..n], id);
      assert log[..n][..m] == log[..m];
    } else {
      m := n;
    }
  }

  lemma {:induction false} GoneStaysGone(cfg: Config, log: seq<Step>, n: nat, id: string)
    requires n <= |log| && id !in Run(cfg, log[..n]).repairs
    requires forall j :: n <= j < |log| ==> !(log[j].request.RepairChallenge? && log[j].request.newId == id)
    ensures id !in Run(cfg, log).repairs
    decreases |log| - n
  {
    if n < |log| {
      RunNext(cfg, log, n);
      if id in Run(cfg, log[..n + 1]).repairs {
        StepRepair(cfg, Run(cfg, log[..n]), log[n].now, log[n].request, id);
      }
      hide Handle, Run;
      GoneStaysGone(cfg, log, n + 1, id);
    } else {
      assert log[..n] == log;
    }
  }

  predicate Attempts(cfg: Config, log: seq<Step>, i: int, id: string) {
    0 <= i < |log| && log[i].request.RepairVerify? && log[i].request.id == id && id in Run(cfg, log[..i]).repairs
  }

  // What a successful repair did, and on whose word.
  lemma RepairStep(cfg: Config, s: State, now: int, id: string, signature: string)
    requires Handle(cfg, s, now, RepairVerify(id, signature)).1.status == 200
    ensures id in s.repairs && now <= s.repairs[id].expiresAt
    ensures var p := s.repairs[id];
            && ResetTarget(cfg, s, now, RepairVerify(id, signature)) == Some(p.target)
            && p.board in s.identities && cfg.boardSigned(s.identities[p.board].publicKey, p.text, signature)
            && Handle(cfg, s, now, RepairVerify(id, signature)).0.identities == s.identities - {p.target}
  {
  }

  lemma RepairConsumes(cfg: Config, s: State, now: int, id: string, signature: string)
    ensures id !in Handle(cfg, s, now, RepairVerify(id, signature)).0.repairs
  {
  }

  // A successful repair resets the identity that its challenge named, a phone at that time, within the
  // challenge's time, on a signature of the board that asked for it.
  lemma RepairResets(cfg: Config, log: seq<Step>, j: nat) returns (m: nat)
    requires j < |log| && log[j].request.RepairVerify? && Answer(cfg, log, j).status == 200
    ensures m < j && log[m].request.RepairChallenge? && log[m].request.newId == log[j].request.id
    ensures ResetAt(cfg, log, j) == Some(log[m].request.target) && log[j].now <= log[m].now + 120000
    ensures (log[m].request.board, log[m].request.target) in Run(cfg, log[..m]).pairings
    ensures Registered(Run(cfg, log[..m]).identities, log[m].request.target, Phone)
    ensures Run(cfg, log[..j + 1]).identities == Run(cfg, log[..j]).identities - {log[m].request.target}
    ensures var ids := Run(cfg, log[..j]).identities;
            log[m].request.board in ids
            && cfg.boardSigned(ids[log[m].request.board].publicKey,
                               "PHYSICALKEY-REPAIR-AUTH-V1:" + log[m].request.target + ":" + log[m].request.nonce,
                               log[j].request.signature)
  {
    assert REPAIR_CONTEXT == "PHYSICALKEY-REPAIR-AUTH-V1:";
    hide Handle, Run, REPAIR_CONTEXT;
    RepairStep(cfg, Run(cfg, log[..j]), log[j].now, log[j].request.id, log[j].request.signature);
    RunNext(cfg, log, j);
    m := RepairOrigin(cfg, log[..j], log[j].request.id);
    assert log[..j][..m] == log[..m];
  }

  // And a repair challenge is good for one attempt.
  lemma OneAttempt(cfg: Config, log: seq<Step>, i: int, j: int, id: string)
    requires FreshRepairIds(log) && Attempts(cfg, log, i, id) && i < j < |log|
    ensures !Attempts(cfg, log, j, id)
  {
    hide Handle, Run, REPAIR_CONTEXT;
    var m := RepairOrigin(cfg, log[..i], id);
    assert log[..i][m] == log[m];
    assert forall k :: m < k < |log| ==> !(log[k].request.RepairChallenge? && log[k].request.newId == id);
    RunNext(cfg, log, i);
    RepairConsumes(cfg, Run(cfg, log[..i]), log[i].now, id, log[i].request.signature);
    assert log[..j][..i + 1] == log[..i + 1];
    assert forall k :: i + 1 <= k < j ==> log[..j][k] == log[k];
    GoneStaysGone(cfg, log[..j], i + 1, id);
  }

  // ---- who may ask, and who was paired ----

  // The answers to a repair challenge and to a repair, in terms of what is on file.
  lemma ChallengeExactly(cfg: Config, s: State, now: int, r: Request)
    requires r.RepairChallenge?
    ensures var board := r.board in s.identities && s.identities[r.board].kind == Device && s.identities[r.board].active;
            var target := r.target in s.identities && s.identities[r.target].kind == Phone;
            var open := target && s.identities[r.target].policy == SelfService && (r.board, r.target) in s.pairings;
            var named := r.board != "" && r.target != "";
            Handle(cfg, s, now, r).1.status ==
              if named && board && open then 200 else if named && board && target then 403 else if named then 404 else 400
  {
  }

  lemma RepairExactly(cfg: Config, s: State, now: int, r: Request)
    requires r.RepairVerify?
    ensures var timely := r.id in s.repairs && now <= s.repairs[r.id].expiresAt;
            var known := timely && s.repairs[r.id].board in s.identities;
            var signed := known && r.signature != ""
              && cfg.boardSigned(s.identities[s.repairs[r.id].board].publicKey, s.repairs[r.id].text, r.signature);
            var target := signed && s.repairs[r.id].target in s.identities;
            Handle(cfg, s, now, r).1.status ==
              if target then (if s.identities[s.repairs[r.id].target].policy == SelfService then 200 else 403)
              else if signed || (timely && !known) then 404
              else 401
  {
  }

  // Step j got a full-access token for the device and the phone.
  ghost predicate Pairs(cfg: Config, log: seq<Step>, j: int, device: string, phone: string) {
    0 <= j < |log| && exists t :: Answer(cfg, log, j).token == Some(FullAccess(device, phone, t))
  }

  lemma StepPairs(cfg: Config, s: State, now: int, r: Request, device: string, phone: string)
    ensures (device, phone) in Handle(cfg, s, now, r).0.pairings <==>
      (device, phone) in s.pairings || Handle(cfg, s, now, r).1.token == Some(FullAccess(device, phone, now))
    ensures forall t :: Handle(cfg, s, now, r).1.token == Some(FullAccess(device, phone, t)) ==> t == now
  {
  }

  // A board and a phone are paired exactly if they have had a full-access token together.
  lemma {:induction false} PairedByToken(cfg: Config, log: seq<Step>, device: string, phone: string)
    ensures (device, phone) in Run(cfg, log).pairings <==> exists j :: Pairs(cfg, log, j, device, phone)
  {
    hide Handle;
    if log == [] {
    } else {
      var n := |log| - 1;
      RunNext(cfg, log, n);
      StepPairs(cfg, Run(cfg, log[..n]), log[n].now, log[n].request, device, phone);
      PairedByToken(cfg, log[..n], device, phone);
      forall j
        ensures Pairs(cfg, log[..n], j, device, phone) <==> j < n && Pairs(cfg, log, j, device, phone)
      {
        if 0 <= j < n { assert log[..n][..j] == log[..j]; }
      }
      hide Run;
      assert Pairs(cfg, log, n, device, phone) <==> Answer(cfg, log, n).token == Some(FullAccess(device, phone, log[n].now));
    }
  }
}
