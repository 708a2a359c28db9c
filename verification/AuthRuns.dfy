/** What holds in every run of the authentication server. */
module AuthRuns {
  import opened Options
  import opened AuthProtocol

  lemma RunNext(cfg: Config, log: seq<Step>, n: nat)
    requires n < |log|
    ensures Run(cfg, log[..n + 1]) == Handle(cfg, Run(cfg, log[..n]), log[n].now, log[n].request).0
    ensures Run(cfg, log[..|log|]) == Run(cfg, log)
  {
    hide Handle;
    assert log[..n + 1][..n] == log[..n] && log[..|log|] == log;
  }

  predicate NonDecreasing(log: seq<Step>) {
    forall i, j :: 0 <= i <= j < |log| ==> log[i].now <= log[j].now
  }

  // ---- trust on first use ----

  // The identity that a request resets, if it resets one.
  function ResetTarget(cfg: Config, s: State, now: int, r: Request): Option<string> {
    if Handle(cfg, s, now, r).1.status != 200 then None
    else match r
      case AdminReset(target) => Some(target)
      case RepairVerify(id, _) => if id in s.repairs then Some(s.repairs[id].target) else None
      case _ => None
  }

  function ResetAt(cfg: Config, log: seq<Step>, j: nat): Option<string>
    requires j < |log|
  {
    ResetTarget(cfg, Run(cfg, log[..j]), log[j].now, log[j].request)
  }

  // A request keeps a registered key and kind, or resets the identity; it changes nothing about a
  // permanent one.
  lemma StepKeepsIdentity(cfg: Config, s: State, now: int, r: Request, id: string)
    requires id in s.identities
    ensures var (s', was) := (Handle(cfg, s, now, r).0, s.identities[id]);
            if ResetTarget(cfg, s, now, r) == Some(id) then was.policy == SelfService && id !in s'.identities
            else (id in s'.identities
              && (s'.identities[id] == was || (was.policy == SelfService && s'.identities[id] == was.(policy := Permanent))))
  {
  }

  // Once permanent, an identity never changes again.
  lemma {:induction false} PermanentForever(cfg: Config, log: seq<Step>, n: nat, id: string)
    requires n <= |log| && id in Run(cfg, log[..n]).identities && Run(cfg, log[..n]).identities[id].policy == Permanent
    ensures id in Run(cfg, log).identities && Run(cfg, log).identities[id] == Run(cfg, log[..n]).identities[id]
    decreases |log| - n
  {
    if n < |log| {
      RunNext(cfg, log, n);
      StepKeepsIdentity(cfg, Run(cfg, log[..n]), log[n].now, log[n].request, id);
      hide Handle, Run;
      PermanentForever(cfg, log, n + 1, id);
    } else {
      assert log[..n] == log;
    }
  }

  predicate SameKey(ids: map<string, Identity>, ids': map<string, Identity>, id: string) {
    id in ids && id in ids' && ids[id].kind == ids'[id].kind && ids[id].publicKey == ids'[id].publicKey
  }

  // A registered key or kind changes, or goes, only through a reset.
  lemma {:induction false} KeyChangesByReset(cfg: Config, log: seq<Step>, n: nat, id: string)
    requires n <= |log| && id in Run(cfg, log[..n]).identities
    ensures SameKey(Run(cfg, log[..n]).identities, Run(cfg, log).identities, id)
         || exists j :: n <= j < |log| && ResetAt(cfg, log, j) == Some(id)
    decreases |log| - n
  {
    if n < |log| {
      RunNext(cfg, log, n);
      StepKeepsIdentity(cfg, Run(cfg, log[..n]), log[n].now, log[n].request, id);
      hide Handle, Run;
      if ResetAt(cfg, log, n) != Some(id) { KeyChangesByReset(cfg, log, n + 1, id); }
    } else {
      assert log[..n] == log;
    }
  }

  // ---- sessions ----

  // A reset of id in the run, at or after a time.
  predicate ResetSince(cfg: Config, log: seq<Step>, j: int, id: string, t: int) {
    0 <= j < |log| && ResetAt(cfg, log, j) == Some(id) && t <= log[j].now
  }

  lemma StepCutoff(cfg: Config, s: State, now: int, r: Request, id: string)
    ensures var s' := Handle(cfg, s, now, r).0;
            if ResetTarget(cfg, s, now, r) == Some(id) then id in s'.cutoffs && s'.cutoffs[id] == now
            else (id in s'.cutoffs <==> id in s.cutoffs) && (id in s.cutoffs ==> s'.cutoffs[id] == s.cutoffs[id])
  {
  }

  lemma ResetSincePrefix(cfg: Config, log: seq<Step>, n: nat, j: int, id: string, t: int)
    requires n <= |log|
    ensures ResetSince(cfg, log[..n], j, id, t) <==> j < n && ResetSince(cfg, log, j, id, t)
  {
    hide Handle, Run;
    if 0 <= j < n { assert log[..n][..j] == log[..j]; }
  }

  // With a clock that does not run back, a cutoff speaks for every reset so far.
  lemma {:induction false} CutoffByHistory(cfg: Config, log: seq<Step>, id: string, t: int)
    requires NonDecreasing(log)
    ensures var s := Run(cfg, log);
            id in s.cutoffs && t <= s.cutoffs[id] <==> exists j :: ResetSince(cfg, log, j, id, t)
  {
    hide Handle;
    if log == [] {
    } else {
      var n := |log| - 1;
      CutoffByHistory(cfg, log[..n], id, t);
      StepCutoff(cfg, Run(cfg, log[..n]), log[n].now, log[n].request, id);
      forall j
        ensures ResetSince(cfg, log[..n], j, id, t) <==> j < n && ResetSince(cfg, log, j, id, t)
      {
        ResetSincePrefix(cfg, log, n, j, id, t);
      }
      if ResetAt(cfg, log, n) == Some(id) {
        assert ResetSince(cfg, log, n, id, t) <==> t <= log[n].now;
        assert forall j :: ResetSince(cfg, log, j, id, t) ==> t <= log[j].now <= log[n].now;
      } else {
        assert !ResetSince(cfg, log, n, id, t);
        assert forall j :: ResetSince(cfg, log, j, id, t) ==> ResetSince(cfg, log[..n], j, id, t);
      }
    }
  }

  lemma RejectedForOne(cfg: Config, log: seq<Step>, id: string, t: int)
    requires NonDecreasing(log)
    ensures RevokedFor(Run(cfg, log), id, t) <==> id != "" && ResetAfter(cfg, log, id, t)
  {
    hide Handle, Run;
    CutoffByHistory(cfg, log, id, t);
  }

  // Reset at or after the issue of a token.
  ghost predicate ResetAfter(cfg: Config, log: seq<Step>, id: string, t: int) {
    exists j :: ResetSince(cfg, log, j, id, t)
  }

  // A token is rejected exactly if it has the wrong scope for requirePhoneSession, or one of the identities
  // that the gate finds in it was reset at or after its issue. So a reset rejects the tokens issued until
  // then forever, at the gate they are for, and tokens issued later are not affected.
  lemma RejectedByHistory(cfg: Config, log: seq<Step>, gate: Gate, token: Token)
    requires NonDecreasing(log)
    ensures Rejected(Run(cfg, log), gate, token) <==>
      || (gate == RequirePhoneSession && token.FullAccess?)
      || exists id :: id in Named(gate, token) && id != "" && ResetAfter(cfg, log, id, token.issuedAt)
  {
    hide Handle, Run, ResetSince;
    var s, t := Run(cfg, log), token.issuedAt;
    forall id
      ensures RevokedFor(s, id, t) <==> id != "" && ResetAfter(cfg, log, id, t)
    {
      RejectedForOne(cfg, log, id, t);
    }
    hide RevokedFor, ResetAfter;
    match (gate, token) {
      case (RequireAuth, FullAccess(device, phone, _)) =>
        assert device in Named(gate, token) && phone in Named(gate, token);
      case (RequirePhoneSession, PhoneSession(phone, _)) =>
        assert phone in Named(gate, token);
      case _ =>
    }
  }

  lemma RejectedForever(cfg: Config, log: seq<Step>, n: nat, gate: Gate, token: Token)
    requires n <= |log| && NonDecreasing(log) && Rejected(Run(cfg, log[..n]), gate, token)
    ensures Rejected(Run(cfg, log), gate, token)
  {
    hide Handle, Run, Rejected, ResetSince;
    RejectedByHistory(cfg, log[..n], gate, token);
    RejectedByHistory(cfg, log, gate, token);
    forall j, id, t | ResetSince(cfg, log[..n], j, id, t)
      ensures ResetSince(cfg, log, j, id, t)
    {
      ResetSincePrefix(cfg, log, n, j, id, t);
    }
  }

  // requireAuth checks no scope: it lets a phone session pass in every run, also after a reset of the phone.
  lemma PhoneSessionPassesRequireAuth(cfg: Config, log: seq<Step>, phone: string, t: int)
    ensures !Rejected(Run(cfg, log), RequireAuth, PhoneSession(phone, t))
    ensures NonDecreasing(log) && phone != "" && ResetAfter(cfg, log, phone, t) ==>
      Rejected(Run(cfg, log), RequirePhoneSession, PhoneSession(phone, t))
  {
    hide Handle, Run, ResetSince;
    if NonDecreasing(log) { RejectedForOne(cfg, log, phone, t); }
  }
}
