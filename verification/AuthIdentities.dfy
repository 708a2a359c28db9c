/** Where identities come from and how they go, in every run; and when exactly a request gets a token. */
module AuthIdentities {
  import opened Options
  import opened AuthProtocol
  import opened AuthRuns
  import opened AuthTokens

  // ---- tokens ----

  // The answer to a device verification, in terms of what is on file before it.
  lemma FullAccessExactly(cfg: Config, s: State, now: int, r: Request)
    requires r.DeviceVerify?
    ensures var proven :=
              && r.signature != "" && r.id in s.challenges
              && var c := s.challenges[r.id];
                 && c.deviceStage && now <= c.expiresAt
                 && if r.device in s.identities then
                      var known := s.identities[r.device];
                      known.kind == Device && known.active && cfg.boardSigned(known.publicKey, c.text, r.signature)
                    else
                      && r.deviceKey != "" && (cfg.enforced ==> r.device == cfg.adminDevice || cfg.allowed(r.device))
                      && cfg.boardSigned(r.deviceKey, c.text, r.signature);
            Handle(cfg, s, now, r).1 ==
              if !proven then Response(401, None)
              else if !r.authorized then Response(403, None)
              else Response(200, Some(FullAccess(r.device, s.challenges[r.id].phone, now)))
  {
  }

  // And to a phone verification.
  lemma PhoneSessionExactly(cfg: Config, s: State, now: int, r: Request)
    requires r.PhoneVerify?
    ensures var proven :=
              && r.signature != "" && r.id in s.challenges
              && var c := s.challenges[r.id];
                 && c.platform != "" && c.phone != "" && now <= c.expiresAt
                 && if c.phone in s.identities then
                      var known := s.identities[c.phone];
                      known.kind == Phone && cfg.phoneSigned(known.publicKey, c.text, r.signature)
                    else
                      c.phoneKey != "" && cfg.phoneSigned(c.phoneKey, c.text, r.signature);
            Handle(cfg, s, now, r).1 ==
              if !proven then Response(401, None) else Response(200, Some(PhoneSession(s.challenges[r.id].phone, now)))
  {
  }

  lemma TokenKinds(cfg: Config, s: State, now: int, r: Request)
    ensures var a := Handle(cfg, s, now, r).1;
            (a.token.Some? ==> a.status == 200 && a.token.value.issuedAt == now && (r.PhoneVerify? || r.DeviceVerify?))
            && (a.token.Some? && r.PhoneVerify? ==> a.token.value.PhoneSession?)
            && (a.token.Some? && r.DeviceVerify? ==> a.token.value.FullAccess?)
            && (r.PhoneVerify? || r.DeviceVerify? ==> (a.token.Some? <==> a.status == 200))
  {
  }

  // Every phone session comes from a phone verification in time, with a signature of the text of its challenge
  // under the registered key; and it goes back to a phone challenge for that phone.
  lemma PhoneSessionOrigin(cfg: Config, log: seq<Step>, i: nat, phone: string, t: int) returns (r: nat, h: nat)
    requires i < |log| && Answer(cfg, log, i).token == Some(PhoneSession(phone, t))
    ensures t == log[i].now && log[i].request.PhoneVerify? && h < i
    ensures Minted(log[h].request) == Some(log[i].request.id) && log[i].now <= log[h].now + 120000
    ensures PhoneSignedAt(cfg, log, i, phone, NewText(log[h].request)) && Roots(cfg, log, r, i, phone)
  {
    hide Handle, Run;
    var s, req := Run(cfg, log[..i]), log[i].request;
    TokenKinds(cfg, s, log[i].now, req);
    PhoneSessionExactly(cfg, s, log[i].now, req);
    RunNext(cfg, log, i);
    MintStep(cfg, s, log[i].now, req, req.newId);
    var c := s.challenges[req.id];
    h := ChallengeOrigin(cfg, log[..i], req.id);
    PrefixMints(cfg, log, i, h, req.id, c);
    MintedIs(cfg, log, h, req.id, c);
    r := ChallengeRoot(cfg, log, i, req.newId, Run(cfg, log[..i + 1]).challenges[req.newId]);
  }

  // ---- registration ----

  // An identity on file after a request was there before, with the same kind and key, or the request registered it.
  lemma StepIdentity(cfg: Config, s: State, now: int, r: Request, id: string)
    requires id in Handle(cfg, s, now, r).0.identities
    ensures var after := Handle(cfg, s, now, r).0.identities[id];
            || (id in s.identities && s.identities[id].kind == after.kind && s.identities[id].publicKey == after.publicKey)
            || (id !in s.identities && after.active && after.policy == SelfService && after.publicKey != "" &&
                ((r.PhoneVerify? && after.kind == Phone && r.id in s.challenges
                   && s.challenges[r.id].phone == id && s.challenges[r.id].phoneKey == after.publicKey
                   && s.challenges[r.id].platform != "")
                 || (r.DeviceVerify? && after.kind == Device && r.device == id && r.deviceKey == after.publicKey
                   && (cfg.enforced ==> id == cfg.adminDevice || cfg.allowed(id)))))
  {
  }

  predicate SameClaims(c: Challenge, c': Challenge) {
    c.platform == c'.platform && c.phone == c'.phone && c.phoneKey == c'.phoneKey
  }

  // A challenge on file goes on from a phone challenge with the same platform, phone and key.
  lemma StepChallengeKey(cfg: Config, s: State, now: int, r: Request, id: string)
    requires id in Handle(cfg, s, now, r).0.challenges
    ensures var c := Handle(cfg, s, now, r).0.challenges[id];
            || (exists k :: k in s.challenges && SameClaims(s.challenges[k], c))
            || (r.PhoneChallenge? && r.platform == c.platform && r.phone == c.phone && r.phoneKey == c.phoneKey)
  {
    var c := Handle(cfg, s, now, r).0.challenges[id];
    if id in s.challenges && s.challenges[id] == c {
      assert SameClaims(s.challenges[id], c);
    } else if r.PhoneVerify? {
      assert r.id in s.challenges && SameClaims(s.challenges[r.id], c);
    }
  }

  lemma {:induction false} ChallengeKeySent(cfg: Config, log: seq<Step>, id: string) returns (r: nat)
    requires id in Run(cfg, log).challenges
    ensures r < |log| && log[r].request.PhoneChallenge?
    ensures log[r].request.phone == Run(cfg, log).challenges[id].phone
    ensures log[r].request.phoneKey == Run(cfg, log).challenges[id].phoneKey
    ensures log[r].request.platform == Run(cfg, log).challenges[id].platform
  {
    hide Handle;
    assert log != [];
    var n := |log| - 1;
    RunNext(cfg, log, n);
    var s := Run(cfg, log[..n]);
    StepChallengeKey(cfg, s, log[n].now, log[n].request, id);
    var c := Run(cfg, log).challenges[id];
    hide Run;
    if k :| k in s.challenges && SameClaims(s.challenges[k], c) {
      r := ChallengeKeySent(cfg, log[..n], k);
      assert log[..n][r] == log[r];
    } else {
      r := n;
    }
  }

  // Step m registered the identity with the key that the run has sent for it: the phone's own challenge for a
  // phone, the request itself for a device.
  ghost predicate Registers(cfg: Config, log: seq<Step>, m: int, id: string, kind: Kind, key: string) {
    && 0 <= m < |log| && id !in Run(cfg, log[..m]).identities && key != ""
    && match kind
       case Phone => log[m].request.PhoneVerify? && exists r :: 0 <= r < m && PhoneSends(log[r].request, id, key)
       case Device =>
         && log[m].request.DeviceVerify? && log[m].request.device == id && log[m].request.deviceKey == key
         && (cfg.enforced ==> id == cfg.adminDevice || cfg.allowed(id))
  }

  predicate PhoneSends(r: Request, phone: string, key: string) {
    r.PhoneChallenge? && r.platform != "" && r.phone == phone && r.phoneKey == key
  }

  // Every identity on file was registered so, on first use.
  lemma {:induction false} IdentityOrigin(cfg: Config, log: seq<Step>, id: string) returns (m: nat)
    requires id in Run(cfg, log).identities
    ensures Registers(cfg, log, m, id, Run(cfg, log).identities[id].kind, Run(cfg, log).identities[id].publicKey)
  {
    hide Handle;
    assert log != [];
    var n := |log| - 1;
    RunNext(cfg, log, n);
    var s, after := Run(cfg, log[..n]), Run(cfg, log).identities[id];
    StepIdentity(cfg, s, log[n].now, log[n].request, id);
    hide Run;
    if id in s.identities {
      m := IdentityOrigin(cfg, log[..n], id);
      RegistersLater(cfg, log, n, m, id, after.kind, after.publicKey);
    } else {
      m := n;
      if after.kind == Phone {
        var r := ChallengeKeySent(cfg, log[..n], log[n].request.id);
        assert log[..n][r] == log[r] && PhoneSends(log[r].request, id, after.publicKey);
      }
    }
  }

  lemma RegistersLater(cfg: Config, log: seq<Step>, n: nat, m: int, id: string, kind: Kind, key: string)
    requires n <= |log| && Registers(cfg, log[..n], m, id, kind, key)
    ensures Registers(cfg, log, m, id, kind, key)
  {
    hide Run;
    assert log[..n][..m] == log[..m] && forall r :: 0 <= r < n ==> log[..n][r] == log[r];
    if kind == Phone {
      var r :| 0 <= r < m && PhoneSends(log[..n][r].request, id, key);
      assert PhoneSends(log[r].request, id, key);
    }
  }

  // With enforcement on, every device on file is the admin's or allowed.
  lemma OnlyAllowedDevices(cfg: Config, log: seq<Step>, id: string)
    requires cfg.enforced && id in Run(cfg, log).identities && Run(cfg, log).identities[id].kind == Device
    ensures id == cfg.adminDevice || cfg.allowed(id)
  {
    hide Run;
    var m := IdentityOrigin(cfg, log, id);
  }

  // ---- policy and reset ----

  // Setting a recovery policy succeeds exactly for a registered identity that is not permanent, which then has
  // the policy asked for; nothing else changes. It is refused for others, each with its status.
  lemma PolicyIsSet(cfg: Config, log: seq<Step>, j: nat)
    requires j < |log| && log[j].request.SetRecoveryPolicy?
    ensures var (id, was, now) := (log[j].request.target, Run(cfg, log[..j]), Run(cfg, log[..j + 1]));
            && Answer(cfg, log, j).status ==
                 (if id !in was.identities then 404 else if was.identities[id].policy == SelfService then 200 else 403)
            && (Answer(cfg, log, j).status == 200 ==>
                  id in now.identities && now.identities[id].policy == log[j].request.policy
                  && now.identities[id].publicKey == was.identities[id].publicKey && now.identities - {id} == was.identities - {id})
            && (Answer(cfg, log, j).status != 200 ==> now == was)
  {
    RunNext(cfg, log, j);
    hide Run;
  }

  // An admin's reset succeeds for the same identities; then the identity is gone, no other is touched, and both
  // gates turn away the tokens that name it and were issued until then.
  lemma AdminResets(cfg: Config, log: seq<Step>, j: nat)
    requires j < |log| && log[j].request.AdminReset?
    ensures var (id, was, now) := (log[j].request.target, Run(cfg, log[..j]), Run(cfg, log[..j + 1]));
            && Answer(cfg, log, j).status ==
                 (if id !in was.identities then 404 else if was.identities[id].policy == SelfService then 200 else 403)
            && (Answer(cfg, log, j).status == 200 ==> now.identities == was.identities - {id})
            && (Answer(cfg, log, j).status == 200 && id != "" ==>
                  && (forall device, phone, t: int :: t <= log[j].now && (id == device || id == phone) ==>
                        Rejected(now, RequireAuth, FullAccess(device, phone, t)))
                  && forall t: int :: t <= log[j].now ==> Rejected(now, RequirePhoneSession, PhoneSession(id, t)))
            && (Answer(cfg, log, j).status != 200 ==> now == was)
  {
    RunNext(cfg, log, j);
    hide Run;
  }

  // A sweep leaves exactly the challenges that are not expired.
  lemma SweepLeaves(cfg: Config, log: seq<Step>, j: nat, id: string)
    requires j < |log| && log[j].request.Sweep?
    ensures var (was, now) := (Run(cfg, log[..j]).challenges, Run(cfg, log[..j + 1]).challenges);
            && (id in now <==> id in was && log[j].now <= was[id].expiresAt) && (id in now ==> now[id] == was[id])
  {
    RunNext(cfg, log, j);
    hide Run;
  }
}
