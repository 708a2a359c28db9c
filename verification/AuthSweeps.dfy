/** The expiry sweep of server.js is invisible: no answer depends on when it runs. */
module AuthSweeps {
  import opened Options
  import opened AuthProtocol
  import opened AuthRuns

  predicate Live(challenges: map<string, Challenge>, now: int, id: string) {
    id in challenges && now <= challenges[id].expiresAt
  }

  // Two states that differ only in challenges already expired at a time.
  ghost predicate Equivalent(now: int, s: State, s': State) {
    && s.identities == s'.identities && s.cutoffs == s'.cutoffs && s.repairs == s'.repairs && s.pairings == s'.pairings
    && SameLive(now, s.challenges, s'.challenges)
  }

  ghost predicate SameLive(now: int, c: map<string, Challenge>, c': map<string, Challenge>) {
    forall id :: (Live(c, now, id) <==> Live(c', now, id)) && (Live(c, now, id) ==> c[id] == c'[id])
  }

  lemma SameWithout(now: int, c: map<string, Challenge>, c': map<string, Challenge>, id: string)
    requires SameLive(now, c, c')
    ensures SameLive(now, c - {id}, c' - {id})
    ensures !Live(c, now, id) ==> SameLive(now, c, c' - {id}) && SameLive(now, c - {id}, c')
  {
    forall k
      ensures Live(c - {id}, now, k) <==> k != id && Live(c, now, k)
      ensures Live(c' - {id}, now, k) <==> k != id && Live(c', now, k)
    {
    }
  }

  lemma SameWith(now: int, c: map<string, Challenge>, c': map<string, Challenge>, id: string, n: Challenge)
    requires SameLive(now, c, c')
    ensures SameLive(now, c[id := n], c'[id := n])
  {
    forall k
      ensures k != id ==> (Live(c[id := n], now, k) <==> Live(c, now, k)) && (Live(c'[id := n], now, k) <==> Live(c', now, k))
    {
    }
  }

  lemma LaterEquivalent(t: int, now: int, s: State, s': State)
    requires t <= now && Equivalent(t, s, s')
    ensures Equivalent(now, s, s')
  {
    forall id
      ensures Live(s.challenges, now, id) ==> Live(s.challenges, t, id)
      ensures Live(s'.challenges, now, id) ==> Live(s'.challenges, t, id)
    {
    }
  }

  lemma SweepEquivalent(cfg: Config, now: int, s: State, s': State)
    requires Equivalent(now, s, s')
    ensures Equivalent(now, Handle(cfg, s, now, Sweep).0, s')
  {
    var swept := Handle(cfg, s, now, Sweep).0;
    forall id
      ensures Live(swept.challenges, now, id) <==> Live(s.challenges, now, id)
      ensures Live(s.challenges, now, id) ==> swept.challenges[id] == s.challenges[id]
    {
    }
  }

  // Equivalent states answer alike, and stay equivalent.
  lemma SameAnswer(cfg: Config, now: int, s: State, s': State, r: Request)
    requires Equivalent(now, s, s')
    ensures Handle(cfg, s, now, r).1 == Handle(cfg, s', now, r).1
    ensures Equivalent(now, Handle(cfg, s, now, r).0, Handle(cfg, s', now, r).0)
  {
    match r
    case PhoneChallenge(platform, phone, phoneKey, newId, newText) =>
      SameWith(now, s.challenges, s'.challenges, newId, Challenge(platform, phone, phoneKey, newText, false, now + TTL));
    case PhoneVerify(id, signature, newId, newText) => SamePhoneVerify(cfg, now, s, s', id, signature, newId, newText);
    case DeviceVerify(id, signature, device, deviceKey, authorized) =>
      SameDeviceVerify(cfg, now, s, s', id, signature, device, deviceKey, authorized);
    case Sweep =>
      SweepEquivalent(cfg, now, s, s');
      Symmetric(now, Handle(cfg, s, now, Sweep).0, s');
      SweepEquivalent(cfg, now, s', Handle(cfg, s, now, Sweep).0);
      Symmetric(now, Handle(cfg, s', now, Sweep).0, Handle(cfg, s, now, Sweep).0);
    case _ => SameOtherwise(cfg, now, s, s', r);
  }

  lemma Symmetric(now: int, s: State, s': State)
    requires Equivalent(now, s, s')
    ensures Equivalent(now, s', s)
  {
  }

  lemma SameOtherwise(cfg: Config, now: int, s: State, s': State, r: Request)
    requires Equivalent(now, s, s') && !r.PhoneChallenge? && !r.PhoneVerify? && !r.DeviceVerify? && !r.Sweep?
    ensures Handle(cfg, s, now, r).1 == Handle(cfg, s', now, r).1
    ensures Equivalent(now, Handle(cfg, s, now, r).0, Handle(cfg, s', now, r).0)
  {
    hide SameLive, Live, Registered, Reset, ResetStatus, HandleRepairVerify, HandleRepairChallenge;
    match r
    case RepairVerify(id, signature) => SameRepairVerify(cfg, now, s, s', id, signature);
    case RepairChallenge(board, target, newId, nonce) => SameRepairChallenge(now, s, s', board, target, newId, nonce);
    case AdminReset(target) => SameReset(now, s, s', target);
    case _ =>
  }

  lemma SameReset(now: int, s: State, s': State, target: string)
    requires Equivalent(now, s, s')
    ensures Equivalent(now, Reset(s, now, target), Reset(s', now, target))
  {
    hide SameLive;
  }

  lemma SameRepairChallenge(now: int, s: State, s': State, board: string, target: string, newId: string, nonce: string)
    requires Equivalent(now, s, s')
    ensures var (a, a') := (HandleRepairChallenge(s, now, board, target, newId, nonce),
                            HandleRepairChallenge(s', now, board, target, newId, nonce));
            a.1 == a'.1 && Equivalent(now, a.0, a'.0)
  {
    hide SameLive, Registered, REPAIR_CONTEXT;
  }

  lemma SameRepairVerify(cfg: Config, now: int, s: State, s': State, id: string, signature: string)
    requires Equivalent(now, s, s')
    ensures var (a, a') := (HandleRepairVerify(cfg, s, now, id, signature), HandleRepairVerify(cfg, s', now, id, signature));
            a.1 == a'.1 && Equivalent(now, a.0, a'.0)
  {
    hide SameLive, Reset;
    SameReset(now, s.(repairs := s.repairs - {id}), s'.(repairs := s'.repairs - {id}),
              if id in s.repairs then s.repairs[id].target else "");
  }

  lemma SamePhoneVerify(cfg: Config, now: int, s: State, s': State, id: string, signature: string, newId: string, newText: string)
    requires Equivalent(now, s, s')
    ensures var (a, a') := (HandlePhoneVerify(cfg, s, now, id, signature, newId, newText),
                            HandlePhoneVerify(cfg, s', now, id, signature, newId, newText));
            a.1 == a'.1 && Equivalent(now, a.0, a'.0)
  {
    hide PhoneRegistered, PhoneValid;
    assert Live(s.challenges, now, id) <==> Live(s'.challenges, now, id);
    hide SameLive;
    SameWithout(now, s.challenges, s'.challenges, id);
    if Live(s.challenges, now, id) {
      LiveSame(now, s.challenges, s'.challenges, id);
      var c := s.challenges[id];
      SameWith(now, s.challenges - {id}, s'.challenges - {id}, newId,
               Challenge(c.platform, c.phone, c.phoneKey, newText, true, now + TTL));
    }
  }

  lemma LiveSame(now: int, c: map<string, Challenge>, c': map<string, Challenge>, id: string)
    requires SameLive(now, c, c') && Live(c, now, id)
    ensures Live(c', now, id) && c[id] == c'[id]
  {
  }

  lemma SameDeviceVerify(cfg: Config, now: int, s: State, s': State, id: string, signature: string, device: string,
                         deviceKey: string, authorized: bool)
    requires Equivalent(now, s, s')
    ensures var (a, a') := (HandleDeviceVerify(cfg, s, now, id, signature, device, deviceKey, authorized),
                            HandleDeviceVerify(cfg, s', now, id, signature, device, deviceKey, authorized));
            a.1 == a'.1 && Equivalent(now, a.0, a'.0)
  {
    hide DeviceRegistered, DeviceValid;
    assert Live(s.challenges, now, id) <==> Live(s'.challenges, now, id);
    hide SameLive;
    SameWithout(now, s.challenges, s'.challenges, id);
    if Live(s.challenges, now, id) { LiveSame(now, s.challenges, s'.challenges, id); }
  }

  function WithoutSweeps(log: seq<Step>): seq<Step> {
    if log == [] then []
    else
      var n := |log| - 1;
      WithoutSweeps(log[..n]) + if log[n].request.Sweep? then [] else [log[n]]
  }

  lemma RunSnoc(cfg: Config, log: seq<Step>, e: Step)
    ensures Run(cfg, log + [e]) == Handle(cfg, Run(cfg, log), e.now, e.request).0
  {
    hide Handle;
    assert (log + [e])[..|log|] == log;
  }

  // Runs with and without sweeps end in equivalent states.
  lemma {:induction false} SweepsChangeNothing(cfg: Config, log: seq<Step>, now: int)
    requires NonDecreasing(log) && forall i :: 0 <= i < |log| ==> log[i].now <= now
    ensures Equivalent(now, Run(cfg, log), Run(cfg, WithoutSweeps(log)))
  {
    if log != [] {
      hide Handle, Equivalent, Run;
      var n := |log| - 1;
      var e := log[n];
      var rest := WithoutSweeps(log[..n]);
      SweepsChangeNothing(cfg, log[..n], e.now);
      assert log == log[..n] + [e];
      RunSnoc(cfg, log[..n], e);
      if e.request.Sweep? {
        SweepEquivalent(cfg, e.now, Run(cfg, log[..n]), Run(cfg, rest));
        assert rest + [] == rest;
      } else {
        RunSnoc(cfg, rest, e);
        SameAnswer(cfg, e.now, Run(cfg, log[..n]), Run(cfg, rest), e.request);
      }
      LaterEquivalent(e.now, now, Run(cfg, log), Run(cfg, WithoutSweeps(log)));
    } else {
      LaterEquivalent(now, now, INITIAL, INITIAL);
    }
  }

  lemma {:induction false} WithoutSweepsPrefix(log: seq<Step>, i: nat)
    requires i < |log| && !log[i].request.Sweep?
    ensures var (kept, before) := (WithoutSweeps(log), WithoutSweeps(log[..i]));
            |before| < |kept| && kept[..|before|] == before && kept[|before|] == log[i]
  {
    var n := |log| - 1;
    if i == n {
    } else {
      assert log[..n][..i] == log[..i];
      WithoutSweepsPrefix(log[..n], i);
    }
  }

  // Leaving the sweeps out of a run, or putting them in anywhere, changes no answer.
  lemma SweepsChangeNoAnswer(cfg: Config, log: seq<Step>, i: nat)
    requires i < |log| && !log[i].request.Sweep? && NonDecreasing(log)
    ensures var (kept, k) := (WithoutSweeps(log), |WithoutSweeps(log[..i])|);
            k < |kept| && kept[k] == log[i] && Answer(cfg, kept, k) == Answer(cfg, log, i)
  {
    hide Handle, Equivalent, Run;
    WithoutSweepsPrefix(log, i);
    SweepsChangeNothing(cfg, log[..i], log[i].now);
    SameAnswer(cfg, log[i].now, Run(cfg, log[..i]), Run(cfg, WithoutSweeps(log[..i])), log[i].request);
  }
}
