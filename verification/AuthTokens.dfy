/** Where session tokens come from, in every run: the one-time challenges behind them. */
module AuthTokens {
  import opened Options
  import opened AuthProtocol
  import opened AuthRuns

  // The challenge id that a request has the server draw, and the one it uses up.
  function Minted(r: Request): Option<string> {
    match r
    case PhoneChallenge(_, _, _, newId, _) => Some(newId)
    case PhoneVerify(_, _, newId, _) => Some(newId)
    case _ => None
  }

  function Used(r: Request): Option<string> {
    match r
    case PhoneVerify(id, _, _, _) => Some(id)
    case DeviceVerify(id, _, _, _, _) => Some(id)
    case _ => None
  }

  // The ids drawn in a run are all different.
  ghost predicate FreshIds(log: seq<Step>) {
    forall i, j :: 0 <= i < j < |log| && Minted(log[i].request).Some? ==> Minted(log[i].request) != Minted(log[j].request)
  }

  // Step m of a run put challenge c on file under id.
  predicate Mints(cfg: Config, log: seq<Step>, m: int, id: string, c: Challenge) {
    && 0 <= m < |log| && Minted(log[m].request) == Some(id) && Answer(cfg, log, m).status == 200
    && id in Run(cfg, log[..m + 1]).challenges && Run(cfg, log[..m + 1]).challenges[id] == c
  }

  // A challenge on file after a request was there before, or the request minted it.
  lemma StepChallenge(cfg: Config, s: State, now: int, r: Request, id: string)
    requires id in Handle(cfg, s, now, r).0.challenges
    ensures (id in s.challenges && s.challenges[id] == Handle(cfg, s, now, r).0.challenges[id])
         || (Minted(r) == Some(id) && Handle(cfg, s, now, r).1.status == 200)
  {
  }

  lemma PrefixMints(cfg: Config, log: seq<Step>, n: nat, m: int, id: string, c: Challenge)
    requires n <= |log| && Mints(cfg, log[..n], m, id, c)
    ensures Mints(cfg, log, m, id, c)
  {
    hide Handle, Run;
    assert log[..n][..m] == log[..m] && log[..n][..m + 1] == log[..m + 1];
  }

  // Every challenge on file was minted in the run.
  lemma {:induction false} ChallengeOrigin(cfg: Config, log: seq<Step>, id: string) returns (m: nat)
    requires id in Run(cfg, log).challenges
    ensures Mints(cfg, log, m, id, Run(cfg, log).challenges[id])
  {
    hide Handle;
    assert log != [];
    var n := |log| - 1;
    RunNext(cfg, log, n);
    var s := Run(cfg, log[..n]);
    StepChallenge(cfg, s, log[n].now, log[n].request, id);
    hide Run;
    if Minted(log[n].request) == Some(id) && Answer(cfg, log, n).status == 200 {
      assert log[..n + 1] == log;
      m := n;
    } else {
      m := ChallengeOrigin(cfg, log[..n], id);
      PrefixMints(cfg, log, n, m, id, s.challenges[id]);
    }
  }

  // A challenge that is not on file and is not minted any more never comes back.
  lemma {:induction false} GoneStaysGone(cfg: Config, log: seq<Step>, n: nat, id: string)
    requires n <= |log| && id !in Run(cfg, log[..n]).challenges
    requires forall j :: n <= j < |log| ==> Minted(log[j].request) != Some(id)
    ensures id !in Run(cfg, log).challenges
    decreases |log| - n
  {
    if n < |log| {
      RunNext(cfg, log, n);
      if id in Run(cfg, log[..n + 1]).challenges {
        StepChallenge(cfg, Run(cfg, log[..n]), log[n].now, log[n].request, id);
      }
      hide Handle, Run;
      GoneStaysGone(cfg, log, n + 1, id);
    } else {
      assert log[..n] == log;
    }
  }

  // Step i finds the challenge that it uses, at the right stage: an attempt, whether or not it succeeds.
  predicate Attempts(cfg: Config, log: seq<Step>, i: int, id: string) {
    && 0 <= i < |log| && Used(log[i].request) == Some(id) && id in Run(cfg, log[..i]).challenges
    && (log[i].request.DeviceVerify? ==> Run(cfg, log[..i]).challenges[id].deviceStage)
  }

  lemma AttemptConsumes(cfg: Config, s: State, now: int, r: Request, id: string)
    requires Used(r) == Some(id) && id in s.challenges && Minted(r) != Some(id)
    requires r.DeviceVerify? ==> s.challenges[id].deviceStage
    ensures id !in Handle(cfg, s, now, r).0.challenges
  {
  }

  // Every challenge is good for one attempt.
  lemma OneAttempt(cfg: Config, log: seq<Step>, i: int, j: int, id: string)
    requires FreshIds(log) && Attempts(cfg, log, i, id) && Attempts(cfg, log, j, id)
    ensures i == j
  {
    if i < j {
      AttemptOnce(cfg, log, i, j, id);
    } else if j < i {
      AttemptOnce(cfg, log, j, i, id);
    }
  }

  lemma AttemptOnce(cfg: Config, log: seq<Step>, i: int, j: int, id: string)
    requires FreshIds(log) && Attempts(cfg, log, i, id) && i < j < |log|
    ensures id !in Run(cfg, log[..j]).challenges
  {
    hide Handle, Run;
    var m := ChallengeOrigin(cfg, log[..i], id);
    assert log[..i][m] == log[m];
    assert forall k :: m < k < |log| ==> Minted(log[k].request) != Some(id);
    RunNext(cfg, log, i);
    AttemptConsumes(cfg, Run(cfg, log[..i]), log[i].now, log[i].request, id);
    assert log[..j][..i + 1] == log[..i + 1];
    assert forall k :: i + 1 <= k < j ==> log[..j][k] == log[k];
    GoneStaysGone(cfg, log[..j], i + 1, id);
  }

  // The text that a request has the server draw, for the challenge it mints.
  function NewText(r: Request): string {
    match r
    case PhoneChallenge(_, _, _, _, newText) => newText
    case PhoneVerify(_, _, _, newText) => newText
    case _ => ""
  }

  // The phone is registered as one when step i is answered, and what the request sends is a signature of the
  // text under the key registered then.
  ghost predicate PhoneSignedAt(cfg: Config, log: seq<Step>, i: nat, phone: string, text: string)
    requires i < |log| && log[i].request.PhoneVerify?
  {
    var ids := Run(cfg, log[..i + 1]).identities;
    phone in ids && ids[phone].kind == Phone && cfg.phoneSigned(ids[phone].publicKey, text, log[i].request.signature)
  }

  ghost predicate DeviceSignedAt(cfg: Config, log: seq<Step>, j: nat, device: string, text: string)
    requires j < |log| && log[j].request.DeviceVerify?
  {
    var ids := Run(cfg, log[..j + 1]).identities;
    device in ids && ids[device].kind == Device && ids[device].active
    && cfg.boardSigned(ids[device].publicKey, text, log[j].request.signature)
  }

  // Steps i and j are the phone verification and the device verification behind one full-access token, and
  // step h minted the challenge that i used: a phone challenge, or another verification, as phone
  // verification does not look at the stage of a challenge. Each used its challenge within its time, for the
  // same phone, with a signature of its text.
  ghost predicate Chain(cfg: Config, log: seq<Step>, h: int, i: int, j: int, device: string, phone: string) {
    && 0 <= h < i < j < |log| && log[i].request.PhoneVerify? && log[j].request.DeviceVerify?
    && log[j].request.device == device
    && (exists c, d ::
          && Mints(cfg, log, h, log[i].request.id, c) && Mints(cfg, log, i, log[j].request.id, d)
          && c.phone == phone == d.phone && d.deviceStage)
    && log[i].now <= log[h].now + 120000 && log[j].now <= log[i].now + 120000
    && PhoneSignedAt(cfg, log, i, phone, NewText(log[h].request))
    && DeviceSignedAt(cfg, log, j, device, NewText(log[i].request))
  }

  lemma TokenStep(cfg: Config, s: State, now: int, r: Request, device: string, phone: string, t: int)
    requires Handle(cfg, s, now, r).1.token == Some(FullAccess(device, phone, t))
    ensures r.DeviceVerify? && r.device == device && r.id in s.challenges && t == now
    ensures var (d, ids) := (s.challenges[r.id], Handle(cfg, s, now, r).0.identities);
            && d.deviceStage && d.phone == phone && now <= d.expiresAt
            && device in ids && ids[device].kind == Device && ids[device].active
            && cfg.boardSigned(ids[device].publicKey, d.text, r.signature)
  {
  }

  lemma MintStep(cfg: Config, s: State, now: int, r: Request, id: string)
    requires Minted(r) == Some(id) && Handle(cfg, s, now, r).1.status == 200
    ensures id in Handle(cfg, s, now, r).0.challenges
    ensures var (d, ids) := (Handle(cfg, s, now, r).0.challenges[id], Handle(cfg, s, now, r).0.identities);
            && (d.deviceStage <==> r.PhoneVerify?) && d.text == NewText(r) && d.expiresAt == now + TTL
            && (r.PhoneVerify? ==>
                 && r.id in s.challenges && now <= s.challenges[r.id].expiresAt && d.phone == s.challenges[r.id].phone
                 && d.phone in ids && ids[d.phone].kind == Phone
                 && cfg.phoneSigned(ids[d.phone].publicKey, s.challenges[r.id].text, r.signature))
  {
  }

  // A challenge on file has the text that its step drew, and its time.
  lemma MintedIs(cfg: Config, log: seq<Step>, m: int, id: string, c: Challenge)
    requires Mints(cfg, log, m, id, c)
    ensures c.text == NewText(log[m].request) && c.expiresAt == log[m].now + TTL
  {
    RunNext(cfg, log, m);
    hide Run, Handle;
    MintStep(cfg, Run(cfg, log[..m]), log[m].now, log[m].request, id);
  }

  // The challenge that a verification used came from a phone challenge exactly if it is not of the device stage.
  lemma HeadOfChain(cfg: Config, log: seq<Step>, h: int, id: string, c: Challenge)
    requires Mints(cfg, log, h, id, c)
    ensures (log[h].request.PhoneChallenge? <==> !c.deviceStage) && (log[h].request.PhoneVerify? <==> c.deviceStage)
  {
    RunNext(cfg, log, h);
    hide Run, Handle;
    MintStep(cfg, Run(cfg, log[..h]), log[h].now, log[h].request, id);
  }

  // Step m is a successful phone verification for the phone, which used the challenge that step k minted.
  ghost predicate Verifies(cfg: Config, log: seq<Step>, k: int, m: int, phone: string) {
    && 0 <= k < m < |log| && log[m].request.PhoneVerify? && Answer(cfg, log, m).status == 200
    && (exists c :: Mints(cfg, log, k, log[m].request.id, c) && c.phone == phone)
    && log[m].now <= log[k].now + 120000 && PhoneSignedAt(cfg, log, m, phone, NewText(log[k].request))
  }

  // From step m, which minted a challenge, back through phone verifications to phone challenge r.
  ghost predicate Roots(cfg: Config, log: seq<Step>, r: int, m: int, phone: string)
    decreases m
  {
    && 0 <= r <= m < |log|
    && if r == m then log[m].request.PhoneChallenge? && log[m].request.phone == phone && Answer(cfg, log, m).status == 200
       else exists k :: Verifies(cfg, log, k, m, phone) && 0 <= k < m && Roots(cfg, log, r, k, phone)
  }

  // Every challenge on file has such a root.
  lemma {:induction false} ChallengeRoot(cfg: Config, log: seq<Step>, m: nat, id: string, d: Challenge) returns (r: nat)
    requires Mints(cfg, log, m, id, d)
    ensures Roots(cfg, log, r, m, d.phone)
    decreases m
  {
    hide Handle, Run;
    var s := Run(cfg, log[..m]);
    RunNext(cfg, log, m);
    MintStep(cfg, s, log[m].now, log[m].request, id);
    if log[m].request.PhoneChallenge? {
      MintedPhone(cfg, s, log[m].now, log[m].request);
      r := m;
    } else {
      var c := s.challenges[log[m].request.id];
      var k := ChallengeOrigin(cfg, log[..m], log[m].request.id);
      PrefixMints(cfg, log, m, k, log[m].request.id, c);
      MintedIs(cfg, log, k, log[m].request.id, c);
      assert Verifies(cfg, log, k, m, d.phone);
      r := ChallengeRoot(cfg, log, k, log[m].request.id, c);
    }
  }

  lemma MintedPhone(cfg: Config, s: State, now: int, r: Request)
    requires r.PhoneChallenge?
    ensures Handle(cfg, s, now, r).1.status == 200 && r.newId in Handle(cfg, s, now, r).0.challenges
    ensures Handle(cfg, s, now, r).0.challenges[r.newId].phone == r.phone
  {
  }

  // Every full-access token comes from such a chain, and goes back to a phone challenge for its phone.
  lemma TokenOrigin(cfg: Config, log: seq<Step>, j: nat, device: string, phone: string, t: int)
    returns (r: nat, h: int, i: int)
    requires j < |log| && Answer(cfg, log, j).token == Some(FullAccess(device, phone, t))
    ensures t == log[j].now && Chain(cfg, log, h, i, j, device, phone)
    ensures Roots(cfg, log, r, i, phone) && (r == h <==> log[h].request.PhoneChallenge?)
  {
    hide Handle, Run;
    var s := Run(cfg, log[..j]);
    TokenStep(cfg, s, log[j].now, log[j].request, device, phone, t);
    RunNext(cfg, log, j);
    var d := s.challenges[log[j].request.id];
    i := ChallengeOrigin(cfg, log[..j], log[j].request.id);
    PrefixMints(cfg, log, j, i, log[j].request.id, d);
    var s' := Run(cfg, log[..i]);
    RunNext(cfg, log, i);
    MintStep(cfg, s', log[i].now, log[i].request, log[j].request.id);
    var c := s'.challenges[log[i].request.id];
    h := ChallengeOrigin(cfg, log[..i], log[i].request.id);
    PrefixMints(cfg, log, i, h, log[i].request.id, c);
    MintedIs(cfg, log, h, log[i].request.id, c);
    MintedIs(cfg, log, i, log[j].request.id, d);
    assert Verifies(cfg, log, h, i, phone);
    r := ChallengeRoot(cfg, log, h, log[i].request.id, c);
    RootIsChallenge(cfg, log, r, h, phone);
  }

  lemma RootIsChallenge(cfg: Config, log: seq<Step>, r: int, m: int, phone: string)
    requires Roots(cfg, log, r, m, phone)
    ensures 0 <= r <= m < |log| && (r == m <==> log[m].request.PhoneChallenge?)
  {
    hide Run, Handle;
  }

  // Different tokens have nothing in common: neither the device challenge nor the verification that minted
  // it, nor the challenge which that used.
  lemma TokensShareNothing(cfg: Config, log: seq<Step>, h: int, i: int, j: int, device: string, phone: string,
                           h': int, i': int, j': int, device': string, phone': string)
    requires FreshIds(log) && Chain(cfg, log, h, i, j, device, phone) && Chain(cfg, log, h', i', j', device', phone')
    requires Answer(cfg, log, j).token.Some? && Answer(cfg, log, j').token.Some? && j != j'
    ensures i != i' && h != h' && log[j].request.id != log[j'].request.id && log[i].request.id != log[i'].request.id
  {
    hide Handle, Run, Mints, PhoneSignedAt, DeviceSignedAt;
    TokenAttempts(cfg, log, j);
    TokenAttempts(cfg, log, j');
    if log[j].request.id == log[j'].request.id { OneAttempt(cfg, log, j, j', log[j].request.id); }
    ChainMints(cfg, log, h, i, j, device, phone);
    ChainMints(cfg, log, h', i', j', device', phone');
    if log[i].request.id == log[i'].request.id { OneAttempt(cfg, log, i, i', log[i].request.id); }
  }

  lemma TokenAttempts(cfg: Config, log: seq<Step>, j: nat)
    requires j < |log| && log[j].request.DeviceVerify? && Answer(cfg, log, j).token.Some?
    ensures Attempts(cfg, log, j, log[j].request.id)
  {
    hide Run;
  }

  lemma ChainMints(cfg: Config, log: seq<Step>, h: int, i: int, j: int, device: string, phone: string)
    requires Chain(cfg, log, h, i, j, device, phone)
    ensures Minted(log[i].request) == Some(log[j].request.id) && Minted(log[h].request) == Some(log[i].request.id)
    ensures Attempts(cfg, log, i, log[i].request.id)
  {
    hide Run, Handle;
    MintStep(cfg, Run(cfg, log[..i]), log[i].now, log[i].request, log[j].request.id);
  }

  // Step x is a phone verification that finds the challenge which step m minted.
  ghost predicate Reuses(cfg: Config, log: seq<Step>, m: int, x: int) {
    && 0 <= m < x < |log| && log[x].request.PhoneVerify? && Minted(log[m].request) == Some(log[x].request.id)
    && Attempts(cfg, log, x, log[x].request.id)
  }

  lemma VerifiesReuses(cfg: Config, log: seq<Step>, k: int, m: int, phone: string)
    requires Verifies(cfg, log, k, m, phone)
    ensures Reuses(cfg, log, k, m)
  {
    hide Run, PhoneSignedAt;
    VerifyStep(cfg, Run(cfg, log[..m]), log[m].now, log[m].request);
  }

  lemma VerifyStep(cfg: Config, s: State, now: int, r: Request)
    requires r.PhoneVerify? && Handle(cfg, s, now, r).1.status == 200
    ensures r.id in s.challenges
  {
  }

  // Of two steps that go back to the same phone challenge, the earlier one's challenge is used up by a phone
  // verification on the way to the later one.
  lemma {:induction false} OnePath(cfg: Config, log: seq<Step>, r: int, m: nat, m': nat, phone: string, phone': string)
    returns (x: nat)
    requires FreshIds(log) && m < m' && Roots(cfg, log, r, m, phone) && Roots(cfg, log, r, m', phone')
    ensures x <= m' && Reuses(cfg, log, m, x)
    decreases m + m'
  {
    hide Run, Handle, FreshIds, Mints, PhoneSignedAt;
    var k :| Verifies(cfg, log, k, m', phone') && 0 <= k < m' && Roots(cfg, log, r, k, phone');
    VerifiesReuses(cfg, log, k, m', phone');
    if k == m {
      x := m';
    } else if m < k {
      x := OnePath(cfg, log, r, m, k, phone, phone');
    } else {
      var y := OnePath(cfg, log, r, k, m, phone', phone);
      OneAttempt(cfg, log, y, m', log[m'].request.id);
      assert false;
    }
  }

  // Different tokens go back to different phone challenges: each phone challenge is good for one token.
  lemma RootsDiffer(cfg: Config, log: seq<Step>, r: int, h: int, i: int, j: int, device: string, phone: string,
                    r': int, h': int, i': int, j': int, device': string, phone': string)
    requires FreshIds(log) && Chain(cfg, log, h, i, j, device, phone) && Chain(cfg, log, h', i', j', device', phone')
    requires Roots(cfg, log, r, i, phone) && Roots(cfg, log, r', i', phone')
    requires Answer(cfg, log, j).token.Some? && Answer(cfg, log, j').token.Some? && j != j'
    ensures r != r'
  {
    TokensShareNothing(cfg, log, h, i, j, device, phone, h', i', j', device', phone');
    ChainMints(cfg, log, h, i, j, device, phone);
    ChainMints(cfg, log, h', i', j', device', phone');
    hide Run, Handle, FreshIds, Mints, PhoneSignedAt, DeviceSignedAt, Roots;
    TokenAttempts(cfg, log, j);
    TokenAttempts(cfg, log, j');
    if r == r' {
      if i < i' {
        var x := OnePath(cfg, log, r, i, i', phone, phone');
        OneAttempt(cfg, log, x, j, log[j].request.id);
      } else {
        var x := OnePath(cfg, log, r, i', i, phone', phone);
        OneAttempt(cfg, log, x, j', log[j'].request.id);
      }
      assert false;
    }
  }

  // And a token goes back to only one.
  lemma {:induction false} RootIsUnique(cfg: Config, log: seq<Step>, r: int, r': int, m: nat, phone: string, phone': string)
    requires FreshIds(log) && Roots(cfg, log, r, m, phone) && Roots(cfg, log, r', m, phone')
    ensures r == r'
    decreases m
  {
    RootIsChallenge(cfg, log, r, m, phone);
    RootIsChallenge(cfg, log, r', m, phone');
    hide Run, Handle, PhoneSignedAt;
    if r == m || r' == m {
    } else {
      var k :| Verifies(cfg, log, k, m, phone) && 0 <= k < m && Roots(cfg, log, r, k, phone);
      var k' :| Verifies(cfg, log, k', m, phone') && 0 <= k' < m && Roots(cfg, log, r', k', phone');
      assert k == k';
      RootIsUnique(cfg, log, r, r', k, phone, phone');
    }
  }

  // ---- a device challenge used for another phone verification ----

  // A phone that signs every challenge, with a key and a device that any signature fits.
  const LENIENT: Config := Config((_, _, _) => true, (_, _, _) => true, false, "", _ => true)

  // One phone challenge, two phone verifications of which the second uses the device challenge that the
  // first minted, and the device verification.
  function TwiceVerified(): seq<Step> {
    [Step(0, PhoneChallenge("ios", "ph", "key", "c0", "text")), Step(0, PhoneVerify("c0", "sig", "d0", "text")),
     Step(0, PhoneVerify("d0", "sig", "d1", "text")), Step(0, DeviceVerify("d1", "sig", "dev", "key", true))]
  }

  const FIRST := Challenge("ios", "ph", "key", "text", false, TTL)
  const LATER := Challenge("ios", "ph", "key", "text", true, TTL)
  const PHONES := map["ph" := Identity(Phone, "key", true, SelfService)]

  function With(identities: map<string, Identity>, id: string, c: Challenge): State {
    State(identities, map[], map[id := c], map[], {})
  }

  lemma FirstSteps()
    ensures Handle(LENIENT, INITIAL, 0, TwiceVerified()[0].request) == (With(map[], "c0", FIRST), Response(200, None))
    ensures Handle(LENIENT, With(map[], "c0", FIRST), 0, TwiceVerified()[1].request)
         == (With(PHONES, "d0", LATER), Response(200, Some(PhoneSession("ph", 0))))
  {
    assert map["c0" := FIRST] - {"c0"} == map[];
  }

  lemma LastSteps()
    ensures Handle(LENIENT, With(PHONES, "d0", LATER), 0, TwiceVerified()[2].request)
         == (With(PHONES, "d1", LATER), Response(200, Some(PhoneSession("ph", 0))))
    ensures var (s, r) := Handle(LENIENT, With(PHONES, "d1", LATER), 0, TwiceVerified()[3].request);
            r == Response(200, Some(FullAccess("dev", "ph", 0))) && s.identities == PHONES["dev" := Identity(Device, "key", true, SelfService)]
  {
    assert map["d0" := LATER] - {"d0"} == map[];
  }

  lemma Worlds()
    ensures var (cfg, log) := (LENIENT, TwiceVerified());
            && Run(cfg, log[..0]) == INITIAL && Run(cfg, log[..1]) == With(map[], "c0", FIRST)
            && Run(cfg, log[..2]) == With(PHONES, "d0", LATER) && Run(cfg, log[..3]) == With(PHONES, "d1", LATER)
            && Run(cfg, log[..4]).identities == PHONES["dev" := Identity(Device, "key", true, SelfService)]
            && Answer(cfg, log, 0).status == Answer(cfg, log, 1).status == Answer(cfg, log, 2).status == 200
            && Answer(cfg, log, 3).token == Some(FullAccess("dev", "ph", 0))
  {
    var cfg, log := LENIENT, TwiceVerified();
    assert Run(cfg, log[..0]) == INITIAL;
    FirstSteps();
    LastSteps();
    hide Handle, Run, With, LENIENT, INITIAL, FIRST, LATER, PHONES;
    RunNext(cfg, log, 0);
    RunNext(cfg, log, 1);
    RunNext(cfg, log, 2);
    RunNext(cfg, log, 3);
  }

  // The verification before the last one stands where the phone challenge stands in other chains.
  lemma VerificationAtHead()
    ensures var (cfg, log) := (LENIENT, TwiceVerified());
            && Answer(cfg, log, 3).token == Some(FullAccess("dev", "ph", 0))
            && Chain(cfg, log, 1, 2, 3, "dev", "ph") && log[1].request.PhoneVerify?
            && Roots(cfg, log, 0, 2, "ph")
  {
    var cfg, log := LENIENT, TwiceVerified();
    Worlds();
    hide Run, Answer;
    assert Mints(cfg, log, 0, "c0", FIRST) && Mints(cfg, log, 1, "d0", LATER) && Mints(cfg, log, 2, "d1", LATER);
    assert Verifies(cfg, log, 0, 1, "ph") && Verifies(cfg, log, 1, 2, "ph");
    hide Mints, Verifies;
    assert Roots(cfg, log, 0, 0, "ph");
    assert Roots(cfg, log, 0, 1, "ph");
  }
}
