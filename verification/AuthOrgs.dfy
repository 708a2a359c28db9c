/** Logins and changes of the organizations in one run: who may use a device is asked at the moment of the login. */
module AuthOrgs {
  import opened Options
  import opened AuthProtocol
  import Orgs = Organizations

  // A request to the authentication handlers, or a change of the organization tables.
  datatype Move = Login(step: Step) | Change(event: Orgs.Event)

  // The history of the organization tables.
  function HistoryOf(moves: seq<Move>): Orgs.History {
    if moves == [] then []
    else
      var n := |moves| - 1;
      HistoryOf(moves[..n]) + if moves[n].Change? then [moves[n].event] else []
  }

  // A device verification with the answer of the organization tables about the phone of its challenge, as
  // the handler asks for it.
  function Asked(s: State, h: Orgs.History, r: Request): Request {
    if r.DeviceVerify? then
      r.(authorized := Orgs.Authorized(h, r.device, if r.id in s.challenges then s.challenges[r.id].phone else ""))
    else r
  }

  // The run of the authentication server alone; so everything proved of its runs holds here.
  function LogOf(cfg: Config, moves: seq<Move>): seq<Step> {
    if moves == [] then []
    else
      var n := |moves| - 1;
      var log := LogOf(cfg, moves[..n]);
      match moves[n]
      case Login(Step(now, request)) => log + [Step(now, Asked(Run(cfg, log), HistoryOf(moves[..n]), request))]
      case Change(_) => log
  }

  // The answer to a login that is the last move.
  function AnswerTo(cfg: Config, moves: seq<Move>): Response
    requires moves != [] && moves[|moves| - 1].Login?
  {
    Answer(cfg, LogOf(cfg, moves), |LogOf(cfg, moves)| - 1)
  }

  lemma LastLogin(cfg: Config, moves: seq<Move>)
    requires moves != [] && moves[|moves| - 1].Login?
    ensures var (n, log) := (|moves| - 1, LogOf(cfg, moves[..|moves| - 1]));
            var (now, r) := (moves[n].step.now, moves[n].step.request);
            AnswerTo(cfg, moves) == Handle(cfg, Run(cfg, log), now, Asked(Run(cfg, log), HistoryOf(moves[..n]), r)).1
  {
    var n, log := |moves| - 1, LogOf(cfg, moves[..|moves| - 1]);
    assert LogOf(cfg, moves)[..|log|] == log;
    hide Handle, Run, Asked, HistoryOf;
  }

  // Every full-access token is for a phone that the organizations let use the device at that moment, and a
  // refusal for want of authorization is one that they do not.
  lemma TokenIsAuthorized(cfg: Config, moves: seq<Move>)
    requires moves != [] && moves[|moves| - 1].Login?
    ensures var (a, h) := (AnswerTo(cfg, moves), HistoryOf(moves[..|moves| - 1]));
            && (a.token.Some? && a.token.value.FullAccess? ==> Orgs.Authorized(h, a.token.value.device, a.token.value.phone))
            && (a.status == 403 && moves[|moves| - 1].step.request.DeviceVerify? ==>
                  var (s, r) := (Run(cfg, LogOf(cfg, moves[..|moves| - 1])), moves[|moves| - 1].step.request);
                  r.id in s.challenges && !Orgs.Authorized(h, r.device, s.challenges[r.id].phone))
  {
    LastLogin(cfg, moves);
    hide Run, LogOf, HistoryOf, AnswerTo, Orgs.Authorized;
  }

  // A phone removed from the org that owns a device gets no token for it until it is added again.
  lemma RemovedMemberGetsNoToken(cfg: Config, moves: seq<Move>, k: nat, org: string, phone: string, device: string)
    requires moves != [] && moves[|moves| - 1].Login?
    requires var h := HistoryOf(moves[..|moves| - 1]);
             && k < |h| && h[k] == Orgs.MemberRemoved(org, phone) && Orgs.OwningOrg(h, device) == Some(org)
             && forall j :: k < j < |h| ==>
                  !(h[j].MemberAdded? && h[j].org == org && h[j].phone == phone) && h[j] != Orgs.Created(org, phone)
    ensures forall t :: AnswerTo(cfg, moves).token != Some(FullAccess(device, phone, t))
  {
    hide AnswerTo, HistoryOf, Orgs.Authorized, Orgs.OwningOrg;
    TokenIsAuthorized(cfg, moves);
    Orgs.RemovedMemberIsOut(HistoryOf(moves[..|moves| - 1]), k, org, phone, device);
  }
}
