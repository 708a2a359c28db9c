/**
 * The authentication server as a state machine: the challenge map and handlers of server.js, with
 * identity-admin.js, device-auth.js, phone-auth.js and repair.js. A missing string in a request body is
 * the empty string here, as the code treats the two alike.
 */
module AuthProtocol {
  import opened Options

  datatype Kind = Phone | Device
  datatype Policy = SelfService | Permanent

  // A row of the identities table.
  datatype Identity = Identity(kind: Kind, publicKey: string, active: bool, policy: Policy)

  // An entry of activeChallenges.
  datatype Challenge = Challenge(platform: string, phone: string, phoneKey: string, text: string, deviceStage: bool, expiresAt: int)

  datatype Repair = Repair(board: string, target: string, text: string, expiresAt: int)

  // The claims of a session token.
  datatype Token =
    | FullAccess(device: string, phone: string, issuedAt: int)
    | PhoneSession(phone: string, issuedAt: int)

  datatype State = State(
    identities: map<string, Identity>,
    cutoffs: map<string, int>,
    challenges: map<string, Challenge>,
    repairs: map<string, Repair>,
    pairings: set<(string, string)>)

  // Signature checks of the platform, false if they throw, and the deployment's settings.
  datatype Config = Config(
    phoneSigned: (string, string, string) -> bool,
    boardSigned: (string, string, string) -> bool,
    enforced: bool, adminDevice: string, allowed: string -> bool)

  // A request body, with what the server draws for it: new ids and challenge texts, and whether the
  // organization tables let the phone use the device.
  datatype Request =
    | PhoneChallenge(platform: string, phone: string, phoneKey: string, newId: string, newText: string)
    | PhoneVerify(id: string, signature: string, newId: string, newText: string)
    | DeviceVerify(id: string, signature: string, device: string, deviceKey: string, authorized: bool)
    | RepairChallenge(board: string, target: string, newId: string, nonce: string)
    | RepairVerify(id: string, signature: string)
    | AdminReset(target: string)
    | SetRecoveryPolicy(target: string, policy: Policy)
    | Sweep

  datatype Response = Response(status: int, token: Option<Token>)

  const TTL: int := 120000
  const REPAIR_CONTEXT: string := "PHYSICALKEY-REPAIR-AUTH-V1:"

  function Fail(status: int): Response {
    Response(status, None)
  }

  predicate Registered(ids: map<string, Identity>, id: string, kind: Kind) {
    id in ids && ids[id].kind == kind
  }

  // The identities after an attempt to use a phone: trust on first use, before the signature is checked.
  // An id that another kind of identity has taken cannot be registered.
  function PhoneRegistered(ids: map<string, Identity>, c: Challenge): map<string, Identity> {
    if c.platform == "" || c.phone == "" || c.phone in ids || c.phoneKey == "" then ids
    else ids[c.phone := Identity(Phone, c.phoneKey, true, SelfService)]
  }

  // What validatePhoneAttestation answers, against the identities after registration.
  predicate PhoneValid(cfg: Config, ids: map<string, Identity>, c: Challenge, signature: string) {
    && c.platform != "" && c.phone != "" && Registered(ids, c.phone, Phone)
    && signature != "" && cfg.phoneSigned(ids[c.phone].publicKey, c.text, signature)
  }

  function DeviceRegistered(cfg: Config, ids: map<string, Identity>, device: string, key: string): map<string, Identity> {
    if device in ids || key == "" || (cfg.enforced && device != cfg.adminDevice && !cfg.allowed(device)) then ids
    else ids[device := Identity(Device, key, true, SelfService)]
  }

  predicate DeviceValid(cfg: Config, ids: map<string, Identity>, device: string, text: string, signature: string) {
    && Registered(ids, device, Device) && ids[device].active
    && signature != "" && cfg.boardSigned(ids[device].publicKey, text, signature)
  }

  // resetIdentity and revokeSessionsIssuedBefore; the status is 404 or 403 if the identity stays.
  function ResetStatus(ids: map<string, Identity>, target: string): int {
    if target !in ids then 404 else if ids[target].policy == Permanent then 403 else 200
  }

  function Reset(s: State, now: int, target: string): State {
    if ResetStatus(s.identities, target) != 200 then s
    else s.(identities := s.identities - {target}, cutoffs := s.cutoffs[target := now])
  }

  function Handle(cfg: Config, s: State, now: int, r: Request): (State, Response) {
    match r
    case PhoneChallenge(platform, phone, phoneKey, newId, newText) =>
      (s.(challenges := s.challenges[newId := Challenge(platform, phone, phoneKey, newText, false, now + TTL)]),
       Response(200, None))
    case PhoneVerify(id, signature, newId, newText) => HandlePhoneVerify(cfg, s, now, id, signature, newId, newText)
    case DeviceVerify(id, signature, device, deviceKey, authorized) =>
      HandleDeviceVerify(cfg, s, now, id, signature, device, deviceKey, authorized)
    case RepairChallenge(board, target, newId, nonce) => HandleRepairChallenge(s, now, board, target, newId, nonce)
    case RepairVerify(id, signature) => HandleRepairVerify(cfg, s, now, id, signature)
    case AdminReset(target) => (Reset(s, now, target), Fail(ResetStatus(s.identities, target)))
    case SetRecoveryPolicy(target, policy) =>
      if target !in s.identities then (s, Fail(404))
      else if s.identities[target].policy == Permanent then (s, Fail(403))
      else (s.(identities := s.identities[target := s.identities[target].(policy := policy)]), Fail(200))
    case Sweep => (s.(challenges := map id | id in s.challenges && now <= s.challenges[id].expiresAt :: s.challenges[id]), Fail(200))
  }

  function HandlePhoneVerify(cfg: Config, s: State, now: int, id: string, signature: string, newId: string, newText: string)
    : (State, Response)
  {
    if id !in s.challenges then (s, Fail(401))
    else
      var c := s.challenges[id];
      var rest := s.challenges - {id};
      if now > c.expiresAt then (s.(challenges := rest), Fail(401))
      else
        var ids := PhoneRegistered(s.identities, c);
        if !PhoneValid(cfg, ids, c, signature) then (s.(identities := ids, challenges := rest), Fail(401))
        else
          (s.(identities := ids,
              challenges := rest[newId := Challenge(c.platform, c.phone, c.phoneKey, newText, true, now + TTL)]),
           Response(200, Some(PhoneSession(c.phone, now))))
  }

  function HandleDeviceVerify(cfg: Config, s: State, now: int, id: string, signature: string, device: string,
                              deviceKey: string, authorized: bool)
    : (State, Response)
  {
    if id !in s.challenges || !s.challenges[id].deviceStage then (s, Fail(401))
    else
      var c := s.challenges[id];
      var rest := s.challenges - {id};
      if now > c.expiresAt then (s.(challenges := rest), Fail(401))
      else
        var ids := DeviceRegistered(cfg, s.identities, device, deviceKey);
        var s' := s.(identities := ids, challenges := rest);
        if !DeviceValid(cfg, ids, device, c.text, signature) then (s', Fail(401))
        else if !authorized then (s', Fail(403))
        else (s'.(pairings := s.pairings + {(device, c.phone)}), Response(200, Some(FullAccess(device, c.phone, now))))
  }

  function HandleRepairChallenge(s: State, now: int, board: string, target: string, newId: string, nonce: string)
    : (State, Response)
  {
    if board == "" || target == "" then (s, Fail(400))
    else if !(Registered(s.identities, board, Device) && s.identities[board].active) then (s, Fail(404))
    else if !Registered(s.identities, target, Phone) then (s, Fail(404))
    else if s.identities[target].policy == Permanent then (s, Fail(403))
    else if (board, target) !in s.pairings then (s, Fail(403))
    else (s.(repairs := s.repairs[newId := Repair(board, target, REPAIR_CONTEXT + target + ":" + nonce, now + TTL)]), Fail(200))
  }

  function HandleRepairVerify(cfg: Config, s: State, now: int, id: string, signature: string): (State, Response) {
    if id !in s.repairs then (s, Fail(401))
    else
      var p := s.repairs[id];
      var s' := s.(repairs := s.repairs - {id});
      if now > p.expiresAt then (s', Fail(401))
      else if p.board !in s.identities then (s', Fail(404))
      else if signature == "" || !cfg.boardSigned(s.identities[p.board].publicKey, p.text, signature) then (s', Fail(401))
      else (Reset(s', now, p.target), Fail(ResetStatus(s.identities, p.target)))
  }

  // ---- sessions ----

  // isSessionRevoked for one identity.
  predicate RevokedFor(s: State, id: string, issuedAt: int) {
    id != "" && id in s.cutoffs && issuedAt <= s.cutoffs[id]
  }

  // The two middlewares that check tokens. Only requirePhoneSession looks at the scope; each reads the
  // claims that its own kind of token carries.
  datatype Gate = RequireAuth | RequirePhoneSession

  // The identities that a gate finds in a token: none, for requireAuth and a phone session.
  function Named(gate: Gate, t: Token): set<string> {
    match (gate, t)
    case (RequireAuth, FullAccess(device, phone, _)) => {device, phone}
    case (RequireAuth, PhoneSession(_, _)) => {}
    case (RequirePhoneSession, FullAccess(_, _, _)) => {}
    case (RequirePhoneSession, PhoneSession(phone, _)) => {phone}
  }

  // Whether a gate turns a genuine, unexpired token away.
  predicate Rejected(s: State, gate: Gate, t: Token) {
    match gate
    case RequireAuth => t.FullAccess? && (RevokedFor(s, t.device, t.issuedAt) || RevokedFor(s, t.phone, t.issuedAt))
    case RequirePhoneSession => t.FullAccess? || RevokedFor(s, t.phone, t.issuedAt)
  }

  // ---- runs ----

  datatype Step = Step(now: int, request: Request)

  const INITIAL: State := State(map[], map[], map[], map[], {})

  function Run(cfg: Config, log: seq<Step>): State {
    if log == [] then INITIAL
    else Handle(cfg, Run(cfg, log[..|log| - 1]), log[|log| - 1].now, log[|log| - 1].request).0
  }

  // The answer to request i of a run.
  function Answer(cfg: Config, log: seq<Step>, i: nat): Response
    requires i < |log|
  {
    Handle(cfg, Run(cfg, log[..i]), log[i].now, log[i].request).1
  }
}
