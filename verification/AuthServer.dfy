/** The handlers of server.js and the modules they call, on the server's tables; each is one step of AuthProtocol. */
module AuthServer {
  import opened Options
  import opened AuthProtocol
  import Orgs = Organizations

  class Server {
    const cfg: Config
    var identities: map<string, Identity>
    var cutoffs: map<string, int>
    var activeChallenges: map<string, Challenge>
    var repairChallenges: map<string, Repair>
    var pairings: set<(string, string)>

    ghost function Now(): State
      reads this
    {
      State(identities, cutoffs, activeChallenges, repairChallenges, pairings)
    }

    constructor (cfg: Config)
      ensures Now() == INITIAL && this.cfg == cfg
    {
      this.cfg := cfg;
      identities, cutoffs, activeChallenges, repairChallenges, pairings := map[], map[], map[], map[], {};
    }

    method HandlePhoneChallenge(now: int, platform: string, phone: string, phoneKey: string, newId: string, newText: string)
      returns (response: Response)
      modifies this
      ensures (Now(), response) == Handle(cfg, old(Now()), now, PhoneChallenge(platform, phone, phoneKey, newId, newText))
    {
      activeChallenges := activeChallenges[newId := Challenge(platform, phone, phoneKey, newText, false, now + TTL)];
      response := Response(200, None);
    }

    // registerPhone: the insertion fails if the id is taken.
    method RegisterPhone(phone: string, publicKey: string) returns (inserted: bool)
      modifies this`identities
      ensures inserted == (phone !in old(identities))
      ensures identities == if inserted then old(identities)[phone := Identity(Phone, publicKey, true, SelfService)] else old(identities)
    {
      inserted := phone !in identities;
      if inserted {
        identities := identities[phone := Identity(Phone, publicKey, true, SelfService)];
      }
    }

    // validatePhoneAttestation: registration on first use comes before the signature check.
    method ValidatePhoneAttestation(c: Challenge, signature: string) returns (valid: bool)
      modifies this`identities
      ensures identities == PhoneRegistered(old(identities), c)
      ensures valid == PhoneValid(cfg, identities, c, signature)
      ensures valid <==>
        && signature != "" && c.platform != "" && c.phone != ""
        && if c.phone in old(identities) then
             old(identities)[c.phone].kind == Phone && cfg.phoneSigned(old(identities)[c.phone].publicKey, c.text, signature)
           else
             c.phoneKey != "" && cfg.phoneSigned(c.phoneKey, c.text, signature)
    {
      if c.platform == "" || c.phone == "" {
        return false;
      }
      if !(c.phone in identities && identities[c.phone].kind == Phone) {
        if c.phoneKey == "" {
          return false;
        }
        var inserted := RegisterPhone(c.phone, c.phoneKey);
        if !inserted {
          return false;
        }
      }
      if signature == "" {
        return false;
      }
      return cfg.phoneSigned(identities[c.phone].publicKey, c.text, signature);
    }

    method HandlePhoneVerify(now: int, id: string, signature: string, newId: string, newText: string)
      returns (response: Response)
      modifies this
      ensures (Now(), response) == Handle(cfg, old(Now()), now, PhoneVerify(id, signature, newId, newText))
    {
      hide PhoneRegistered, PhoneValid;
      if id !in activeChallenges {
        return Response(401, None);
      }
      var stored := activeChallenges[id];
      if now > stored.expiresAt {
        activeChallenges := activeChallenges - {id};
        return Response(401, None);
      }
      var phoneValid := ValidatePhoneAttestation(stored, signature);
      activeChallenges := activeChallenges - {id};
      if !phoneValid {
        return Response(401, None);
      }
      activeChallenges := activeChallenges[newId :=
        Challenge(stored.platform, stored.phone, stored.phoneKey, newText, true, now + TTL)];
      response := Response(200, Some(PhoneSession(stored.phone, now)));
    }

    method RegisterDevice(device: string, publicKey: string) returns (inserted: bool)
      modifies this`identities
      ensures inserted == (device !in old(identities))
      ensures identities == if inserted then old(identities)[device := Identity(Device, publicKey, true, SelfService)] else old(identities)
    {
      inserted := device !in identities;
      if inserted {
        identities := identities[device := Identity(Device, publicKey, true, SelfService)];
      }
    }

    // validateDeviceSignature, with the allow-list on first registration.
    method ValidateDeviceSignature(text: string, signature: string, device: string, key: string) returns (valid: bool)
      modifies this`identities
      ensures identities == DeviceRegistered(cfg, old(identities), device, key)
      ensures valid == DeviceValid(cfg, identities, device, text, signature)
      ensures valid <==>
        && signature != ""
        && if device in old(identities) then
             var known := old(identities)[device];
             known.kind == Device && known.active && cfg.boardSigned(known.publicKey, text, signature)
           else
             && key != "" && (cfg.enforced ==> device == cfg.adminDevice || cfg.allowed(device))
             && cfg.boardSigned(key, text, signature)
    {
      if !(device in identities && identities[device].kind == Device) {
        if key == "" {
          return false;
        }
        if cfg.enforced && device != cfg.adminDevice && !cfg.allowed(device) {
          return false;
        }
        var inserted := RegisterDevice(device, key);
        if !inserted {
          return false;
        }
      }
      if !identities[device].active {
        return false;
      }
      if signature == "" {
        return false;
      }
      return cfg.boardSigned(identities[device].publicKey, text, signature);
    }

    // Whether the phone of the challenge may use the device is for the organization tables to say.
    method HandleDeviceVerify(now: int, id: string, signature: string, device: string, deviceKey: string, orgs: Orgs.OrgStore)
      returns (response: Response)
      requires orgs.Valid()
      modifies this
      ensures var phone := if id in old(activeChallenges) then old(activeChallenges)[id].phone else "";
              (Now(), response) == Handle(cfg, old(Now()), now,
                DeviceVerify(id, signature, device, deviceKey, Orgs.Authorized(orgs.history, device, phone)))
    {
      hide DeviceRegistered, DeviceValid, Orgs.Authorized;
      if id !in activeChallenges || !activeChallenges[id].deviceStage {
        return Response(401, None);
      }
      var stored := activeChallenges[id];
      if now > stored.expiresAt {
        activeChallenges := activeChallenges - {id};
        return Response(401, None);
      }
      var deviceValid := ValidateDeviceSignature(stored.text, signature, device, deviceKey);
      activeChallenges := activeChallenges - {id};
      if !deviceValid {
        return Response(401, None);
      }
      var authorized := orgs.IsAuthorizedForDevice(device, stored.phone);
      if !authorized {
        return Response(403, None);
      }
      pairings := pairings + {(device, stored.phone)};
      response := Response(200, Some(FullAccess(device, stored.phone, now)));
    }

    method HandleRepairChallenge(now: int, board: string, target: string, newId: string, nonce: string)
      returns (response: Response)
      modifies this
      ensures (Now(), response) == Handle(cfg, old(Now()), now, RepairChallenge(board, target, newId, nonce))
    {
      if board == "" || target == "" {
        return Fail(400);
      }
      if board !in identities || identities[board].kind != Device || !identities[board].active {
        return Fail(404);
      }
      if target !in identities || identities[target].kind != Phone {
        return Fail(404);
      }
      if identities[target].policy == Permanent {
        return Fail(403);
      }
      if (board, target) !in pairings {
        return Fail(403);
      }
      var challenge := REPAIR_CONTEXT + target + ":" + nonce;
      repairChallenges := repairChallenges[newId := Repair(board, target, challenge, now + TTL)];
      return Fail(200);
    }

    method HandleRepairVerify(now: int, id: string, signature: string) returns (response: Response)
      modifies this
      ensures (Now(), response) == Handle(cfg, old(Now()), now, RepairVerify(id, signature))
    {
      var found := id in repairChallenges;
      var stored := if found then repairChallenges[id] else Repair("", "", "", 0);
      repairChallenges := repairChallenges - {id};
      assert !found ==> repairChallenges == old(repairChallenges);
      if !found || now > stored.expiresAt {
        return Fail(401);
      }
      if stored.board !in identities {
        return Fail(404);
      }
      if signature == "" || !cfg.boardSigned(identities[stored.board].publicKey, stored.text, signature) {
        return Fail(401);
      }
      var status := ResetIdentity(stored.target);
      if status == 200 {
        cutoffs := cutoffs[stored.target := now];
      }
      return Fail(status);
    }

    // resetIdentity, with the status its callers answer.
    method ResetIdentity(target: string) returns (status: int)
      modifies this`identities
      ensures status == ResetStatus(old(identities), target)
      ensures identities == if status == 200 then old(identities) - {target} else old(identities)
    {
      if target !in identities {
        return 404;
      }
      if identities[target].policy == Permanent {
        return 403;
      }
      identities := identities - {target};
      return 200;
    }

    method HandleAdminReset(now: int, target: string) returns (response: Response)
      modifies this
      ensures (Now(), response) == Handle(cfg, old(Now()), now, AdminReset(target))
    {
      var status := ResetIdentity(target);
      if status == 200 {
        cutoffs := cutoffs[target := now];
      }
      return Fail(status);
    }

    method HandleSetRecoveryPolicy(now: int, target: string, policy: Policy) returns (response: Response)
      modifies this
      ensures (Now(), response) == Handle(cfg, old(Now()), now, SetRecoveryPolicy(target, policy))
    {
      if target !in identities {
        return Fail(404);
      }
      if identities[target].policy == Permanent {
        return Fail(403);
      }
      identities := identities[target := identities[target].(policy := policy)];
      return Fail(200);
    }

    // The timer: walk the map and delete what has expired.
    method HandleSweep(now: int)
      modifies this
      ensures Now() == Handle(cfg, old(Now()), now, Sweep).0
    {
      ghost var was := activeChallenges;
      var todo := activeChallenges.Keys;
      while todo != {}
        modifies this`activeChallenges
        invariant todo <= was.Keys
        invariant forall id :: id in activeChallenges <==> id in was && (id in todo || now <= was[id].expiresAt)
        invariant forall id :: id in activeChallenges ==> activeChallenges[id] == was[id]
        decreases |todo|
      {
        var id :| id in todo;
        todo := todo - {id};
        if now > activeChallenges[id].expiresAt {
          activeChallenges := activeChallenges - {id};
        }
      }
      assert activeChallenges == map id | id in was && now <= was[id].expiresAt :: was[id];
    }

    method IsSessionRevoked(id: string, issuedAt: int) returns (revoked: bool)
      ensures revoked == RevokedFor(Now(), id, issuedAt)
    {
      if id == "" {
        return false;
      }
      return id in cutoffs && issuedAt <= cutoffs[id];
    }

    // What requireAuth and requirePhoneSession check of a genuine, unexpired token.
    method IsRejected(gate: Gate, token: Token) returns (rejected: bool)
      ensures rejected == Rejected(Now(), gate, token)
    {
      match gate {
        case RequireAuth =>
          if token.PhoneSession? {
            return false;
          }
          rejected := IsSessionRevoked(token.device, token.issuedAt);
          if !rejected {
            rejected := IsSessionRevoked(token.phone, token.issuedAt);
          }
        case RequirePhoneSession =>
          if token.FullAccess? {
            return true;
          }
          rejected := IsSessionRevoked(token.phone, token.issuedAt);
      }
    }
  }
}
