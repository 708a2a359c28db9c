/** backend/auth/organizations.js: team accounts, and who may use which device. */
module Organizations {
  import opened Options

  type OrgId = string
  type DeviceId = string
  // A phone identity: the owner, or a member.
  type PhoneId = string

  datatype Role = Owner | Admin | Member

  // A membership row; revoked members keep their row.
  datatype Membership = Membership(role: Role, active: bool)

  datatype Plan = Active | Inactive

  // What succeeded, in order.
  datatype Event =
    | Created(org: OrgId, owner: PhoneId)
    | MemberAdded(org: OrgId, phone: PhoneId, role: Role)
    | MemberRemoved(org: OrgId, phone: PhoneId)
    | DeviceAdded(org: OrgId, device: DeviceId)
    | DeviceRemoved(device: DeviceId)
    | Granted(org: OrgId, device: DeviceId, phone: PhoneId)
    | Revoked(org: OrgId, device: DeviceId, phone: PhoneId)
    | PlanSet(org: OrgId, plan: Plan)

  type History = seq<Event>

  // ---- the meaning of a history ----

  // The org that added the device last, unless it has been removed since.
  function OwningOrg(h: History, device: DeviceId): Option<OrgId> {
    if h == [] then None
    else match h[|h| - 1]
      case DeviceAdded(o, d) => if d == device then Some(o) else OwningOrg(h[..|h| - 1], device)
      case DeviceRemoved(d) => if d == device then None else OwningOrg(h[..|h| - 1], device)
      case _ => OwningOrg(h[..|h| - 1], device)
  }

  predicate Owns(h: History, org: OrgId, device: DeviceId) {
    OwningOrg(h, device) == Some(org)
  }

  ghost predicate HasDevice(h: History, org: OrgId) {
    exists d :: Owns(h, org, d)
  }

  // The role of the latest membership event, if that is not a removal.
  function LatestRole(h: History, org: OrgId, phone: PhoneId): Option<Role> {
    if h == [] then None
    else match h[|h| - 1]
      case Created(o, p) => if o == org && p == phone then Some(Owner) else LatestRole(h[..|h| - 1], org, phone)
      case MemberAdded(o, p, r) => if o == org && p == phone then Some(r) else LatestRole(h[..|h| - 1], org, phone)
      case MemberRemoved(o, p) => if o == org && p == phone then None else LatestRole(h[..|h| - 1], org, phone)
      case _ => LatestRole(h[..|h| - 1], org, phone)
  }

  // Whether access was granted since the device last joined the org, and not revoked since.
  predicate GrantedSinceJoin(h: History, org: OrgId, device: DeviceId, phone: PhoneId) {
    if h == [] then false
    else match h[|h| - 1]
      case Granted(o, d, p) => (o == org && d == device && p == phone) || GrantedSinceJoin(h[..|h| - 1], org, device, phone)
      case Revoked(o, d, p) => !(o == org && d == device && p == phone) && GrantedSinceJoin(h[..|h| - 1], org, device, phone)
      case DeviceAdded(_, d) => d != device && GrantedSinceJoin(h[..|h| - 1], org, device, phone)
      case DeviceRemoved(d) => d != device && GrantedSinceJoin(h[..|h| - 1], org, device, phone)
      case _ => GrantedSinceJoin(h[..|h| - 1], org, device, phone)
  }

  function PlanOf(h: History, org: OrgId): Plan {
    if h == [] then Inactive
    else match h[|h| - 1]
      case PlanSet(o, p) => if o == org then p else PlanOf(h[..|h| - 1], org)
      case _ => PlanOf(h[..|h| - 1], org)
  }

  // Who may use a device, in terms of the history alone.
  predicate Authorized(h: History, device: DeviceId, phone: PhoneId) {
    match OwningOrg(h, device)
    case None => true
    case Some(org) =>
      match LatestRole(h, org, phone)
      case None => false
      case Some(Member) => GrantedSinceJoin(h, org, device, phone)
      case Some(_) => true
  }

  // No org came to a second device except while its plan was active.
  ghost predicate WithinPlan(h: History) {
    forall i :: 0 <= i < |h| && h[i].DeviceAdded? && HasDevice(h[..i], h[i].org) ==> PlanOf(h[..i], h[i].org) == Active
  }

  datatype Failure = UnknownOrg | AlreadyInThisOrg | AlreadyInAnotherOrg | PlanRequired | NotAMember | NotThisOrgsDevice

  class OrgStore {
    var orgs: map<OrgId, Plan>
    var members: map<(OrgId, PhoneId), Membership>
    var devices: map<DeviceId, OrgId>
    var access: set<(OrgId, DeviceId, PhoneId)>
    ghost var history: History

    // The tables say what the history says.
    ghost predicate Valid()
      reads this
    {
      && (forall o, p :: LatestRole(history, o, p)
            == if (o, p) in members && members[(o, p)].active then Some(members[(o, p)].role) else None)
      && (forall d :: OwningOrg(history, d) == if d in devices then Some(devices[d]) else None)
      && (forall o, d, p :: GrantedSinceJoin(history, o, d, p) <==> (o, d, p) in access)
      && (forall o :: PlanOf(history, o) == if o in orgs then orgs[o] else Inactive)
      && (forall o, d, p :: (o, d, p) in access ==> d in devices && devices[d] == o)
      && WithinPlan(history)
    }

    constructor ()
      ensures Valid() && history == []
    {
      orgs, members, devices, access, history := map[], map[], map[], {}, [];
    }

    // The id is a fresh one.
    method CreateOrganization(id: OrgId, owner: PhoneId)
      requires Valid() && id !in orgs
      modifies this
      ensures Valid() && history == old(history) + [Created(id, owner)]
      ensures orgs == old(orgs)[id := Inactive]
    {
      hide OwningOrg, LatestRole, GrantedSinceJoin, PlanOf, WithinPlan;
      orgs := orgs[id := Inactive];
      members := members[(id, owner) := Membership(Owner, true)];
      Next(history, Created(id, owner));
      history := history + [Created(id, owner)];
    }

    // Adds a member, or a role to one; the row of a removed member comes back to life.
    method AddMember(org: OrgId, phone: PhoneId, role: Role) returns (failure: Option<Failure>)
      requires Valid()
      modifies this
      ensures Valid()
      ensures failure == if org in old(orgs) then None else Some(UnknownOrg)
      ensures history == old(history) + if failure.None? then [MemberAdded(org, phone, role)] else []
    {
      hide OwningOrg, LatestRole, GrantedSinceJoin, PlanOf, WithinPlan;
      if org !in orgs {
        return Some(UnknownOrg);
      }
      members := members[(org, phone) := Membership(role, true)];
      Next(history, MemberAdded(org, phone, role));
      history := history + [MemberAdded(org, phone, role)];
      return None;
    }

    // Keeps the row and its role, but not its effect. False if there is no row.
    method RemoveMember(org: OrgId, phone: PhoneId) returns (found: bool)
      requires Valid()
      modifies this
      ensures Valid() && found == ((org, phone) in old(members))
      ensures history == old(history) + if found then [MemberRemoved(org, phone)] else []
    {
      hide OwningOrg, LatestRole, GrantedSinceJoin, PlanOf, WithinPlan;
      if (org, phone) !in members {
        return false;
      }
      members := members[(org, phone) := members[(org, phone)].(active := false)];
      Next(history, MemberRemoved(org, phone));
      history := history + [MemberRemoved(org, phone)];
      return true;
    }

    method SetOrgPlanStatus(org: OrgId, plan: Plan)
      requires Valid()
      modifies this
      ensures Valid()
      ensures history == old(history) + if org in old(orgs) then [PlanSet(org, plan)] else []
    {
      hide OwningOrg, LatestRole, GrantedSinceJoin, PlanOf, WithinPlan;
      if org in orgs {
        orgs := orgs[org := plan];
        Next(history, PlanSet(org, plan));
        history := history + [PlanSet(org, plan)];
      }
    }

    // A first device is free; another one needs an active plan.
    method AddDeviceToOrg(org: OrgId, device: DeviceId) returns (failure: Option<Failure>)
      requires Valid()
      modifies this
      ensures Valid()
      ensures failure ==
        match OwningOrg(old(history), device)
        case Some(o) => Some(if o == org then AlreadyInThisOrg else AlreadyInAnotherOrg)
        case None =>
          if HasDevice(old(history), org) && PlanOf(old(history), org) != Active then Some(PlanRequired)
          else if org !in old(orgs) then Some(UnknownOrg)
          else None
      ensures history == old(history) + if failure.None? then [DeviceAdded(org, device)] else []
    {
      if device in devices {
        return Some(if devices[device] == org then AlreadyInThisOrg else AlreadyInAnotherOrg);
      }
      var count := |DevicesOf(devices, org)|;
      CountOfDevices(history, devices, org);
      var planActive := org in orgs && orgs[org] == Active;
      if count >= 1 && !planActive {
        return Some(PlanRequired);
      }
      if org !in orgs {
        return Some(UnknownOrg);
      }
      InsertDevice(org, device);
      return None;
    }

    method InsertDevice(org: OrgId, device: DeviceId)
      requires Valid() && device !in devices && (HasDevice(history, org) ==> PlanOf(history, org) == Active)
      modifies this
      ensures Valid() && history == old(history) + [DeviceAdded(org, device)]
    {
      hide OwningOrg, LatestRole, GrantedSinceJoin, PlanOf, WithinPlan;
      devices := devices[device := org];
      Next(history, DeviceAdded(org, device));
      history := history + [DeviceAdded(org, device)];
    }

    // Takes every grant for the device along.
    method RemoveDeviceFromOrg(device: DeviceId) returns (previous: Option<OrgId>)
      requires Valid()
      modifies this
      ensures Valid() && previous == OwningOrg(old(history), device)
      ensures history == old(history) + if previous.Some? then [DeviceRemoved(device)] else []
    {
      hide OwningOrg, LatestRole, GrantedSinceJoin, PlanOf, WithinPlan;
      if device !in devices {
        return None;
      }
      previous := Some(devices[device]);
      access := set a | a in access && a.1 != device;
      devices := devices - {device};
      Next(history, DeviceRemoved(device));
      history := history + [DeviceRemoved(device)];
    }

    method GrantDeviceAccess(org: OrgId, device: DeviceId, phone: PhoneId) returns (failure: Option<Failure>)
      requires Valid()
      modifies this
      ensures Valid()
      ensures failure == if LatestRole(old(history), org, phone).None? then Some(NotAMember)
                         else if OwningOrg(old(history), device) != Some(org) then Some(NotThisOrgsDevice)
                         else None
      ensures history == old(history) + if failure.None? then [Granted(org, device, phone)] else []
    {
      hide OwningOrg, LatestRole, GrantedSinceJoin, PlanOf, WithinPlan;
      if (org, phone) !in members || !members[(org, phone)].active {
        return Some(NotAMember);
      }
      if device !in devices || devices[device] != org {
        return Some(NotThisOrgsDevice);
      }
      access := access + {(org, device, phone)};
      Next(history, Granted(org, device, phone));
      history := history + [Granted(org, device, phone)];
      return None;
    }

    method RevokeDeviceAccess(org: OrgId, device: DeviceId, phone: PhoneId)
      requires Valid()
      modifies this
      ensures Valid() && history == old(history) + [Revoked(org, device, phone)]
    {
      hide OwningOrg, LatestRole, GrantedSinceJoin, PlanOf, WithinPlan;
      access := access - {(org, device, phone)};
      Next(history, Revoked(org, device, phone));
      history := history + [Revoked(org, device, phone)];
    }

    // The check of /auth/device/verify.
    method IsAuthorizedForDevice(device: DeviceId, phone: PhoneId) returns (authorized: bool)
      requires Valid()
      ensures authorized <==> Authorized(history, device, phone)
    {
      if device !in devices {
        return true;
      }
      var org := devices[device];
      if (org, phone) !in members || !members[(org, phone)].active {
        return false;
      }
      var role := members[(org, phone)].role;
      if role == Owner || role == Admin {
        return true;
      }
      return (org, device, phone) in access;
    }
  }

  // One more event changes the meaning of a history only where it says so.
  lemma Next(h: History, e: Event)
    requires WithinPlan(h)
    requires e.DeviceAdded? && HasDevice(h, e.org) ==> PlanOf(h, e.org) == Active
    ensures WithinPlan(h + [e])
    ensures forall d :: (OwningOrg(h + [e], d) ==
      if e.DeviceAdded? && e.device == d then Some(e.org) else if e == DeviceRemoved(d) then None else OwningOrg(h, d))
    ensures forall o, p :: (LatestRole(h + [e], o, p) ==
      if e == Created(o, p) then Some(Owner)
      else if e.MemberAdded? && e.org == o && e.phone == p then Some(e.role)
      else if e == MemberRemoved(o, p) then None
      else LatestRole(h, o, p))
    ensures forall o, d, p :: (GrantedSinceJoin(h + [e], o, d, p) <==>
      e == Granted(o, d, p) ||
      (GrantedSinceJoin(h, o, d, p) && e != Revoked(o, d, p) && !((e.DeviceAdded? || e.DeviceRemoved?) && e.device == d)))
    ensures forall o :: PlanOf(h + [e], o) == if e.PlanSet? && e.org == o then e.plan else PlanOf(h, o)
  {
    var h' := h + [e];
    assert h'[..|h|] == h;
    PlanKept(h, e);
  }

  lemma PlanKept(h: History, e: Event)
    requires WithinPlan(h)
    requires e.DeviceAdded? && HasDevice(h, e.org) ==> PlanOf(h, e.org) == Active
    ensures WithinPlan(h + [e])
  {
    hide HasDevice, PlanOf;
    var h' := h + [e];
    forall i | 0 <= i < |h'| && h'[i].DeviceAdded? && HasDevice(h'[..i], h'[i].org)
      ensures PlanOf(h'[..i], h'[i].org) == Active
    {
      if i < |h| { assert h'[..i] == h[..i]; } else { assert h'[..i] == h; }
    }
  }

  function DevicesOf(devices: map<DeviceId, OrgId>, org: OrgId): set<DeviceId> {
    set d | d in devices && devices[d] == org
  }

  lemma CountOfDevices(h: History, devices: map<DeviceId, OrgId>, org: OrgId)
    requires forall d :: OwningOrg(h, d) == if d in devices then Some(devices[d]) else None
    ensures |DevicesOf(devices, org)| >= 1 <==> HasDevice(h, org)
  {
    var s := DevicesOf(devices, org);
    assert forall d :: Owns(h, org, d) <==> d in s;
    assert s == {} <==> |s| == 0;
    if s != {} {
      var d :| d in s;
      assert Owns(h, org, d);
    }
  }

  // ---- consequences for whole histories ----

  // A device that joins an org brings no grants along from before.
  lemma {:induction false} NoInheritedGrants(h: History, k: nat, device: DeviceId, phone: PhoneId, org: OrgId)
    requires k < |h| && h[k].DeviceAdded? && h[k].device == device
    requires forall j :: k < j < |h| ==> !(h[j].Granted? && h[j].device == device && h[j].phone == phone)
    ensures !GrantedSinceJoin(h, org, device, phone)
  {
    if k + 1 == |h| {
    } else {
      NoInheritedGrants(h[..|h| - 1], k, device, phone, org);
    }
  }

  lemma {:induction false} NoRoleAfterRemoval(h: History, k: nat, org: OrgId, phone: PhoneId)
    requires k < |h| && h[k] == MemberRemoved(org, phone)
    requires forall j :: k < j < |h| ==>
      !(h[j].MemberAdded? && h[j].org == org && h[j].phone == phone) && h[j] != Created(org, phone)
    ensures LatestRole(h, org, phone) == None
  {
    if k + 1 == |h| {
    } else {
      NoRoleAfterRemoval(h[..|h| - 1], k, org, phone);
    }
  }

  // A member who was removed and not added again may use no device of the org, whatever grants remain.
  lemma RemovedMemberIsOut(h: History, k: nat, org: OrgId, phone: PhoneId, device: DeviceId)
    requires k < |h| && h[k] == MemberRemoved(org, phone) && OwningOrg(h, device) == Some(org)
    requires forall j :: k < j < |h| ==>
      !(h[j].MemberAdded? && h[j].org == org && h[j].phone == phone) && h[j] != Created(org, phone)
    ensures !Authorized(h, device, phone)
  {
    NoRoleAfterRemoval(h, k, org, phone);
  }

  // ---- the same, event by event ----

  // Event k brought the device to the org, and no event since took it anywhere.
  ghost predicate JoinedAt(h: History, k: int, org: OrgId, device: DeviceId) {
    && 0 <= k < |h| && h[k] == DeviceAdded(org, device)
    && forall j :: k < j < |h| ==> !(h[j].DeviceAdded? && h[j].device == device) && h[j] != DeviceRemoved(device)
  }

  predicate AboutMember(e: Event, org: OrgId, phone: PhoneId) {
    e == Created(org, phone) || (e.MemberAdded? && e.org == org && e.phone == phone) || e == MemberRemoved(org, phone)
  }

  // Event k gave the phone its role, and no event since was about the phone's membership.
  ghost predicate RoleAt(h: History, k: int, org: OrgId, phone: PhoneId, role: Role) {
    && 0 <= k < |h| && (h[k] == MemberAdded(org, phone, role) || (h[k] == Created(org, phone) && role == Owner))
    && forall j :: k < j < |h| ==> !AboutMember(h[j], org, phone)
  }

  // Event k granted the phone the device, and no event since revoked that or moved the device.
  ghost predicate GrantAt(h: History, k: int, org: OrgId, device: DeviceId, phone: PhoneId) {
    && 0 <= k < |h| && h[k] == Granted(org, device, phone)
    && forall j :: k < j < |h| ==>
         h[j] != Revoked(org, device, phone) && !(h[j].DeviceAdded? && h[j].device == device) && h[j] != DeviceRemoved(device)
  }

  // Event k set the org's plan active, and no event since set it.
  ghost predicate ActiveAt(h: History, k: int, org: OrgId) {
    0 <= k < |h| && h[k] == PlanSet(org, Active) && forall j :: k < j < |h| ==> !(h[j].PlanSet? && h[j].org == org)
  }

  lemma {:induction false} OwningOrgMeans(h: History, org: OrgId, device: DeviceId)
    ensures OwningOrg(h, device) == Some(org) <==> exists k :: JoinedAt(h, k, org, device)
  {
    if h == [] {
    } else {
      var n := |h| - 1;
      OwningOrgMeans(h[..n], org, device);
      if h[n] == DeviceAdded(org, device) {
        assert JoinedAt(h, n, org, device);
      } else {
        forall k
          ensures JoinedAt(h, k, org, device) <==>
            JoinedAt(h[..n], k, org, device) && !(h[n].DeviceAdded? && h[n].device == device) && h[n] != DeviceRemoved(device)
        {
        }
      }
    }
  }

  lemma {:induction false} LatestRoleMeans(h: History, org: OrgId, phone: PhoneId, role: Role)
    ensures LatestRole(h, org, phone) == Some(role) <==> exists k :: RoleAt(h, k, org, phone, role)
  {
    if h == [] {
    } else {
      var n := |h| - 1;
      LatestRoleMeans(h[..n], org, phone, role);
      if AboutMember(h[n], org, phone) {
        assert RoleAt(h, n, org, phone, role) <==> LatestRole(h, org, phone) == Some(role);
      } else {
        forall k
          ensures RoleAt(h, k, org, phone, role) <==> RoleAt(h[..n], k, org, phone, role)
        {
        }
      }
    }
  }

  lemma {:induction false} GrantedMeans(h: History, org: OrgId, device: DeviceId, phone: PhoneId)
    ensures GrantedSinceJoin(h, org, device, phone) <==> exists k :: GrantAt(h, k, org, device, phone)
  {
    if h == [] {
    } else {
      var n := |h| - 1;
      GrantedMeans(h[..n], org, device, phone);
      if h[n] == Granted(org, device, phone) {
        assert GrantAt(h, n, org, device, phone);
      } else {
        forall k
          ensures GrantAt(h, k, org, device, phone) <==>
            && GrantAt(h[..n], k, org, device, phone) && h[n] != Revoked(org, device, phone)
            && !(h[n].DeviceAdded? && h[n].device == device) && h[n] != DeviceRemoved(device)
        {
        }
      }
    }
  }

  // The owner and the admins of an org may use its devices, and those of its members who were granted the
  // device since it joined.
  ghost predicate MayUse(h: History, org: OrgId, device: DeviceId, phone: PhoneId) {
    || (exists k :: RoleAt(h, k, org, phone, Owner)) || (exists k :: RoleAt(h, k, org, phone, Admin))
    || ((exists k :: RoleAt(h, k, org, phone, Member)) && exists k :: GrantAt(h, k, org, device, phone))
  }

  lemma MayUseMeans(h: History, org: OrgId, device: DeviceId, phone: PhoneId)
    ensures MayUse(h, org, device, phone) <==>
      match LatestRole(h, org, phone)
      case None => false
      case Some(Member) => GrantedSinceJoin(h, org, device, phone)
      case Some(_) => true
  {
    LatestRoleMeans(h, org, phone, Owner);
    LatestRoleMeans(h, org, phone, Admin);
    LatestRoleMeans(h, org, phone, Member);
    GrantedMeans(h, org, device, phone);
    hide LatestRole, GrantedSinceJoin, RoleAt, GrantAt;
    match LatestRole(h, org, phone) {
      case None =>
      case Some(Owner) => assert exists k :: RoleAt(h, k, org, phone, Owner);
      case Some(Admin) => assert exists k :: RoleAt(h, k, org, phone, Admin);
      case Some(Member) => assert exists k :: RoleAt(h, k, org, phone, Member);
    }
  }

  // Who may use a device: anybody, if no org has it, and otherwise those that its org lets use it.
  lemma AuthorizedMeans(h: History, device: DeviceId, phone: PhoneId)
    ensures Authorized(h, device, phone) <==>
      forall org, j :: JoinedAt(h, j, org, device) ==> MayUse(h, org, device, phone)
  {
    hide OwningOrg, JoinedAt, MayUse, LatestRole, GrantedSinceJoin;
    forall org, j | JoinedAt(h, j, org, device)
      ensures OwningOrg(h, device) == Some(org)
    {
      OwningOrgMeans(h, org, device);
    }
    match OwningOrg(h, device) {
      case None =>
      case Some(org) =>
        OwningOrgMeans(h, org, device);
        MayUseMeans(h, org, device, phone);
        var j :| JoinedAt(h, j, org, device);
    }
  }

  // So a member without a grant since the device joined may not use it.
  lemma MemberNeedsGrant(h: History, j: nat, k: nat, org: OrgId, device: DeviceId, phone: PhoneId)
    requires JoinedAt(h, j, org, device) && RoleAt(h, k, org, phone, Member)
    requires forall i :: j < i < |h| ==> h[i] != Granted(org, device, phone)
    ensures !Authorized(h, device, phone)
  {
    OwningOrgMeans(h, org, device);
    LatestRoleMeans(h, org, phone, Member);
    GrantedMeans(h, org, device, phone);
    hide OwningOrg, LatestRole, GrantedSinceJoin;
    forall i
      ensures !GrantAt(h, i, org, device, phone)
    {
    }
  }

  lemma {:induction false} PlanMeans(h: History, org: OrgId)
    ensures PlanOf(h, org) == Active <==> exists k :: ActiveAt(h, k, org)
  {
    if h == [] {
    } else {
      var n := |h| - 1;
      PlanMeans(h[..n], org);
      if h[n].PlanSet? && h[n].org == org {
        assert ActiveAt(h, n, org) <==> h[n].plan == Active;
      } else {
        forall k
          ensures ActiveAt(h, k, org) <==> ActiveAt(h[..n], k, org)
        {
        }
      }
    }
  }
}
