/** Permission resolution: the yes-or-no query and the set of codes, which must agree. */
module Permissions {
  import opened Common

  datatype Effect = Allow | Deny

  /** One role assignment; a user has at most one for a role, so assignments are kept under their role. */
  datatype Assignment = Assignment(validFrom: Time, validUntil: Option<Time>)

  /** What is stored about permissions, and about one user: `gate` is whether the user is authenticated and can
      authenticate now. There is at most one override for a user and permission. */
  datatype Grants = Grants(
    table: set<string>,
    rolePermissions: map<string, set<string>>,
    gate: bool,
    superuser: bool,
    assignments: map<string, Assignment>,
    overrides: map<string, Effect>)

  /** Foreign keys: assigned roles exist; overrides and role links name rows of the permission table. */
  predicate Linked(g: Grants) {
    && (forall r :: r in g.assignments ==> r in g.rolePermissions)
    && (forall r :: r in g.rolePermissions ==> g.rolePermissions[r] <= g.table)
    && g.overrides.Keys <= g.table
  }

  predicate IsValid(a: Assignment, now: Time) {
    a.validFrom <= now && (a.validUntil.None? || a.validUntil.value > now)
  }

  predicate ActiveRole(g: Grants, role: string, now: Time) {
    role in g.assignments && role in g.rolePermissions && IsValid(g.assignments[role], now)
  }

  predicate HasPermission(g: Grants, code: string, now: Time) {
    if !g.gate then false
    else if code in g.overrides && g.overrides[code].Deny? then false
    else if code in g.overrides && g.overrides[code].Allow? then true
    else if g.superuser then true
    else exists role :: role in g.assignments && ActiveRole(g, role, now) && code in g.rolePermissions[role]
  }

  /** The left join of an assignment with its role's permissions: one null where there is none. */
  function JoinedCodes(g: Grants, role: string): set<Option<string>>
    requires role in g.rolePermissions
  {
    if g.rolePermissions[role] == {} then {None} else set code | code in g.rolePermissions[role] :: Some(code)
  }

  /** What the query over the active assignments returns, as a set. */
  function RoleCodes(g: Grants, now: Time): set<Option<string>> {
    set role, member | role in g.assignments && ActiveRole(g, role, now) && member in JoinedCodes(g, role) :: member
  }

  function Overridden(g: Grants, effect: Effect): set<Option<string>> {
    set code | code in g.overrides && g.overrides[code] == effect :: Some(code)
  }

  lemma RoleCodesAreOwnOrNull(g: Grants, now: Time)
    requires Linked(g)
    ensures forall code :: Some(code) in RoleCodes(g, now) <==>
              exists role :: role in g.assignments && ActiveRole(g, role, now) && code in g.rolePermissions[role]
    ensures None in RoleCodes(g, now) <==>
              exists role :: role in g.assignments && ActiveRole(g, role, now) && g.rolePermissions[role] == {}
    ensures forall code :: Some(code) in RoleCodes(g, now) ==> code in g.table
  {
    forall code
      ensures Some(code) in RoleCodes(g, now) <==>
                exists role :: role in g.assignments && ActiveRole(g, role, now) && code in g.rolePermissions[role]
    {
      if role :| role in g.assignments && ActiveRole(g, role, now) && code in g.rolePermissions[role] {
        assert Some(code) in JoinedCodes(g, role);
      }
    }
    if role :| role in g.assignments && ActiveRole(g, role, now) && g.rolePermissions[role] == {} {
      assert None in JoinedCodes(g, role);
    }
  }

  /** The set that `PermissionService` builds up; members are codes, or the null of the join. */
  method PermissionCodes(g: Grants, now: Time) returns (codes: set<Option<string>>)
    requires Linked(g)
    ensures forall code :: code in g.table ==> (Some(code) in codes <==> HasPermission(g, code, now))
    ensures forall code :: code !in g.table ==> Some(code) !in codes
    ensures None in codes <==>
              g.gate && !g.superuser
              && exists role :: role in g.assignments && ActiveRole(g, role, now) && g.rolePermissions[role] == {}
  {
    codes := {};
    if !g.gate {
      return;
    }
    codes := RoleCodes(g, now);
    RoleCodesAreOwnOrNull(g, now);
    if g.superuser {
      codes := set code | code in g.table :: Some(code);
    }
    codes := codes + Overridden(g, Allow);
    codes := codes - Overridden(g, Deny);
  }

  /** Outside the permission table the query says yes exactly to superusers that pass the gate; the set never
      holds such a code, so there the two forms differ for superusers only. */
  lemma OutsideTheTable(g: Grants, code: string, now: Time)
    requires Linked(g) && code !in g.table
    ensures HasPermission(g, code, now) <==> g.gate && g.superuser
  {
    assert code !in g.overrides;
    forall role | role in g.assignments
      ensures code !in g.rolePermissions[role]
    {
      assert g.rolePermissions[role] <= g.table;
    }
  }

  /** Whoever fails the gate has no permission. Past it, an override decides alone, against roles and even
      against superusers; where there is none, superusers have the permission, and the others have it exactly
      through a role whose assignment has begun and not ended. */
  lemma PermissionIsDecidedBy(g: Grants, code: string, now: Time)
    requires Linked(g)
    ensures !g.gate ==> !HasPermission(g, code, now)
    ensures g.gate && code in g.overrides ==> (HasPermission(g, code, now) <==> g.overrides[code] == Allow)
    ensures g.gate && code !in g.overrides && g.superuser ==> HasPermission(g, code, now)
    ensures g.gate && code !in g.overrides && !g.superuser ==>
              (HasPermission(g, code, now) <==>
                 exists role :: role in g.assignments && g.assignments[role].validFrom <= now
                                && (g.assignments[role].validUntil.None? || now < g.assignments[role].validUntil.value)
                                && code in g.rolePermissions[role])
  {
  }

  /** An assignment that has ended or has not begun grants nothing: without it, the answers are the same. */
  lemma IdleAssignmentGrantsNothing(g: Grants, role: string, code: string, now: Time)
    requires Linked(g) && role in g.assignments
    requires var a := g.assignments[role]; now < a.validFrom || (a.validUntil.Some? && a.validUntil.value <= now)
    ensures HasPermission(g, code, now) <==> HasPermission(g.(assignments := g.assignments - {role}), code, now)
  {
    var without := g.(assignments := g.assignments - {role});
    if HasPermission(g, code, now) && g.gate && code !in g.overrides && !g.superuser {
      var r :| r in g.assignments && ActiveRole(g, r, now) && code in g.rolePermissions[r];
      assert ActiveRole(without, r, now);
    }
  }
}
