/** Scope authorization: role and scope rows flattened into grants, and the verdict over those grants. */
module Authorization {
  import opened Common
  import opened OrganizationRepository

  datatype ScopeLevel = Platform | Tenant | BusinessUnit | Plant | Site | Department

  datatype UnitType = BusinessUnitType | PlantType | SiteType | DepartmentType

  datatype OrganizationUnit = OrganizationUnit(unitType: UnitType, parent: Option<Uuid>)

  type UnitTable = map<Uuid, OrganizationUnit>

  /** A user-role row with the role it joins to; `permissions` are the codes of the role's permissions. */
  datatype UserRole = UserRole(id: Uuid, roleCode: string, permissions: seq<string>, unit: Option<Uuid>)

  datatype Scope = Scope(level: ScopeLevel, unit: Option<Uuid>)

  datatype ScopeAssignment = ScopeAssignment(userRoleId: Uuid, scope: Scope)

  datatype User = User(tenant: Option<Uuid>, isPlatformUser: bool)

  datatype PermissionGrant = PermissionGrant(permissionCode: string, scope: Scope)

  datatype SecurityContext = SecurityContext(
    tenant: Option<Uuid>,
    isPlatformUser: bool,
    roleCodes: set<string>,
    grants: seq<PermissionGrant>)
  {
    /** The codes held at some scope. */
    function PermissionCodes(): (codes: set<string>)
      ensures forall c :: c in codes <==> exists g :: g in grants && g.permissionCode == c
    {
      set g | g in grants :: g.permissionCode
    }

    predicate HasPermission(code: string) {
      code in PermissionCodes()
    }

    function GrantsFor(code: string): (found: seq<PermissionGrant>)
      ensures forall g :: g in found <==> g in grants && g.permissionCode == code
    {
      WithCode(grants, code)
    }
  }

  function WithCode(grants: seq<PermissionGrant>, code: string): (found: seq<PermissionGrant>)
    ensures forall g :: g in found <==> g in grants && g.permissionCode == code
  {
    if grants == [] then []
    else (if grants[0].permissionCode == code then [grants[0]] else []) + WithCode(grants[1..], code)
  }

  function Parents(units: UnitTable): ParentTable {
    map id | id in units :: units[id].parent
  }

  function LevelOf(unitType: UnitType): ScopeLevel {
    match unitType
    case BusinessUnitType => BusinessUnit
    case PlantType => Plant
    case SiteType => Site
    case DepartmentType => Department
  }

  /* ---------- What the rows mean ---------- */

  predicate IsPlatform(user: User) {
    user.tenant == None && user.isPlatformUser
  }

  /** The user role has scope rows of its own. */
  ghost predicate HasExplicitScope(rows: seq<ScopeAssignment>, userRoleId: Uuid) {
    exists row :: row in rows && row.userRoleId == userRoleId
  }

  /** `scope` is one of the places where the user role applies. */
  ghost predicate Resolved(
    user: User, userRole: UserRole, rows: seq<ScopeAssignment>, units: UnitTable, scope: Scope)
  {
    if HasExplicitScope(rows, userRole.id) then
      ScopeAssignment(userRole.id, scope) in rows
    else if userRole.unit.Some? then
      scope == ImplicitScope(userRole.unit.value, units)
    else
      scope == DefaultScope(user)
  }

  function ImplicitScope(unit: Uuid, units: UnitTable): Scope {
    Scope(if unit in units then LevelOf(units[unit].unitType) else Department, Some(unit))
  }

  function DefaultScope(user: User): Scope {
    Scope(if IsPlatform(user) then Platform else Tenant, None)
  }

  /** Some user role carries the permission at this scope. */
  ghost predicate Granted(
    user: User, userRoles: seq<UserRole>, rows: seq<ScopeAssignment>, units: UnitTable, grant: PermissionGrant)
  {
    exists userRole ::
      && userRole in userRoles
      && grant.permissionCode in userRole.permissions
      && Resolved(user, userRole, rows, units, grant.scope)
  }

  /** A scope covers a resource: everywhere, or from one of the units the bounded walk visits. */
  predicate Covers(units: UnitTable, scope: Scope, resource: Option<Uuid>) {
    || scope.level == Platform
    || scope.level == Tenant
    || (&& resource.Some?
        && scope.unit.Some?
        && scope.unit.value in Visited(Parents(units), resource, MAX_DEPTH))
  }

  /** The user may exercise `code` on a resource of unit `resource`. */
  ghost predicate Access(
    user: User, userRoles: seq<UserRole>, rows: seq<ScopeAssignment>, units: UnitTable,
    code: string, resource: Option<Uuid>)
  {
    exists scope ::
      && Granted(user, userRoles, rows, units, PermissionGrant(code, scope))
      && Covers(units, scope, resource)
  }

  /* ---------- What the code does ---------- */

  /** The scopes resolved for one user role, from the dictionaries `build_security_context` prepared: exactly the
      places where the rows make the user role apply. */
  method ResolveScopes(
    user: User, userRole: UserRole, explicitScopes: map<Uuid, seq<Scope>>, unitTypeById: map<Uuid, UnitType>,
    ghost rows: seq<ScopeAssignment>, ghost units: UnitTable)
    returns (scopes: seq<Scope>)
    requires userRole.id in explicitScopes <==> HasExplicitScope(rows, userRole.id)
    requires userRole.id in explicitScopes ==>
               forall s :: s in explicitScopes[userRole.id] <==> ScopeAssignment(userRole.id, s) in rows
    requires userRole.unit.Some? && userRole.id !in explicitScopes ==>
               var unit := userRole.unit.value;
               && (unit in unitTypeById <==> unit in units)
               && (unit in unitTypeById ==> unitTypeById[unit] == units[unit].unitType)
    ensures forall s :: s in scopes <==> Resolved(user, userRole, rows, units, s)
  {
    if row :| row in rows && row.userRoleId == userRole.id {
      assert row == ScopeAssignment(userRole.id, row.scope);
      assert row.scope in explicitScopes[userRole.id];
    }
    if userRole.id in explicitScopes && explicitScopes[userRole.id] != [] {
      return explicitScopes[userRole.id];
    }
    if userRole.unit.Some? {
      var level := if userRole.unit.value in unitTypeById then LevelOf(unitTypeById[userRole.unit.value])
                   else Department;
      return [Scope(level, userRole.unit)];
    }
    return [Scope(if IsPlatform(user) then Platform else Tenant, None)];
  }

  /** The dictionary from user role to its scope rows, built by `setdefault(...).append(...)`. */
  method GroupScopes(rows: seq<ScopeAssignment>, userRoleIds: set<Uuid>)
    returns (explicitScopes: map<Uuid, seq<Scope>>)
    ensures forall id :: id in explicitScopes <==> id in userRoleIds && HasExplicitScope(rows, id)
    ensures forall id, s :: id in explicitScopes ==>
                              (s in explicitScopes[id] <==> ScopeAssignment(id, s) in rows)
  {
    explicitScopes := map[];
    for i := 0 to |rows|
      invariant forall id :: id in explicitScopes <==> id in userRoleIds && HasExplicitScope(rows[..i], id)
      invariant forall id, s :: id in explicitScopes ==>
                                  (s in explicitScopes[id] <==> ScopeAssignment(id, s) in rows[..i])
    {
      var row := rows[i];
      assert rows[..i + 1] == rows[..i] + [row];
      forall id
        ensures HasExplicitScope(rows[..i + 1], id) <==> HasExplicitScope(rows[..i], id) || id == row.userRoleId
      {
        assert row in rows[..i + 1];
        if r :| r in rows[..i] && r.userRoleId == id {
          assert r in rows[..i + 1];
        }
      }
      if row.userRoleId in userRoleIds {
        var soFar := if row.userRoleId in explicitScopes then explicitScopes[row.userRoleId] else [];
        assert row.userRoleId !in explicitScopes ==>
            forall s :: ScopeAssignment(row.userRoleId, s) !in rows[..i];
        explicitScopes := explicitScopes[row.userRoleId := soFar + [row.scope]];
      }
    }
    assert rows[..|rows|] == rows;
  }

  /** `build_security_context`: the grants are exactly what the rows mean. */
  method BuildSecurityContext(user: User, userRoles: seq<UserRole>, rows: seq<ScopeAssignment>, units: UnitTable)
    returns (context: SecurityContext)
    ensures context.tenant == user.tenant
    ensures context.isPlatformUser <==> user.tenant == None && user.isPlatformUser
    ensures forall c :: c in context.roleCodes <==> exists r :: r in userRoles && r.roleCode == c
    ensures forall g :: g in context.grants <==> Granted(user, userRoles, rows, units, g)
  {
    if userRoles == [] {
      return SecurityContext(user.tenant, IsPlatform(user), {}, []);
    }
    var userRoleIds := set r | r in userRoles :: r.id;
    var explicitScopes := GroupScopes(rows, userRoleIds);
    var implicitUnits := set r | r in userRoles && r.unit.Some? && r.id !in explicitScopes :: r.unit.value;
    var unitTypeById := map id | id in units && id in implicitUnits :: units[id].unitType;

    var roleCodes: set<string> := {};
    var grants: seq<PermissionGrant> := [];
    for i := 0 to |userRoles|
      invariant forall c :: c in roleCodes <==> exists r :: r in userRoles[..i] && r.roleCode == c
      invariant forall g :: g in grants <==> Granted(user, userRoles[..i], rows, units, g)
    {
      var userRole := userRoles[i];
      assert userRoles[..i + 1] == userRoles[..i] + [userRole];
      assert userRole.id in userRoleIds;
      assert userRole.unit.Some? && userRole.id !in explicitScopes ==> userRole.unit.value in implicitUnits;
      roleCodes := roleCodes + {userRole.roleCode};
      var scopes := ResolveScopes(user, userRole, explicitScopes, unitTypeById, rows, units);
      var added := AppendGrants(userRole.permissions, scopes);
      GrantedSnoc(user, userRoles[..i], userRole, rows, units);
      grants := grants + added;
    }
    assert userRoles[..|userRoles|] == userRoles;
    context := SecurityContext(user.tenant, IsPlatform(user), roleCodes, grants);
  }

  /** The two inner loops: one grant per permission code and scope. */
  method AppendGrants(codes: seq<string>, scopes: seq<Scope>) returns (grants: seq<PermissionGrant>)
    ensures |grants| == |codes| * |scopes|
    ensures forall g :: g in grants <==> g.permissionCode in codes && g.scope in scopes
  {
    grants := [];
    for i := 0 to |codes|
      invariant |grants| == i * |scopes|
      invariant forall g :: g in grants <==> g.permissionCode in codes[..i] && g.scope in scopes
    {
      assert codes[..i + 1] == codes[..i] + [codes[i]];
      var before := grants;
      for j := 0 to |scopes|
        invariant |grants| == i * |scopes| + j
        invariant forall g :: g in grants <==>
                                g in before || (g.permissionCode == codes[i] && g.scope in scopes[..j])
      {
        assert scopes[..j + 1] == scopes[..j] + [scopes[j]];
        grants := grants + [PermissionGrant(codes[i], scopes[j])];
      }
      assert scopes[..|scopes|] == scopes;
    }
    assert codes[..|codes|] == codes;
  }

  lemma GrantedSnoc(
    user: User, userRoles: seq<UserRole>, last: UserRole, rows: seq<ScopeAssignment>, units: UnitTable)
    ensures forall g ::
              Granted(user, userRoles + [last], rows, units, g) <==>
              || Granted(user, userRoles, rows, units, g)
              || (g.permissionCode in last.permissions && Resolved(user, last, rows, units, g.scope))
  {
    forall g
      ensures Granted(user, userRoles + [last], rows, units, g) <==>
              || Granted(user, userRoles, rows, units, g)
              || (g.permissionCode in last.permissions && Resolved(user, last, rows, units, g.scope))
    {
      assert last in userRoles + [last];
      if Granted(user, userRoles, rows, units, g) {
        var r :| r in userRoles && g.permissionCode in r.permissions && Resolved(user, r, rows, units, g.scope);
        assert r in userRoles + [last];
      }
    }
  }

  /** The coarse check passes exactly when the fine one has a grant to look at, so it never refuses what a scope
      allows. */
  lemma HasPermissionIff(context: SecurityContext, code: string)
    ensures context.HasPermission(code) <==> context.GrantsFor(code) != []
  {
    if g :| g in context.grants && g.permissionCode == code {
      assert g in context.GrantsFor(code);
    }
    if context.GrantsFor(code) != [] {
      assert context.GrantsFor(code)[0] in context.GrantsFor(code);
    }
  }

  /** `is_authorized`: early exits, and an ancestor set fetched at most once, change nothing about the verdict. */
  method IsAuthorized(units: UnitTable, context: SecurityContext, code: string, resource: Option<Uuid>)
    returns (ok: bool)
    ensures ok <==> exists g :: g in context.grants && g.permissionCode == code && Covers(units, g.scope, resource)
  {
    var grants := context.GrantsFor(code);
    if grants == [] {
      return false;
    }
    ok := SomeCovers(units, grants, resource);
  }

  /** The verdict loop over the grants of one code. */
  method SomeCovers(units: UnitTable, grants: seq<PermissionGrant>, resource: Option<Uuid>) returns (ok: bool)
    ensures ok <==> exists g :: g in grants && Covers(units, g.scope, resource)
  {
    var ancestors: Option<set<Uuid>> := None;
    for i := 0 to |grants|
      invariant forall g :: g in grants[..i] ==> !Covers(units, g.scope, resource)
      invariant ancestors.Some? ==> ancestors.value == Visited(Parents(units), resource, MAX_DEPTH)
    {
      var scope := grants[i].scope;
      assert grants[..i + 1] == grants[..i] + [grants[i]];
      assert grants[i] in grants;
      if scope.level == Platform {
        return true;
      }
      if scope.level == Tenant {
        return true;
      }
      if resource == None {
        continue;
      }
      if scope.unit == resource {
        CoversItself(units, scope);
        return true;
      }
      if ancestors == None {
        var ids := GetSelfAndAncestorIds(Parents(units), resource);
        ancestors := Some(ids);
      }
      if scope.unit.Some? && scope.unit.value in ancestors.value {
        return true;
      }
    }
    assert grants[..|grants|] == grants;
    return false;
  }

  lemma CoversItself(units: UnitTable, scope: Scope)
    requires scope.unit.Some?
    ensures Covers(units, scope, scope.unit)
  {
    assert Iterate(Parents(units), scope.unit, 0) == scope.unit;
  }

  /** `authorize` over a freshly built context, as every route composes the two. */
  method Authorize(
    user: User, userRoles: seq<UserRole>, rows: seq<ScopeAssignment>, units: UnitTable,
    code: string, resource: Option<Uuid>)
    returns (ok: bool)
    ensures ok <==> Access(user, userRoles, rows, units, code, resource)
  {
    var context := BuildSecurityContext(user, userRoles, rows, units);
    ok := IsAuthorized(units, context, code, resource);
    if ok {
      var g :| g in context.grants && g.permissionCode == code && Covers(units, g.scope, resource);
      assert Granted(user, userRoles, rows, units, PermissionGrant(code, g.scope));
    } else {
      forall scope | Granted(user, userRoles, rows, units, PermissionGrant(code, scope))
        ensures !Covers(units, scope, resource)
      {
        assert PermissionGrant(code, scope) in context.grants;
      }
    }
  }

  /* ---------- Properties of access ---------- */

  /** Access depends on which rows exist, not on the order or number of times a query returns them; and more user
      roles never remove access. */
  lemma MoreRolesKeepAccess(
    user: User, fewer: seq<UserRole>, more: seq<UserRole>, rows: seq<ScopeAssignment>, rows': seq<ScopeAssignment>,
    units: UnitTable, code: string, resource: Option<Uuid>)
    requires forall r :: r in fewer ==> r in more
    requires forall row :: row in rows <==> row in rows'
    ensures Access(user, fewer, rows, units, code, resource) ==> Access(user, more, rows', units, code, resource)
  {
    if Access(user, fewer, rows, units, code, resource) {
      var scope :|
        && Granted(user, fewer, rows, units, PermissionGrant(code, scope))
        && Covers(units, scope, resource);
      var r :| r in fewer && code in r.permissions && Resolved(user, r, rows, units, scope);
      assert HasExplicitScope(rows, r.id) <==> HasExplicitScope(rows', r.id);
      assert r in more && Resolved(user, r, rows', units, scope);
      assert Granted(user, more, rows', units, PermissionGrant(code, scope));
    }
  }

  lemma RowOrderIsIrrelevant(
    user: User, userRoles: seq<UserRole>, userRoles': seq<UserRole>,
    rows: seq<ScopeAssignment>, rows': seq<ScopeAssignment>,
    units: UnitTable, code: string, resource: Option<Uuid>)
    requires multiset(userRoles) == multiset(userRoles') && multiset(rows) == multiset(rows')
    ensures Access(user, userRoles, rows, units, code, resource) <==>
            Access(user, userRoles', rows', units, code, resource)
  {
    forall r
      ensures r in userRoles <==> r in userRoles'
    {
      assert r in multiset(userRoles) <==> r in multiset(userRoles');
    }
    forall row
      ensures row in rows <==> row in rows'
    {
      assert row in multiset(rows) <==> row in multiset(rows');
    }
    MoreRolesKeepAccess(user, userRoles, userRoles', rows, rows', units, code, resource);
    MoreRolesKeepAccess(user, userRoles', userRoles, rows', rows, units, code, resource);
  }

  /* ---------- What one user role is worth ---------- */

  function TypeName(unitType: UnitType): string {
    match unitType
    case BusinessUnitType => "BUSINESS_UNIT"
    case PlantType => "PLANT"
    case SiteType => "SITE"
    case DepartmentType => "DEPARTMENT"
  }

  function LevelName(level: ScopeLevel): string {
    match level
    case Platform => "PLATFORM"
    case Tenant => "TENANT"
    case BusinessUnit => "BUSINESS_UNIT"
    case Plant => "PLANT"
    case Site => "SITE"
    case Department => "DEPARTMENT"
  }

  /** The one grant of a role attached to a unit, for each of its codes: on that unit, at the level that bears the name
      of the unit's type, or department if the unit has no row. */
  lemma UnitRoleGrants(
    user: User, userRole: UserRole, rows: seq<ScopeAssignment>, units: UnitTable, grant: PermissionGrant)
    requires userRole.unit.Some? && forall row :: row in rows ==> row.userRoleId != userRole.id
    ensures var unit := userRole.unit.value;
            Granted(user, [userRole], rows, units, grant) <==>
            && grant.permissionCode in userRole.permissions
            && grant.scope.unit == Some(unit)
            && LevelName(grant.scope.level) == (if unit in units then TypeName(units[unit].unitType) else "DEPARTMENT")
  {
    assert userRole in [userRole];
    assert !HasExplicitScope(rows, userRole.id);
  }

  /** A role attached to a unit reaches a resource exactly from the units the bounded walk visits, whatever the unit's
      type, and never a resource without a unit. */
  lemma UnitRoleAccessIff(
    user: User, userRole: UserRole, rows: seq<ScopeAssignment>, units: UnitTable, code: string, resource: Uuid)
    requires userRole.unit.Some? && forall row :: row in rows ==> row.userRoleId != userRole.id
    ensures Access(user, [userRole], rows, units, code, Some(resource)) <==>
            && code in userRole.permissions
            && userRole.unit.value in Visited(Parents(units), Some(resource), 10)
    ensures !Access(user, [userRole], rows, units, code, None)
  {
    forall scope
      ensures Granted(user, [userRole], rows, units, PermissionGrant(code, scope)) ==>
              code in userRole.permissions && scope.unit == userRole.unit && scope.level != Platform &&
              scope.level != Tenant
    {
      UnitRoleGrants(user, userRole, rows, units, PermissionGrant(code, scope));
    }
    var scope := ImplicitScope(userRole.unit.value, units);
    UnitRoleGrants(user, userRole, rows, units, PermissionGrant(code, scope));
    if code in userRole.permissions && userRole.unit.value in Visited(Parents(units), Some(resource), 10) {
      assert Covers(units, scope, Some(resource));
    }
  }

  /** In closure terms: up to ten units from the resource to its root, exactly the resource and its ancestors count. */
  lemma UnitRoleReachesDescendantsIff(
    user: User, userRole: UserRole, rows: seq<ScopeAssignment>, units: UnitTable, code: string, resource: Uuid)
    requires userRole.unit.Some? && forall row :: row in rows ==> row.userRoleId != userRole.id
    requires |Closure(Parents(units), resource)| <= 10
    ensures Access(user, [userRole], rows, units, code, Some(resource)) <==>
            code in userRole.permissions && userRole.unit.value in Closure(Parents(units), resource)
    ensures resource in units && units[resource].parent == userRole.unit && code in userRole.permissions ==>
              Access(user, [userRole], rows, units, code, Some(resource))
  {
    UnitRoleAccessIff(user, userRole, rows, units, code, resource);
    WalkIsClosureIff(Parents(units), resource, 10);
    ClosureIsClosure(Parents(units), resource);
    assert resource in units ==> Parents(units)[resource] == units[resource].parent;
  }

  /** A role without a unit reaches everything; its level is platform for a platform user and tenant for all others. */
  lemma UnitlessRoleAccess(
    user: User, userRole: UserRole, rows: seq<ScopeAssignment>, units: UnitTable, code: string, resource: Option<Uuid>)
    requires userRole.unit == None && forall row :: row in rows ==> row.userRoleId != userRole.id
    ensures Access(user, [userRole], rows, units, code, resource) <==> code in userRole.permissions
    ensures forall scope ::
              Granted(user, [userRole], rows, units, PermissionGrant(code, scope)) <==>
              && code in userRole.permissions
              && scope == Scope(if user.tenant == None && user.isPlatformUser then Platform else Tenant, None)
  {
    assert userRole in [userRole] && !HasExplicitScope(rows, userRole.id);
    if code in userRole.permissions {
      assert Granted(user, [userRole], rows, units, PermissionGrant(code, DefaultScope(user)));
      assert Covers(units, DefaultScope(user), resource);
    }
  }

  /** A role with scope rows applies at those rows and nowhere else, its own unit included. */
  lemma ExplicitRoleAccessIff(
    user: User, userRole: UserRole, rows: seq<ScopeAssignment>, units: UnitTable, code: string, resource: Option<Uuid>)
    requires exists row :: row in rows && row.userRoleId == userRole.id
    ensures Access(user, [userRole], rows, units, code, resource) <==>
            && code in userRole.permissions
            && exists row ::
                 && row in rows && row.userRoleId == userRole.id
                 && (|| row.scope.level == Platform || row.scope.level == Tenant
                     || (&& resource.Some? && row.scope.unit.Some?
                         && row.scope.unit.value in Visited(Parents(units), resource, 10)))
  {
    assert userRole in [userRole] && HasExplicitScope(rows, userRole.id);
    if code in userRole.permissions {
      if row :|
        && row in rows && row.userRoleId == userRole.id
        && (|| row.scope.level == Platform || row.scope.level == Tenant
            || (&& resource.Some? && row.scope.unit.Some?
                && row.scope.unit.value in Visited(Parents(units), resource, 10)))
      {
        assert row == ScopeAssignment(userRole.id, row.scope);
        assert Granted(user, [userRole], rows, units, PermissionGrant(code, row.scope));
        assert Covers(units, row.scope, resource);
      }
    }
    if Access(user, [userRole], rows, units, code, resource) {
      var scope :|
        && Granted(user, [userRole], rows, units, PermissionGrant(code, scope))
        && Covers(units, scope, resource);
      assert ScopeAssignment(userRole.id, scope) in rows;
    }
  }

  /** Access with several user roles is access with one of them. */
  lemma AccessIsByOneRole(
    user: User, userRoles: seq<UserRole>, rows: seq<ScopeAssignment>, units: UnitTable,
    code: string, resource: Option<Uuid>)
    ensures Access(user, userRoles, rows, units, code, resource) <==>
            exists r :: r in userRoles && Access(user, [r], rows, units, code, resource)
  {
    if Access(user, userRoles, rows, units, code, resource) {
      var scope :|
        && Granted(user, userRoles, rows, units, PermissionGrant(code, scope))
        && Covers(units, scope, resource);
      var r :| r in userRoles && code in r.permissions && Resolved(user, r, rows, units, scope);
      assert r in [r];
      assert Granted(user, [r], rows, units, PermissionGrant(code, scope));
      assert Access(user, [r], rows, units, code, resource);
    }
    if r :| r in userRoles && Access(user, [r], rows, units, code, resource) {
      MoreRolesKeepAccess(user, [r], userRoles, rows, rows, units, code, resource);
    }
  }

  /** For one resource unit, a grant on a unit covers it precisely when that unit is the resource or an ancestor of
      it -- for every granted unit -- if and only if the resource has at most ten such units. */
  lemma NodeScopesCoverDescendantsIff(units: UnitTable, level: ScopeLevel, resource: Uuid)
    requires level != Platform && level != Tenant
    ensures
      (forall a: Uuid :: Covers(units, Scope(level, Some(a)), Some(resource)) <==>
                         a in Closure(Parents(units), resource))
      <==> |Closure(Parents(units), resource)| <= 10
  {
    WalkIsClosureIff(Parents(units), resource, MAX_DEPTH);
    var walk := Visited(Parents(units), Some(resource), MAX_DEPTH);
    var closure := Closure(Parents(units), resource);
    forall a: Uuid
      ensures Covers(units, Scope(level, Some(a)), Some(resource)) <==> a in walk
    {
    }
    if forall a: Uuid :: Covers(units, Scope(level, Some(a)), Some(resource)) <==> a in closure {
      forall a: Uuid
        ensures a in walk <==> a in closure
      {
        assert Covers(units, Scope(level, Some(a)), Some(resource)) <==> a in walk;
      }
      assert walk == closure;
    }
  }

  /** Access to a unit extends to every unit beneath it whose own ancestor closure stays within the bound. */
  lemma AccessReachesDescendants(
    user: User, userRoles: seq<UserRole>, rows: seq<ScopeAssignment>, units: UnitTable,
    code: string, ancestor: Uuid, descendant: Uuid)
    requires Access(user, userRoles, rows, units, code, Some(ancestor))
    requires ancestor in Closure(Parents(units), descendant)
    requires |Closure(Parents(units), descendant)| <= 10
    ensures Access(user, userRoles, rows, units, code, Some(descendant))
  {
    WalkIsClosureIff(Parents(units), ancestor, MAX_DEPTH);
    WalkIsClosureIff(Parents(units), descendant, MAX_DEPTH);
    ClosureOfAncestor(Parents(units), descendant, ancestor);
    var scope :|
      && Granted(user, userRoles, rows, units, PermissionGrant(code, scope))
      && Covers(units, scope, Some(ancestor));
    assert Covers(units, scope, Some(descendant));
  }

  /** A scope row can take access away: the first one replaces the implicit scope of its user role. Adding `row`
      keeps every access of every user if and only if its user role already had a scope row or the new scope is
      platform- or tenant-wide. */
  lemma AddingScopeKeepsAccessIff(rows: seq<ScopeAssignment>, row: ScopeAssignment)
    ensures
      (forall user, userRoles, units, code, resource ::
         Access(user, userRoles, rows, units, code, resource) ==>
         Access(user, userRoles, rows + [row], units, code, resource))
      <==>
      (HasExplicitScope(rows, row.userRoleId) || row.scope.level == Platform || row.scope.level == Tenant)
  {
    if HasExplicitScope(rows, row.userRoleId) || row.scope.level == Platform || row.scope.level == Tenant {
      forall user, userRoles, units, code, resource | Access(user, userRoles, rows, units, code, resource)
        ensures Access(user, userRoles, rows + [row], units, code, resource)
      {
        AddingScopeKeepsAccess(rows, row, user, userRoles, units, code, resource);
      }
    } else {
      var user := User(Some(0), false);
      var userRole := UserRole(row.userRoleId, "R", ["p"], None);
      assert Resolved(user, userRole, rows, map[], Scope(Tenant, None));
      assert userRole in [userRole] && "p" in userRole.permissions;
      assert Granted(user, [userRole], rows, map[], PermissionGrant("p", Scope(Tenant, None)));
      assert Access(user, [userRole], rows, map[], "p", None);
      assert row in rows + [row];
      assert HasExplicitScope(rows + [row], userRole.id);
      forall scope | Granted(user, [userRole], rows + [row], map[], PermissionGrant("p", scope))
        ensures !Covers(map[], scope, None)
      {
        assert ScopeAssignment(userRole.id, scope) in rows + [row];
        assert ScopeAssignment(userRole.id, scope) !in rows;
      }
      assert !Access(user, [userRole], rows + [row], map[], "p", None);
    }
  }

  lemma AddingScopeKeepsAccess(
    rows: seq<ScopeAssignment>, row: ScopeAssignment,
    user: User, userRoles: seq<UserRole>, units: UnitTable, code: string, resource: Option<Uuid>)
    requires HasExplicitScope(rows, row.userRoleId) || row.scope.level == Platform || row.scope.level == Tenant
    requires Access(user, userRoles, rows, units, code, resource)
    ensures Access(user, userRoles, rows + [row], units, code, resource)
  {
    var rows' := rows + [row];
    var scope :|
      && Granted(user, userRoles, rows, units, PermissionGrant(code, scope))
      && Covers(units, scope, resource);
    var r :| r in userRoles && code in r.permissions && Resolved(user, r, rows, units, scope);
    assert row in rows';
    forall x | x in rows
      ensures x in rows'
    {
    }
    if HasExplicitScope(rows, r.id) {
      var x :| x in rows && x.userRoleId == r.id;
      assert HasExplicitScope(rows', r.id);
      assert Resolved(user, r, rows', units, scope);
      assert Granted(user, userRoles, rows', units, PermissionGrant(code, scope));
    } else if r.id == row.userRoleId {
      assert HasExplicitScope(rows', r.id);
      assert Resolved(user, r, rows', units, row.scope);
      assert Granted(user, userRoles, rows', units, PermissionGrant(code, row.scope));
      assert Covers(units, row.scope, resource);
    } else {
      assert !HasExplicitScope(rows', r.id);
      assert Resolved(user, r, rows', units, scope);
      assert Granted(user, userRoles, rows', units, PermissionGrant(code, scope));
    }
  }
}
