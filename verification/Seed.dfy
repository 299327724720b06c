/**
 The seed script: nested find-or-create loops over a catalogue. Rows are keyed by their natural keys, whose uniqueness
 is the hypothesis the script itself rests on.
 */
module Seed {
  import opened Common
  import Rendering

  datatype Tenant = Tenant(code: string, slug: string)

  datatype FiscalYear = FiscalYear(tenant: string, code: string, active: bool)

  /** `secret` stands for the salted password hash, which a second run would not reproduce. */
  datatype User = User(tenant: Option<string>, isPlatformUser: bool, secret: nat)

  datatype Unit = Unit(category: string, name: string)

  datatype Database = Database(
    permissions: map<string, string>,           // code to description
    roles: map<string, string>,                 // code of a platform role to name
    rolePermissions: set<(string, string)>,     // role code, permission code
    users: map<string, User>,                   // by lower-case email
    userRoles: set<(string, string)>,           // email, role code
    tenants: seq<Tenant>,
    fiscalYears: seq<FiscalYear>,
    categories: map<string, string>,
    units: map<string, Unit>,
    conversions: map<(string, string), real>)

  datatype RoleSpec = RoleSpec(code: string, name: string, permissions: seq<string>)

  datatype CategorySpec = CategorySpec(
    code: string, name: string, units: seq<(string, string)>, conversions: seq<((string, string), real)>)

  /** PERMISSIONS, SYSTEM_ROLES, the super admin, DEMO_TENANT, DEMO_USERS (email, role code) and UNITS. */
  datatype Catalogue = Catalogue(
    permissions: seq<(string, string)>,
    roles: seq<RoleSpec>,
    superAdminEmail: string,
    superAdminRole: string,
    tenant: Tenant,
    demoUsers: seq<(string, string)>,
    categories: seq<CategorySpec>)

  type Year = y: int | y >= 1 witness 2026

  /** What the environment supplies to one run: today's year and month, and password hashes. */
  datatype Environment = Environment(year: Year, month: nat, secret: nat) {
    function FiscalYearCode(): string {
      CodeOf(StartYear(year, month))
    }
  }

  /** Fiscal years run from April to March. */
  function StartYear(year: Year, month: nat): nat {
    if month >= 4 then year else year - 1
  }

  /** The start year and the last two digits of the next, as in "2026-27". */
  function CodeOf(start: nat): string {
    Rendering.Decimal(start) + "-" + LastTwo(Rendering.Decimal(start + 1))
  }

  function LastTwo(s: string): string {
    if |s| <= 2 then s else s[|s| - 2..]
  }

  /** A code names one fiscal year: two days get the same code exactly when the months counted from an April are in
      the same dozen. */
  lemma CodeNamesTheYear(a: Environment, b: Environment)
    requires 1 <= a.month <= 12 && 1 <= b.month <= 12
    ensures a.FiscalYearCode() == b.FiscalYearCode() <==>
            (12 * a.year + a.month - 4) / 12 == (12 * b.year + b.month - 4) / 12
  {
    StartYearIsTheDozen(a.year, a.month);
    StartYearIsTheDozen(b.year, b.month);
    if a.FiscalYearCode() == b.FiscalYearCode() {
      CodeIsInjective(StartYear(a.year, a.month), StartYear(b.year, b.month));
    }
  }

  lemma StartYearIsTheDozen(year: Year, month: nat)
    requires 1 <= month <= 12
    ensures StartYear(year, month) == (12 * year + month - 4) / 12
  {
  }

  lemma CodeIsInjective(start: nat, start': nat)
    requires CodeOf(start) == CodeOf(start')
    ensures start == start'
  {
    CodeSplits(start);
    CodeSplits(start');
  }

  lemma CodeSplits(start: nat)
    ensures var h := Rendering.LastHyphen(CodeOf(start));
            h >= 0 && Rendering.Digits(CodeOf(start)[..h]) && Rendering.Parse(CodeOf(start)[..h]) == start
  {
    Rendering.ParseDecimal(start);
    Rendering.ParseDecimal(start + 1);
    HyphenAfter(Rendering.Decimal(start), LastTwo(Rendering.Decimal(start + 1)));
  }

  /** A code reads as the start year, a hyphen, and the next year modulo a hundred in two digits. */
  lemma CodeReads(start: nat)
    requires start >= 9
    ensures var s := CodeOf(start);
            var h := Rendering.LastHyphen(s);
            && h >= 0 && |s| == h + 3
            && Rendering.Digits(s[..h]) && Rendering.Parse(s[..h]) == start
            && Rendering.Digits(s[h + 1..]) && Rendering.Parse(s[h + 1..]) == (start + 1) % 100
  {
    CodeSplits(start);
    LastTwoDigits(start + 1);
    var head, tail := Rendering.Decimal(start), LastTwo(Rendering.Decimal(start + 1));
    HyphenAfter(head, tail);
    assert (head + "-" + tail)[|head| + 1..] == tail;
  }

  lemma LastTwoDigits(n: nat)
    requires n >= 10
    ensures var s := LastTwo(Rendering.Decimal(n));
            |s| == 2 && Rendering.Digits(s) && Rendering.Parse(s) == n % 100
  {
    LastTwoChars(n);
    ParsePair(n / 10 % 10, n % 10);
    Hundreds(n);
  }

  lemma Hundreds(n: nat)
    ensures n % 100 == 10 * (n / 10 % 10) + n % 10
  {
  }

  lemma LastChar(n: nat)
    ensures Rendering.Decimal(n) != []
    ensures Rendering.Decimal(n)[|Rendering.Decimal(n)| - 1] == Rendering.Digit(n % 10)
  {
  }

  lemma LastTwoChars(n: nat)
    requires n >= 10
    ensures LastTwo(Rendering.Decimal(n)) == [Rendering.Digit(n / 10 % 10), Rendering.Digit(n % 10)]
  {
    LastChar(n / 10);
    var head := Rendering.Decimal(n / 10);
    assert Rendering.Decimal(n) == head + [Rendering.Digit(n % 10)];
    assert LastTwo(head + [Rendering.Digit(n % 10)]) == [head[|head| - 1], Rendering.Digit(n % 10)];
  }

  lemma ParsePair(tens: nat, ones: nat)
    requires tens < 10 && ones < 10
    ensures var s := [Rendering.Digit(tens), Rendering.Digit(ones)];
            Rendering.Digits(s) && Rendering.Parse(s) == 10 * tens + ones
  {
    var s := [Rendering.Digit(tens), Rendering.Digit(ones)];
    assert s[..1] == [Rendering.Digit(tens)] && s[..1][..0] == [];
    assert Rendering.Parse(s[..1]) == tens;
  }

  lemma HyphenAfter(head: string, tail: string)
    requires forall i :: 0 <= i < |tail| ==> tail[i] != '-'
    ensures var s := head + "-" + tail;
            Rendering.LastHyphen(s) == |head| && s[..|head|] == head
  {
    var s := head + "-" + tail;
    assert s[|head|] == '-';
    forall j | |head| < j < |s|
      ensures s[j] != '-'
    {
      assert s[j] == tail[j - |head| - 1];
    }
  }

  datatype SeedError = MultipleResultsFound | IntegrityError

  /** The role lists no permission twice, and only existing ones. */
  ghost predicate IsRole(role: RoleSpec, byCode: set<string>) {
    && (forall i, j :: 0 <= i < j < |role.permissions| ==> role.permissions[i] != role.permissions[j])
    && (forall p :: p in role.permissions ==> p in byCode)
  }

  /** What the script's constants satisfy: dictionary keys are unique, a role lists no permission twice, every code a
      role, a demo user or a conversion mentions exists, and no conversion is listed twice. */
  ghost predicate WellFormed(c: Catalogue) {
    && (forall i, j :: 0 <= i < j < |c.roles| ==> c.roles[i].code != c.roles[j].code)
    && (forall r :: r in c.roles ==> IsRole(r, KeysOf(c.permissions)))
    && c.superAdminRole in RoleCodes(c)
    && (forall u :: u in c.demoUsers ==> u.1 in RoleCodes(c))
    && (forall k :: k in c.categories ==>
          && (forall i, j :: 0 <= i < j < |k.conversions| ==> k.conversions[i].0 != k.conversions[j].0)
          && (forall v :: v in k.conversions ==> v.0.0 in KeysOf(k.units) && v.0.1 in KeysOf(k.units)))
  }

  function KeysOf<K(==), V(==)>(entries: seq<(K, V)>): set<K> {
    set e | e in entries :: e.0
  }

  function RoleCodes(c: Catalogue): set<string> {
    set r | r in c.roles :: r.code
  }

  /* ---------- Find or create ---------- */

  /** Each entry in turn, if its key has no row yet. */
  function AddMissing<K(==), V(==)>(table: map<K, V>, entries: seq<(K, V)>): map<K, V> {
    if entries == [] then table
    else
      var before := AddMissing(table, entries[..|entries| - 1]);
      var last := entries[|entries| - 1];
      if last.0 in before then before else before[last.0 := last.1]
  }

  lemma {:induction false} AddMissingAdds<K, V>(table: map<K, V>, entries: seq<(K, V)>)
    ensures AddMissing(table, entries).Keys == table.Keys + KeysOf(entries)
    ensures forall k :: k in table ==> AddMissing(table, entries)[k] == table[k]
  {
    if entries == [] {
    } else {
      var n := |entries| - 1;
      AddMissingAdds(table, entries[..n]);
      assert KeysOf(entries) == KeysOf(entries[..n]) + {entries[n].0} by {
        assert entries == entries[..n] + [entries[n]];
      }
    }
  }

  lemma {:induction false} NothingMissing<K, V>(table: map<K, V>, entries: seq<(K, V)>)
    requires KeysOf(entries) <= table.Keys
    ensures AddMissing(table, entries) == table
  {
    if entries == [] {
    } else {
      var n := |entries| - 1;
      assert forall e :: e in entries[..n] ==> e in entries;
      assert entries[n] in entries;
      NothingMissing(table, entries[..n]);
    }
  }

  /* ---------- What each part of the script makes of the database ---------- */

  function WithPermissions(db: Database, c: Catalogue): Database {
    db.(permissions := AddMissing(db.permissions, c.permissions))
  }

  function RoleEntries(roles: seq<RoleSpec>): seq<(string, string)> {
    seq(|roles|, i requires 0 <= i < |roles| => (roles[i].code, roles[i].name))
  }

  function Wanted(roles: seq<RoleSpec>): set<(string, string)> {
    set r, p | r in roles && p in r.permissions :: (r.code, p)
  }

  function WithRoles(db: Database, c: Catalogue): Database {
    db.(roles := AddMissing(db.roles, RoleEntries(c.roles)), rolePermissions := db.rolePermissions + Wanted(c.roles))
  }

  function WithUser(db: Database, email: string, user: User, role: string): Database {
    if email in db.users then db
    else db.(users := db.users[email := user], userRoles := db.userRoles + {(email, role)})
  }

  function MatchingTenants(tenants: seq<Tenant>, wanted: Tenant): (found: seq<Tenant>)
    ensures forall t :: t in found <==> t in tenants && (t.code == wanted.code || t.slug == wanted.slug)
    ensures |found| <= |tenants|
  {
    if tenants == [] then []
    else
      var n := |tenants| - 1;
      MatchingTenants(tenants[..n], wanted)
      + (if tenants[n].code == wanted.code || tenants[n].slug == wanted.slug then [tenants[n]] else [])
  }

  function ActiveYears(years: seq<FiscalYear>, tenant: string): seq<FiscalYear> {
    if years == [] then []
    else
      var n := |years| - 1;
      ActiveYears(years[..n], tenant) + (if years[n].tenant == tenant && years[n].active then [years[n]] else [])
  }

  /** A row the unique constraint on tenant and code would collide with. */
  predicate YearExists(years: seq<FiscalYear>, tenant: string, code: string) {
    exists y :: y in years && y.tenant == tenant && y.code == code
  }

  /** The demo tenant, found or created. */
  function WithTenant(db: Database, c: Catalogue): Result<(Database, Tenant), SeedError> {
    var found := MatchingTenants(db.tenants, c.tenant);
    if |found| > 1 then Failure(MultipleResultsFound)
    else if found == [] then Success((db.(tenants := db.tenants + [c.tenant]), c.tenant))
    else Success((db, found[0]))
  }

  function WithFiscalYear(db: Database, tenant: Tenant, env: Environment): Result<Database, SeedError> {
    var active := ActiveYears(db.fiscalYears, tenant.code);
    if |active| > 1 then Failure(MultipleResultsFound)
    else if active != [] then Success(db)
    else if YearExists(db.fiscalYears, tenant.code, env.FiscalYearCode()) then Failure(IntegrityError)
    else Success(db.(fiscalYears := db.fiscalYears + [FiscalYear(tenant.code, env.FiscalYearCode(), true)]))
  }

  function WithDemoUsers(db: Database, users: seq<(string, string)>, tenant: Tenant, env: Environment): Database {
    if users == [] then db
    else
      var n := |users| - 1;
      WithUser(WithDemoUsers(db, users[..n], tenant, env), users[n].0,
               User(Some(tenant.code), false, env.secret), users[n].1)
  }

  function UnitEntries(k: CategorySpec): seq<(string, Unit)> {
    seq(|k.units|, i requires 0 <= i < |k.units| => (k.units[i].0, Unit(k.code, k.units[i].1)))
  }

  function WithCategories(db: Database, categories: seq<CategorySpec>): Database {
    if categories == [] then db
    else
      var n := |categories| - 1;
      var k := categories[n];
      var before := WithCategories(db, categories[..n]);
      before.(categories := AddMissing(before.categories, [(k.code, k.name)]),
              units := AddMissing(before.units, UnitEntries(k)),
              conversions := AddMissing(before.conversions, k.conversions))
  }

  function WithSuperAdmin(db: Database, c: Catalogue, env: Environment): Database {
    WithUser(db, c.superAdminEmail, User(None, true, env.secret), c.superAdminRole)
  }

  /** `run`: all or nothing, for a failing query leaves the transaction uncommitted. */
  function Seeded(db: Database, c: Catalogue, env: Environment): Result<Database, SeedError> {
    var db3 := WithSuperAdmin(WithRoles(WithPermissions(db, c), c), c, env);
    match WithTenant(db3, c)
    case Failure(e) => Failure(e)
    case Success((db4, tenant)) =>
      match WithFiscalYear(db4, tenant, env)
      case Failure(e) => Failure(e)
      case Success(db5) => Success(WithCategories(WithDemoUsers(db5, c.demoUsers, tenant, env), c.categories))
  }

  /* ---------- The script ---------- */

  class Session {
    /** The rows as this transaction sees them. */
    var db: Database

    constructor (committed: Database)
      ensures db == committed
    {
      db := committed;
    }

    method SeedPermissions(c: Catalogue) returns (byCode: set<string>)
      modifies this
      ensures db == WithPermissions(old(db), c)
      ensures byCode == KeysOf(c.permissions) && byCode <= db.permissions.Keys
    {
      byCode := {};
      for i := 0 to |c.permissions|
        invariant db == old(db).(permissions := AddMissing(old(db).permissions, c.permissions[..i]))
        invariant byCode == KeysOf(c.permissions[..i])
      {
        var (code, description) := c.permissions[i];
        assert c.permissions[..i + 1][..i] == c.permissions[..i];
        assert c.permissions[..i + 1] == c.permissions[..i] + [c.permissions[i]];
        if code !in db.permissions {
          db := db.(permissions := db.permissions[code := description]);
        }
        byCode := byCode + {code};
      }
      assert c.permissions[..|c.permissions|] == c.permissions;
      AddMissingAdds(old(db).permissions, c.permissions);
    }

    /** The inner loop for one role. Every role-permission row it inserts is new, so no insert hits the primary key. */
    method SeedRolePermissions(role: RoleSpec, byCode: set<string>)
      requires IsRole(role, byCode)
      modifies this
      ensures db == old(db).(rolePermissions := old(db).rolePermissions + Wanted([role]))
    {
      var existing := set rp | rp in db.rolePermissions && rp.0 == role.code :: rp.1;
      for j := 0 to |role.permissions|
        invariant db == old(db).(rolePermissions := db.rolePermissions)
        invariant db.rolePermissions == old(db).rolePermissions + set p | p in role.permissions[..j] :: (role.code, p)
      {
        var permission := role.permissions[j];
        assert permission in role.permissions && permission in byCode;
        assert role.permissions[..j + 1] == role.permissions[..j] + [permission];
        if permission in existing {
          assert (role.code, permission) in old(db).rolePermissions;
          continue;
        }
        assert (role.code, permission) !in db.rolePermissions;
        db := db.(rolePermissions := db.rolePermissions + {(role.code, permission)});
      }
      assert role.permissions[..|role.permissions|] == role.permissions;
      WantedSnoc([], role);
      assert [] + [role] == [role];
    }

    method SeedRole(role: RoleSpec, byCode: set<string>)
      requires IsRole(role, byCode)
      modifies this
      ensures db == old(db).(
                roles := if role.code in old(db).roles then old(db).roles else old(db).roles[role.code := role.name],
                rolePermissions := old(db).rolePermissions + Wanted([role]))
    {
      if role.code !in db.roles {
        db := db.(roles := db.roles[role.code := role.name]);
      }
      SeedRolePermissions(role, byCode);
    }

    method SeedRoles(c: Catalogue, byCode: set<string>)
      requires forall r :: r in c.roles ==> IsRole(r, byCode)
      modifies this
      ensures db == WithRoles(old(db), c)
    {
      var entries := RoleEntries(c.roles);
      for i := 0 to |c.roles|
        invariant db == old(db).(roles := AddMissing(old(db).roles, entries[..i]),
                                 rolePermissions := old(db).rolePermissions + Wanted(c.roles[..i]))
      {
        var role := c.roles[i];
        assert role in c.roles;
        SeedRole(role, byCode);
        AddMissingNext(old(db).roles, entries, i);
        assert Wanted(c.roles[..i + 1]) == Wanted(c.roles[..i]) + Wanted([role]) by {
          WantedAppend(c.roles[..i], role);
          assert c.roles[..i + 1] == c.roles[..i] + [role];
        }
      }
      assert c.roles[..|c.roles|] == c.roles && entries[..|c.roles|] == entries;
    }

    method SeedSuperAdmin(c: Catalogue, env: Environment)
      requires c.superAdminRole in db.roles
      modifies this
      ensures db == WithSuperAdmin(old(db), c, env)
    {
      if c.superAdminEmail in db.users {
        return;
      }
      db := db.(users := db.users[c.superAdminEmail := User(None, true, env.secret)]);
      db := db.(userRoles := db.userRoles + {(c.superAdminEmail, c.superAdminRole)});
    }

    method SeedFiscalYear(tenant: Tenant, env: Environment) returns (error: Option<SeedError>)
      modifies this
      ensures match WithFiscalYear(old(db), tenant, env)
              case Failure(e) => error == Some(e) && db == old(db)
              case Success(after) => error == None && db == after
    {
      var active := ActiveYears(db.fiscalYears, tenant.code);
      if |active| > 1 {
        return Some(MultipleResultsFound);
      }
      if active != [] {
        return None;
      }
      if YearExists(db.fiscalYears, tenant.code, env.FiscalYearCode()) {
        return Some(IntegrityError);
      }
      db := db.(fiscalYears := db.fiscalYears + [FiscalYear(tenant.code, env.FiscalYearCode(), true)]);
      return None;
    }

    method SeedDemoTenantAndUsers(c: Catalogue, env: Environment) returns (error: Option<SeedError>)
      requires forall u :: u in c.demoUsers ==> u.1 in db.roles
      modifies this
      ensures match WithTenant(old(db), c)
              case Failure(e) => error == Some(e)
              case Success((db4, tenant)) =>
                match WithFiscalYear(db4, tenant, env)
                case Failure(e) => error == Some(e)
                case Success(db5) => error == None && db == WithDemoUsers(db5, c.demoUsers, tenant, env)
    {
      var found := MatchingTenants(db.tenants, c.tenant);
      if |found| > 1 {
        return Some(MultipleResultsFound);
      }
      var tenant := c.tenant;
      if found == [] {
        db := db.(tenants := db.tenants + [c.tenant]);
      } else {
        tenant := found[0];
      }
      error := SeedFiscalYear(tenant, env);
      if error.Some? {
        return;
      }
      ghost var db5 := db;
      for i := 0 to |c.demoUsers|
        invariant db == WithDemoUsers(db5, c.demoUsers[..i], tenant, env)
      {
        assert c.demoUsers[..i + 1][..i] == c.demoUsers[..i];
        var (email, role) := c.demoUsers[i];
        if email in db.users {
          continue;
        }
        db := db.(users := db.users[email := User(Some(tenant.code), false, env.secret)]);
        db := db.(userRoles := db.userRoles + {(email, role)});
      }
      assert c.demoUsers[..|c.demoUsers|] == c.demoUsers;
    }

    /** One category: its row, its units, then its conversions. */
    method SeedCategory(k: CategorySpec)
      modifies this
      ensures db == WithCategories(old(db), [k])
    {
      assert [k][..0] == [];
      if k.code !in db.categories {
        db := db.(categories := db.categories[k.code := k.name]);
      }
      assert db.categories == AddMissing(old(db).categories, [(k.code, k.name)]) by {
        assert [(k.code, k.name)][..0] == [];
      }
      var units := UnitEntries(k);
      for i := 0 to |k.units|
        invariant db == old(db).(categories := db.categories, units := AddMissing(old(db).units, units[..i]))
        invariant db.categories == AddMissing(old(db).categories, [(k.code, k.name)])
      {
        assert units[..i + 1][..i] == units[..i];
        var (code, name) := k.units[i];
        if code !in db.units {
          db := db.(units := db.units[code := Unit(k.code, name)]);
        }
      }
      assert units[..|k.units|] == units;
      for i := 0 to |k.conversions|
        invariant db == old(db).(categories := db.categories, units := AddMissing(old(db).units, units),
                                 conversions := AddMissing(old(db).conversions, k.conversions[..i]))
        invariant db.categories == AddMissing(old(db).categories, [(k.code, k.name)])
      {
        assert k.conversions[..i + 1][..i] == k.conversions[..i];
        var (pair, factor) := k.conversions[i];
        if pair !in db.conversions {
          db := db.(conversions := db.conversions[pair := factor]);
        }
      }
      assert k.conversions[..|k.conversions|] == k.conversions;
    }

    method SeedUnits(c: Catalogue)
      modifies this
      ensures db == WithCategories(old(db), c.categories)
    {
      for i := 0 to |c.categories|
        invariant db == WithCategories(old(db), c.categories[..i])
      {
        assert c.categories[..i + 1][..i] == c.categories[..i];
        assert [c.categories[i]][..0] == [];
        SeedCategory(c.categories[i]);
      }
      assert c.categories[..|c.categories|] == c.categories;
    }
  }

  lemma AddMissingNext<K, V>(table: map<K, V>, entries: seq<(K, V)>, i: nat)
    requires i < |entries|
    ensures var before := AddMissing(table, entries[..i]);
            AddMissing(table, entries[..i + 1]) ==
            if entries[i].0 in before then before else before[entries[i].0 := entries[i].1]
  {
    assert entries[..i + 1][..i] == entries[..i];
  }

  lemma WantedAppend(roles: seq<RoleSpec>, role: RoleSpec)
    ensures Wanted(roles + [role]) == Wanted(roles) + Wanted([role])
  {
    WantedSnoc(roles, role);
    WantedSnoc([], role);
    assert [] + [role] == [role];
  }

  lemma WantedSnoc(roles: seq<RoleSpec>, role: RoleSpec)
    ensures Wanted(roles + [role]) == Wanted(roles) + set p | p in role.permissions :: (role.code, p)
  {
  }

  lemma RolesExist(db: Database, c: Catalogue)
    ensures RoleCodes(c) <= WithRoles(db, c).roles.Keys
  {
    AddMissingAdds(db.roles, RoleEntries(c.roles));
    forall code | code in RoleCodes(c)
      ensures code in KeysOf(RoleEntries(c.roles))
    {
      var i :| 0 <= i < |c.roles| && c.roles[i].code == code;
      assert RoleEntries(c.roles)[i] in RoleEntries(c.roles);
    }
  }

  /** `run` against a committed database: the new committed database, which is the old one if a query raised. */
  method Run(committed: Database, c: Catalogue, env: Environment) returns (after: Database, error: Option<SeedError>)
    requires WellFormed(c)
    ensures match Seeded(committed, c, env)
            case Failure(e) => error == Some(e) && after == committed
            case Success(db) => error == None && after == db
  {
    var session := new Session(committed);
    var byCode := session.SeedPermissions(c);
    session.SeedRoles(c, byCode);
    RolesExist(WithPermissions(committed, c), c);
    session.SeedSuperAdmin(c, env);
    error := session.SeedDemoTenantAndUsers(c, env);
    if error.Some? {
      return committed, error;
    }
    session.SeedUnits(c);
    return session.db, None;
  }

  /* ---------- Main results ---------- */

  /** Everything in `db` is still in `db'`, unaltered. */
  ghost predicate Extends(db: Database, db': Database) {
    && (forall k :: k in db.permissions ==> k in db'.permissions && db'.permissions[k] == db.permissions[k])
    && (forall k :: k in db.roles ==> k in db'.roles && db'.roles[k] == db.roles[k])
    && db.rolePermissions <= db'.rolePermissions
    && (forall k :: k in db.users ==> k in db'.users && db'.users[k] == db.users[k])
    && db.userRoles <= db'.userRoles
    && db.tenants <= db'.tenants
    && db.fiscalYears <= db'.fiscalYears
    && (forall k :: k in db.categories ==> k in db'.categories && db'.categories[k] == db.categories[k])
    && (forall k :: k in db.units ==> k in db'.units && db'.units[k] == db.units[k])
    && (forall k :: k in db.conversions ==> k in db'.conversions && db'.conversions[k] == db.conversions[k])
  }

  /** Every catalogued permission, role and role permission is there, and so is the super administrator. */
  ghost predicate RolesComplete(db: Database, c: Catalogue) {
    && KeysOf(c.permissions) <= db.permissions.Keys
    && KeysOf(RoleEntries(c.roles)) <= db.roles.Keys
    && Wanted(c.roles) <= db.rolePermissions
    && c.superAdminEmail in db.users
  }

  /** The demo tenant is unambiguous and has one active fiscal year. */
  ghost predicate TenantComplete(db: Database, c: Catalogue) {
    && |MatchingTenants(db.tenants, c.tenant)| == 1
    && |ActiveYears(db.fiscalYears, MatchingTenants(db.tenants, c.tenant)[0].code)| == 1
  }

  /** Nothing the catalogue asks for is missing. */
  ghost predicate Complete(db: Database, c: Catalogue) {
    && RolesComplete(db, c)
    && TenantComplete(db, c)
    && (forall u :: u in c.demoUsers ==> u.0 in db.users)
    && (forall k :: k in c.categories ==>
          k.code in db.categories && KeysOf(k.units) <= db.units.Keys && KeysOf(k.conversions) <= db.conversions.Keys)
  }

  /** At most one tenant has the demo code or slug, that tenant has at most one active fiscal year, and if it has none
      then neither does it have an inactive year with the code of the year to be created. */
  predicate Seedable(db: Database, c: Catalogue, env: Environment) {
    var found := MatchingTenants(db.tenants, c.tenant);
    var tenant := (if found == [] then c.tenant else found[0]).code;
    && |found| <= 1
    && |ActiveYears(db.fiscalYears, tenant)| <= 1
    && (ActiveYears(db.fiscalYears, tenant) == [] ==> !YearExists(db.fiscalYears, tenant, env.FiscalYearCode()))
  }

  lemma UserExtends(db: Database, email: string, user: User, role: string)
    ensures var db' := WithUser(db, email, user, role);
            && db' == db.(users := db'.users, userRoles := db'.userRoles)
            && (forall k :: k in db.users ==> k in db'.users && db'.users[k] == db.users[k])
            && db.userRoles <= db'.userRoles
            && email in db'.users
  {
  }

  lemma {:induction false} DemoUsersExtend(db: Database, users: seq<(string, string)>, tenant: Tenant, env: Environment)
    ensures var db' := WithDemoUsers(db, users, tenant, env);
            && db' == db.(users := db'.users, userRoles := db'.userRoles)
            && (forall k :: k in db.users ==> k in db'.users && db'.users[k] == db.users[k])
            && db.userRoles <= db'.userRoles
            && (forall u :: u in users ==> u.0 in db'.users)
  {
    if users == [] {
    } else {
      var n := |users| - 1;
      DemoUsersExtend(db, users[..n], tenant, env);
      var before := WithDemoUsers(db, users[..n], tenant, env);
      UserExtends(before, users[n].0, User(Some(tenant.code), false, env.secret), users[n].1);
      assert users == users[..n] + [users[n]];
    }
  }

  lemma {:induction false} DemoUsersPresent(
    db: Database, users: seq<(string, string)>, tenant: Tenant, env: Environment)
    requires forall u :: u in users ==> u.0 in db.users
    ensures WithDemoUsers(db, users, tenant, env) == db
  {
    if users == [] {
    } else {
      var n := |users| - 1;
      assert users[n] in users && forall u :: u in users[..n] ==> u in users;
      DemoUsersPresent(db, users[..n], tenant, env);
    }
  }

  lemma UnitKeys(k: CategorySpec)
    ensures KeysOf(UnitEntries(k)) == KeysOf(k.units)
  {
    forall code
      ensures code in KeysOf(UnitEntries(k)) <==> code in KeysOf(k.units)
    {
      if e :| e in k.units && e.0 == code {
        var i :| 0 <= i < |k.units| && k.units[i] == e;
        assert UnitEntries(k)[i] in UnitEntries(k);
      }
    }
  }

  lemma {:induction false} CategoriesExtend(db: Database, categories: seq<CategorySpec>)
    ensures var db' := WithCategories(db, categories);
            && db' == db.(categories := db'.categories, units := db'.units, conversions := db'.conversions)
            && (forall k :: k in db.categories ==> k in db'.categories && db'.categories[k] == db.categories[k])
            && (forall k :: k in db.units ==> k in db'.units && db'.units[k] == db.units[k])
            && (forall k :: k in db.conversions ==> k in db'.conversions && db'.conversions[k] == db.conversions[k])
            && (forall k :: k in categories ==>
                  k.code in db'.categories && KeysOf(k.units) <= db'.units.Keys &&
                  KeysOf(k.conversions) <= db'.conversions.Keys)
  {
    if categories == [] {
    } else {
      var n := |categories| - 1;
      var k := categories[n];
      var before := WithCategories(db, categories[..n]);
      CategoriesExtend(db, categories[..n]);
      AddMissingAdds(before.categories, [(k.code, k.name)]);
      AddMissingAdds(before.units, UnitEntries(k));
      AddMissingAdds(before.conversions, k.conversions);
      UnitKeys(k);
      assert (k.code, k.name) in [(k.code, k.name)];
      assert categories == categories[..n] + [k];
    }
  }

  lemma {:induction false} CategoriesPresent(db: Database, categories: seq<CategorySpec>)
    requires forall k :: k in categories ==>
               && k.code in db.categories && KeysOf(k.units) <= db.units.Keys
               && KeysOf(k.conversions) <= db.conversions.Keys
    ensures WithCategories(db, categories) == db
  {
    if categories == [] {
    } else {
      var n := |categories| - 1;
      var k := categories[n];
      assert k in categories && forall c :: c in categories[..n] ==> c in categories;
      CategoriesPresent(db, categories[..n]);
      UnitKeys(k);
      NothingMissing(db.categories, [(k.code, k.name)]);
      NothingMissing(db.units, UnitEntries(k));
      NothingMissing(db.conversions, k.conversions);
    }
  }

  /** Appending a tenant or year adds it to the matches it belongs to. */
  lemma TenantSnoc(tenants: seq<Tenant>, tenant: Tenant, wanted: Tenant)
    ensures MatchingTenants(tenants + [tenant], wanted) ==
            MatchingTenants(tenants, wanted)
            + (if tenant.code == wanted.code || tenant.slug == wanted.slug then [tenant] else [])
  {
    assert (tenants + [tenant])[..|tenants|] == tenants;
  }

  lemma YearSnoc(years: seq<FiscalYear>, year: FiscalYear, tenant: string)
    ensures ActiveYears(years + [year], tenant) ==
            ActiveYears(years, tenant) + (if year.tenant == tenant && year.active then [year] else [])
  {
    assert (years + [year])[..|years|] == years;
  }

  /** The first three parts of the script touch neither tenants nor years, and complete the catalogued roles. */
  lemma RolesStage(db: Database, c: Catalogue, env: Environment)
    ensures var db3 := WithSuperAdmin(WithRoles(WithPermissions(db, c), c), c, env);
            && db3.tenants == db.tenants && db3.fiscalYears == db.fiscalYears
            && Extends(db, db3) && RolesComplete(db3, c)
  {
    AddMissingAdds(db.permissions, c.permissions);
    AddMissingAdds(db.roles, RoleEntries(c.roles));
    var db2 := WithRoles(WithPermissions(db, c), c);
    assert Extends(db, db2);
    SuperAdminExtends(db2, c, env);
    ExtendsIsTransitive(db, db2, WithSuperAdmin(db2, c, env));
  }

  lemma SuperAdminExtends(db: Database, c: Catalogue, env: Environment)
    ensures var after := WithSuperAdmin(db, c, env);
            && after == db.(users := after.users, userRoles := after.userRoles)
            && Extends(db, after) && c.superAdminEmail in after.users
  {
  }

  /** Finding or creating the tenant leaves exactly one match, and no years are touched. */
  lemma TenantFoundOrCreated(db: Database, c: Catalogue)
    requires |MatchingTenants(db.tenants, c.tenant)| <= 1
    ensures var (db4, tenant) := WithTenant(db, c).value;
            && db4 == db.(tenants := db4.tenants) && db.tenants <= db4.tenants
            && MatchingTenants(db4.tenants, c.tenant) == [tenant]
  {
    if MatchingTenants(db.tenants, c.tenant) == [] {
      TenantSnoc(db.tenants, c.tenant, c.tenant);
    }
  }

  /** Finding or creating the fiscal year leaves exactly one active year, and no tenants are touched. */
  lemma YearFoundOrCreated(db: Database, tenant: Tenant, env: Environment)
    requires WithFiscalYear(db, tenant, env).Success?
    ensures var db5 := WithFiscalYear(db, tenant, env).value;
            && db5 == db.(fiscalYears := db5.fiscalYears) && db.fiscalYears <= db5.fiscalYears
            && |ActiveYears(db5.fiscalYears, tenant.code)| == 1
  {
    YearSnoc(db.fiscalYears, FiscalYear(tenant.code, env.FiscalYearCode(), true), tenant.code);
  }

  /** The last two parts only add, and complete the demo users and the units. */
  lemma UsersAndUnitsStage(db: Database, c: Catalogue, tenant: Tenant, env: Environment)
    requires RolesComplete(db, c) && TenantComplete(db, c)
    ensures var after := WithCategories(WithDemoUsers(db, c.demoUsers, tenant, env), c.categories);
            Extends(db, after) && Complete(after, c)
  {
    DemoUsersExtend(db, c.demoUsers, tenant, env);
    CategoriesExtend(WithDemoUsers(db, c.demoUsers, tenant, env), c.categories);
  }

  lemma ExtendsIsTransitive(a: Database, b: Database, c: Database)
    requires Extends(a, b) && Extends(b, c)
    ensures Extends(a, c)
  {
  }

  /** Seeding succeeds exactly on seedable databases, removes and alters nothing, and completes the catalogue. */
  lemma SeedingIsAdditive(db: Database, c: Catalogue, env: Environment)
    ensures Seeded(db, c, env).Success? <==> Seedable(db, c, env)
    ensures Seeded(db, c, env).Success? ==>
              Extends(db, Seeded(db, c, env).value) && Complete(Seeded(db, c, env).value, c)
  {
    var db3 := WithSuperAdmin(WithRoles(WithPermissions(db, c), c), c, env);
    RolesStage(db, c, env);
    if |MatchingTenants(db.tenants, c.tenant)| > 1 {
      return;
    }
    TenantFoundOrCreated(db3, c);
    var (db4, tenant) := WithTenant(db3, c).value;
    assert db4.fiscalYears == db.fiscalYears;
    if Seedable(db, c, env) {
      LaterStages(db3, db4, c, tenant, env);
      ExtendsIsTransitive(db, db3, Seeded(db, c, env).value);
    }
  }

  /** Everything after the tenant was found or created in `db3`, giving `db4`. */
  lemma LaterStages(db3: Database, db4: Database, c: Catalogue, tenant: Tenant, env: Environment)
    requires RolesComplete(db3, c) && WithFiscalYear(db4, tenant, env).Success?
    requires db4 == db3.(tenants := db4.tenants) && db3.tenants <= db4.tenants
    requires MatchingTenants(db4.tenants, c.tenant) == [tenant]
    ensures var db5 := WithFiscalYear(db4, tenant, env).value;
            var after := WithCategories(WithDemoUsers(db5, c.demoUsers, tenant, env), c.categories);
            Extends(db3, after) && Complete(after, c)
  {
    YearFoundOrCreated(db4, tenant, env);
    var db5 := WithFiscalYear(db4, tenant, env).value;
    UsersAndUnitsStage(db5, c, tenant, env);
    var after := WithCategories(WithDemoUsers(db5, c.demoUsers, tenant, env), c.categories);
    assert Extends(db3, db5);
    ExtendsIsTransitive(db3, db5, after);
  }

  /** A complete database is left exactly as it is. */
  lemma CompleteIsFixed(db: Database, c: Catalogue, env: Environment)
    requires Complete(db, c)
    ensures Seeded(db, c, env) == Success(db)
  {
    NothingMissing(db.permissions, c.permissions);
    NothingMissing(db.roles, RoleEntries(c.roles));
    assert db.rolePermissions + Wanted(c.roles) == db.rolePermissions;
    var tenant := MatchingTenants(db.tenants, c.tenant)[0];
    DemoUsersPresent(db, c.demoUsers, tenant, env);
    CategoriesPresent(db, c.categories);
  }

  /** What is committed after one run. */
  function After(db: Database, c: Catalogue, env: Environment): Database {
    match Seeded(db, c, env)
    case Success(after) => after
    case Failure(_) => db
  }

  /** Idempotence: after a success a second run, on any later day and with any salts, changes nothing; after a failure
      the same run fails the same way. */
  lemma SeedingTwiceIsSeedingOnce(db: Database, c: Catalogue, env: Environment, later: Environment)
    ensures Seedable(db, c, env) ==> Seeded(After(db, c, env), c, later) == Seeded(db, c, env)
    ensures After(After(db, c, env), c, env) == After(db, c, env)
  {
    SeedingIsAdditive(db, c, env);
    if Seedable(db, c, env) {
      CompleteIsFixed(After(db, c, env), c, env);
      CompleteIsFixed(After(db, c, env), c, later);
    }
  }

  /** Unique natural keys are not enough: a demo tenant whose only fiscal year is this year's, deactivated, makes the
      script fail and add nothing. */
  lemma InactiveYearBlocksSeeding(c: Catalogue, env: Environment)
    ensures var year := FiscalYear(c.tenant.code, env.FiscalYearCode(), false);
            var db := Database(map[], map[], {}, map[], {}, [c.tenant], [year], map[], map[], map[]);
            Seeded(db, c, env) == Failure(IntegrityError) && After(db, c, env) == db
  {
    var year := FiscalYear(c.tenant.code, env.FiscalYearCode(), false);
    TenantSnoc([], c.tenant, c.tenant);
    YearSnoc([], year, c.tenant.code);
    assert [] + [c.tenant] == [c.tenant] && [] + [year] == [year];
    assert year in [year];
  }

  /* ---------- Exactly what a seeding adds ---------- */

  /** Every row stays, and each listed key without a row gets one, with the values of its first listing. */
  ghost predicate AddsFirsts<K(!new), V>(before: map<K, V>, after: map<K, V>, entries: seq<(K, V)>) {
    && after.Keys == before.Keys + KeysOf(entries)
    && (forall k :: k in before ==> after[k] == before[k])
    && (forall i :: 0 <= i < |entries| && entries[i].0 !in before && IsFirst(entries, i) ==>
          after[entries[i].0] == entries[i].1)
  }

  ghost predicate IsFirst<K, V>(entries: seq<(K, V)>, i: nat)
    requires i < |entries|
  {
    forall j :: 0 <= j < i ==> entries[j].0 != entries[i].0
  }

  lemma {:induction false} AddMissingIsExact<K(!new), V>(table: map<K, V>, entries: seq<(K, V)>)
    ensures AddsFirsts(table, AddMissing(table, entries), entries)
  {
    AddMissingAdds(table, entries);
    forall i | 0 <= i < |entries| && entries[i].0 !in table && IsFirst(entries, i)
      ensures AddMissing(table, entries)[entries[i].0] == entries[i].1
    {
      FirstIsAdded(table, entries, i);
    }
  }

  lemma {:induction false} FirstIsAdded<K(!new), V>(table: map<K, V>, entries: seq<(K, V)>, i: nat)
    requires i < |entries| && entries[i].0 !in table && IsFirst(entries, i)
    ensures entries[i].0 in AddMissing(table, entries) && AddMissing(table, entries)[entries[i].0] == entries[i].1
  {
    var n := |entries| - 1;
    if i < n {
      assert IsFirst(entries[..n], i) by {
        assert forall j :: 0 <= j < i ==> entries[..n][j] == entries[j];
      }
      FirstIsAdded(table, entries[..n], i);
    } else {
      AddMissingAdds(table, entries[..n]);
      assert entries[n].0 !in KeysOf(entries[..n]);
    }
  }

  lemma {:induction false} AddMissingAppend<K, V>(table: map<K, V>, a: seq<(K, V)>, b: seq<(K, V)>)
    ensures AddMissing(table, a + b) == AddMissing(AddMissing(table, a), b)
  {
    if b == [] {
      assert a + b == a;
    } else {
      var n := |b| - 1;
      AddMissingAppend(table, a, b[..n]);
      assert (a + b)[..|a| + n] == a + b[..n];
    }
  }

  /** The catalogued accounts in the order the script creates them: the super administrator, then the demo users. */
  function Accounts(c: Catalogue, tenant: Tenant, env: Environment): seq<(string, User)> {
    [(c.superAdminEmail, User(None, true, env.secret))]
    + seq(|c.demoUsers|, i requires 0 <= i < |c.demoUsers| =>
            (c.demoUsers[i].0, User(Some(tenant.code), false, env.secret)))
  }

  /** The role each of them is to have. */
  function AccountRoles(c: Catalogue): seq<(string, string)> {
    [(c.superAdminEmail, c.superAdminRole)] + c.demoUsers
  }

  /** The first listings of emails that have no account yet, with their roles. */
  ghost function NewRoles(users: map<string, User>, accounts: seq<(string, string)>): set<(string, string)> {
    set i | 0 <= i < |accounts| && accounts[i].0 !in users && IsFirst(accounts, i) :: accounts[i]
  }

  lemma NewRolesSnoc(users: map<string, User>, accounts: seq<(string, string)>)
    requires accounts != []
    ensures var n := |accounts| - 1;
            var last := accounts[n];
            NewRoles(users, accounts) ==
            NewRoles(users, accounts[..n])
            + (if last.0 in users || last.0 in KeysOf(accounts[..n]) then {} else {last})
  {
    var n := |accounts| - 1;
    var before := accounts[..n];
    forall i | 0 <= i < n
      ensures before[i] == accounts[i] && (IsFirst(before, i) <==> IsFirst(accounts, i))
    {
      assert forall j :: 0 <= j < i ==> before[j] == accounts[j];
    }
    assert IsFirst(accounts, n) <==> accounts[n].0 !in KeysOf(before) by {
      if accounts[n].0 in KeysOf(before) {
        var e :| e in before && e.0 == accounts[n].0;
        var j :| 0 <= j < n && before[j] == e;
        assert accounts[j].0 == accounts[n].0;
      } else {
        assert forall j :: 0 <= j < n ==> before[j] in before;
      }
    }
    forall r | r in NewRoles(users, before)
      ensures r in NewRoles(users, accounts)
    {
      var i :| 0 <= i < n && before[i].0 !in users && IsFirst(before, i) && before[i] == r;
      assert accounts[i] == r;
    }
    forall r | r in NewRoles(users, accounts)
      ensures r in NewRoles(users, before) || (r == accounts[n] && IsFirst(accounts, n) && r.0 !in users)
    {
      var i :| 0 <= i < |accounts| && accounts[i].0 !in users && IsFirst(accounts, i) && accounts[i] == r;
      if i < n {
        assert before[i] == r;
      }
    }
    if accounts[n].0 !in users && IsFirst(accounts, n) {
      assert accounts[n] in NewRoles(users, accounts);
    }
  }

  /** Both parts that create accounts, together. */
  lemma {:induction false} AccountsAreExact(
    db: Database, mid: Database, c: Catalogue, tenant: Tenant, env: Environment, n: nat)
    requires n <= |c.demoUsers|
    requires mid.users == WithSuperAdmin(db, c, env).users && mid.userRoles == WithSuperAdmin(db, c, env).userRoles
    ensures var after := WithDemoUsers(mid, c.demoUsers[..n], tenant, env);
            && after.users == AddMissing(db.users, Accounts(c, tenant, env)[..n + 1])
            && after.userRoles == db.userRoles + NewRoles(db.users, AccountRoles(c)[..n + 1])
  {
    var accounts, roles := Accounts(c, tenant, env), AccountRoles(c);
    NewRolesSnoc(db.users, roles[..n + 1]);
    assert accounts[..n + 1][..n] == accounts[..n] && roles[..n + 1][..n] == roles[..n];
    if n == 0 {
      assert roles[..0] == [] && accounts[..0] == [];
    } else {
      AccountsAreExact(db, mid, c, tenant, env, n - 1);
      assert c.demoUsers[..n][..n - 1] == c.demoUsers[..n - 1];
      assert accounts[n] == (c.demoUsers[n - 1].0, User(Some(tenant.code), false, env.secret));
      assert roles[n] == c.demoUsers[n - 1];
      AddMissingNext(db.users, accounts, n);
      EmailsKnown(db.users, c, tenant, env, n);
    }
  }

  lemma EmailsKnown(users: map<string, User>, c: Catalogue, tenant: Tenant, env: Environment, n: nat)
    requires n <= |c.demoUsers| + 1
    ensures AddMissing(users, Accounts(c, tenant, env)[..n]).Keys == users.Keys + KeysOf(AccountRoles(c)[..n])
  {
    AddMissingAdds(users, Accounts(c, tenant, env)[..n]);
    SameEmails(c, tenant, env, n);
  }

  lemma SameEmails(c: Catalogue, tenant: Tenant, env: Environment, n: nat)
    requires n <= |c.demoUsers| + 1
    ensures KeysOf(Accounts(c, tenant, env)[..n]) == KeysOf(AccountRoles(c)[..n])
  {
    var accounts, roles := Accounts(c, tenant, env)[..n], AccountRoles(c)[..n];
    assert forall i :: 0 <= i < n ==> accounts[i].0 == roles[i].0;
    forall email
      ensures email in KeysOf(accounts) <==> email in KeysOf(roles)
    {
      if e :| e in accounts && e.0 == email {
        var i :| 0 <= i < n && accounts[i] == e;
        assert roles[i] in roles;
      }
      if e :| e in roles && e.0 == email {
        var i :| 0 <= i < n && roles[i] == e;
        assert accounts[i] in accounts;
      }
    }
  }

  /** All catalogued units, in order, each in its category. */
  function AllUnits(categories: seq<CategorySpec>): seq<(string, Unit)> {
    if categories == [] then []
    else
      var k := categories[|categories| - 1];
      AllUnits(categories[..|categories| - 1])
      + seq(|k.units|, i requires 0 <= i < |k.units| => (k.units[i].0, Unit(k.code, k.units[i].1)))
  }

  function AllConversions(categories: seq<CategorySpec>): seq<((string, string), real)> {
    if categories == [] then []
    else AllConversions(categories[..|categories| - 1]) + categories[|categories| - 1].conversions
  }

  function AllCategories(categories: seq<CategorySpec>): seq<(string, string)> {
    seq(|categories|, i requires 0 <= i < |categories| => (categories[i].code, categories[i].name))
  }

  lemma {:induction false} CategoriesAreExact(db: Database, categories: seq<CategorySpec>)
    ensures var after := WithCategories(db, categories);
            && after.categories == AddMissing(db.categories, AllCategories(categories))
            && after.units == AddMissing(db.units, AllUnits(categories))
            && after.conversions == AddMissing(db.conversions, AllConversions(categories))
  {
    if categories == [] {
    } else {
      var n := |categories| - 1;
      var k := categories[n];
      CategoriesAreExact(db, categories[..n]);
      AddMissingAppend(db.categories, AllCategories(categories[..n]), [(k.code, k.name)]);
      assert AllCategories(categories) == AllCategories(categories[..n]) + [(k.code, k.name)];
      AddMissingAppend(db.units, AllUnits(categories[..n]), UnitEntries(k));
      AddMissingAppend(db.conversions, AllConversions(categories[..n]), k.conversions);
    }
  }

  /** The tenant the demo users are to belong to. */
  function DemoTenant(db: Database, c: Catalogue): Tenant {
    var found := MatchingTenants(db.tenants, c.tenant);
    if found == [] then c.tenant else found[0]
  }

  /** The tenants and years with the missing ones. */
  function NewTenants(db: Database, c: Catalogue): seq<Tenant> {
    if MatchingTenants(db.tenants, c.tenant) == [] then db.tenants + [c.tenant] else db.tenants
  }

  function NewYears(db: Database, c: Catalogue, env: Environment): seq<FiscalYear> {
    var tenant := DemoTenant(db, c).code;
    if ActiveYears(db.fiscalYears, tenant) == [] then
      db.fiscalYears + [FiscalYear(tenant, env.FiscalYearCode(), true)]
    else db.fiscalYears
  }

  /** The database once the tenant and its year are there. */
  function Prepared(db: Database, c: Catalogue, env: Environment): Database {
    WithSuperAdmin(WithRoles(WithPermissions(db, c), c), c, env)
      .(tenants := NewTenants(db, c), fiscalYears := NewYears(db, c, env))
  }

  lemma SeededIs(db: Database, c: Catalogue, env: Environment)
    requires Seeded(db, c, env).Success?
    ensures Seeded(db, c, env).value ==
            WithCategories(WithDemoUsers(Prepared(db, c, env), c.demoUsers, DemoTenant(db, c), env), c.categories)
  {
    var db3 := WithSuperAdmin(WithRoles(WithPermissions(db, c), c), c, env);
    assert db3.tenants == db.tenants && db3.fiscalYears == db.fiscalYears;
    var (db4, tenant) := WithTenant(db3, c).value;
    assert tenant == DemoTenant(db, c) && db4 == db3.(tenants := NewTenants(db, c));
    assert WithFiscalYear(db4, tenant, env).value == Prepared(db, c, env);
  }

  lemma LastStagesApart(db: Database, c: Catalogue, tenant: Tenant, env: Environment)
    ensures var mid := WithDemoUsers(db, c.demoUsers, tenant, env);
            var after := WithCategories(mid, c.categories);
            && after.users == mid.users && after.userRoles == mid.userRoles
            && after == db.(users := mid.users, userRoles := mid.userRoles, categories := after.categories,
                            units := after.units, conversions := after.conversions)
            && mid.categories == db.categories && mid.units == db.units && mid.conversions == db.conversions
  {
    DemoUsersExtend(db, c.demoUsers, tenant, env);
    CategoriesExtend(WithDemoUsers(db, c.demoUsers, tenant, env), c.categories);
  }

  /** Exactly what a successful seeding makes of the permissions, the roles and what they hold. */
  lemma SeededRoles(db: Database, c: Catalogue, env: Environment)
    requires Seeded(db, c, env).Success?
    ensures var after := Seeded(db, c, env).value;
            && AddsFirsts(db.permissions, after.permissions, c.permissions)
            && AddsFirsts(db.roles, after.roles,
                          seq(|c.roles|, i requires 0 <= i < |c.roles| => (c.roles[i].code, c.roles[i].name)))
            && after.rolePermissions ==
               db.rolePermissions + set r, p | r in c.roles && p in r.permissions :: (r.code, p)
  {
    AddMissingIsExact(db.permissions, c.permissions);
    AddMissingIsExact(db.roles, RoleEntries(c.roles));
    assert RoleEntries(c.roles) ==
           seq(|c.roles|, i requires 0 <= i < |c.roles| => (c.roles[i].code, c.roles[i].name));
    SeededIs(db, c, env);
    LastStagesApart(Prepared(db, c, env), c, DemoTenant(db, c), env);
  }

  /** Exactly which accounts a successful seeding creates: every catalogued email without one gets its first listing --
      a super administrator of the platform, a demo user of the demo tenant -- and with it its catalogued role; and no
      other account or user role appears. */
  lemma SeededUsers(db: Database, c: Catalogue, env: Environment)
    requires Seeded(db, c, env).Success?
    ensures var after := Seeded(db, c, env).value;
            && AddsFirsts(db.users, after.users,
                          [(c.superAdminEmail, User(None, true, env.secret))]
                          + seq(|c.demoUsers|, i requires 0 <= i < |c.demoUsers| =>
                                  (c.demoUsers[i].0, User(Some(DemoTenant(db, c).code), false, env.secret))))
            && after.userRoles ==
               db.userRoles + NewRoles(db.users, [(c.superAdminEmail, c.superAdminRole)] + c.demoUsers)
  {
    var tenant := DemoTenant(db, c);
    var n := |c.demoUsers|;
    SeededIs(db, c, env);
    LastStagesApart(Prepared(db, c, env), c, tenant, env);
    AccountsAreExact(WithRoles(WithPermissions(db, c), c), Prepared(db, c, env), c, tenant, env, n);
    assert c.demoUsers[..n] == c.demoUsers && AccountRoles(c)[..n + 1] == AccountRoles(c);
    assert Accounts(c, tenant, env)[..n + 1] == Accounts(c, tenant, env);
    AddMissingIsExact(db.users, Accounts(c, tenant, env));
    assert Accounts(c, tenant, env) ==
           [(c.superAdminEmail, User(None, true, env.secret))]
           + seq(|c.demoUsers|, i requires 0 <= i < |c.demoUsers| =>
                   (c.demoUsers[i].0, User(Some(tenant.code), false, env.secret)));
  }

  /** In particular: a new super administrator holds the role, belongs to no tenant and is a platform user. */
  lemma SuperAdministratorCanAct(db: Database, c: Catalogue, env: Environment)
    requires Seeded(db, c, env).Success? && c.superAdminEmail !in db.users
    ensures var after := Seeded(db, c, env).value;
            && (c.superAdminEmail, c.superAdminRole) in after.userRoles
            && c.superAdminEmail in after.users
            && after.users[c.superAdminEmail] == User(None, true, env.secret)
  {
    SeededUsers(db, c, env);
    var roles := [(c.superAdminEmail, c.superAdminRole)] + c.demoUsers;
    assert IsFirst(roles, 0) && roles[0] in NewRoles(db.users, roles);
    var accounts := Accounts(c, DemoTenant(db, c), env);
    assert IsFirst(accounts, 0) && accounts[0].0 !in db.users && accounts[0] in accounts;
  }

  /** Exactly which tenant and fiscal year a successful seeding adds: each only if it is missing. */
  lemma SeededTenantAndYear(db: Database, c: Catalogue, env: Environment)
    requires Seeded(db, c, env).Success?
    ensures var after := Seeded(db, c, env).value;
            var tenant := DemoTenant(db, c);
            && after.tenants ==
               db.tenants + (if exists t :: t in db.tenants && (t.code == c.tenant.code || t.slug == c.tenant.slug)
                             then [] else [c.tenant])
            && tenant in after.tenants && (tenant.code == c.tenant.code || tenant.slug == c.tenant.slug)
            && after.fiscalYears ==
               db.fiscalYears + (if exists y :: y in db.fiscalYears && y.tenant == tenant.code && y.active
                                 then [] else [FiscalYear(tenant.code, env.FiscalYearCode(), true)])
  {
    var found := MatchingTenants(db.tenants, c.tenant);
    var active := ActiveYears(db.fiscalYears, DemoTenant(db, c).code);
    assert found != [] ==> found[0] in found;
    ActiveYearsTell(db.fiscalYears, DemoTenant(db, c).code);
    assert active != [] ==> active[0] in active;
    SeededIs(db, c, env);
    LastStagesApart(Prepared(db, c, env), c, DemoTenant(db, c), env);
    assert db.tenants + [] == db.tenants && db.fiscalYears + [] == db.fiscalYears;
  }

  lemma {:induction false} ActiveYearsTell(years: seq<FiscalYear>, tenant: string)
    ensures forall y :: y in ActiveYears(years, tenant) <==> y in years && y.tenant == tenant && y.active
  {
    if years == [] {
    } else {
      var n := |years| - 1;
      ActiveYearsTell(years[..n], tenant);
      assert years == years[..n] + [years[n]];
    }
  }

  /** Exactly which categories, units and conversions a successful seeding adds. */
  lemma SeededUnits(db: Database, c: Catalogue, env: Environment)
    requires Seeded(db, c, env).Success?
    ensures var after := Seeded(db, c, env).value;
            && AddsFirsts(db.categories, after.categories, AllCategories(c.categories))
            && AddsFirsts(db.units, after.units, AllUnits(c.categories))
            && AddsFirsts(db.conversions, after.conversions, AllConversions(c.categories))
  {
    SeededIs(db, c, env);
    LastStagesApart(Prepared(db, c, env), c, DemoTenant(db, c), env);
    CategoriesAreExact(WithDemoUsers(Prepared(db, c, env), c.demoUsers, DemoTenant(db, c), env), c.categories);
    AddMissingIsExact(db.categories, AllCategories(c.categories));
    AddMissingIsExact(db.units, AllUnits(c.categories));
    AddMissingIsExact(db.conversions, AllConversions(c.categories));
  }

  predicate IsDemo(t: Tenant, wanted: Tenant) {
    t.code == wanted.code || t.slug == wanted.slug
  }

  predicate IsActiveOf(y: FiscalYear, tenant: string) {
    y.tenant == tenant && y.active
  }

  lemma {:induction false} TwoMatches(tenants: seq<Tenant>, wanted: Tenant) returns (i: nat, j: nat)
    requires |MatchingTenants(tenants, wanted)| > 1
    ensures i < j < |tenants| && IsDemo(tenants[i], wanted) && IsDemo(tenants[j], wanted)
  {
    var n := |tenants| - 1;
    var before := MatchingTenants(tenants[..n], wanted);
    if |before| > 1 {
      i, j := TwoMatches(tenants[..n], wanted);
    } else {
      assert before[0] in before;
      i :| i < n && tenants[..n][i] == before[0];
      j := n;
    }
  }

  lemma {:induction false} TwoMatchesCount(tenants: seq<Tenant>, wanted: Tenant, i: nat, j: nat)
    requires i < j < |tenants| && IsDemo(tenants[i], wanted) && IsDemo(tenants[j], wanted)
    ensures |MatchingTenants(tenants, wanted)| > 1
  {
    var n := |tenants| - 1;
    if j < n {
      TwoMatchesCount(tenants[..n], wanted, i, j);
    } else {
      assert tenants[..n][i] in tenants[..n];
      assert tenants[i] in MatchingTenants(tenants[..n], wanted);
    }
  }

  lemma MatchesCount(tenants: seq<Tenant>, wanted: Tenant)
    ensures |MatchingTenants(tenants, wanted)| > 1 <==>
            exists i, j :: 0 <= i < j < |tenants| && IsDemo(tenants[i], wanted) && IsDemo(tenants[j], wanted)
  {
    if |MatchingTenants(tenants, wanted)| > 1 {
      var i, j := TwoMatches(tenants, wanted);
    }
    if i, j :| 0 <= i < j < |tenants| && IsDemo(tenants[i], wanted) && IsDemo(tenants[j], wanted) {
      TwoMatchesCount(tenants, wanted, i, j);
    }
  }

  lemma {:induction false} TwoActive(years: seq<FiscalYear>, tenant: string) returns (i: nat, j: nat)
    requires |ActiveYears(years, tenant)| > 1
    ensures i < j < |years| && IsActiveOf(years[i], tenant) && IsActiveOf(years[j], tenant)
  {
    var n := |years| - 1;
    var before := ActiveYears(years[..n], tenant);
    ActiveYearsTell(years[..n], tenant);
    if |before| > 1 {
      i, j := TwoActive(years[..n], tenant);
    } else {
      assert before[0] in before;
      i :| i < n && years[..n][i] == before[0];
      j := n;
    }
  }

  lemma {:induction false} TwoActiveCount(years: seq<FiscalYear>, tenant: string, i: nat, j: nat)
    requires i < j < |years| && IsActiveOf(years[i], tenant) && IsActiveOf(years[j], tenant)
    ensures |ActiveYears(years, tenant)| > 1
  {
    var n := |years| - 1;
    if j < n {
      TwoActiveCount(years[..n], tenant, i, j);
    } else {
      ActiveYearsTell(years[..n], tenant);
      assert years[..n][i] in years[..n];
      assert years[i] in ActiveYears(years[..n], tenant);
    }
  }

  lemma ActiveCount(years: seq<FiscalYear>, tenant: string)
    ensures |ActiveYears(years, tenant)| > 1 <==>
            exists i, j :: 0 <= i < j < |years| && IsActiveOf(years[i], tenant) && IsActiveOf(years[j], tenant)
  {
    if |ActiveYears(years, tenant)| > 1 {
      var i, j := TwoActive(years, tenant);
    }
    if i, j :| 0 <= i < j < |years| && IsActiveOf(years[i], tenant) && IsActiveOf(years[j], tenant) {
      TwoActiveCount(years, tenant, i, j);
    }
  }

  /** Exactly when seeding fails and how, in terms of the rows: two tenants with the demo code or slug, two active years
      of the demo tenant, or, with none active, an inactive year of that tenant with the new year's code. */
  lemma FailsIff(db: Database, c: Catalogue, env: Environment)
    ensures var tenant := DemoTenant(db, c).code;
            var twoTenants :=
              exists i, j ::
                0 <= i < j < |db.tenants| && IsDemo(db.tenants[i], c.tenant) && IsDemo(db.tenants[j], c.tenant);
            var twoYears :=
              exists i, j ::
                && 0 <= i < j < |db.fiscalYears|
                && IsActiveOf(db.fiscalYears[i], tenant) && IsActiveOf(db.fiscalYears[j], tenant);
            var inTheWay :=
              && (forall y :: y in db.fiscalYears ==> !IsActiveOf(y, tenant))
              && exists y :: y in db.fiscalYears && y.tenant == tenant && y.code == env.FiscalYearCode();
            && (Seeded(db, c, env) == Failure(MultipleResultsFound) <==> twoTenants || twoYears)
            && (Seeded(db, c, env) == Failure(IntegrityError) <==> !twoTenants && inTheWay)
  {
    var tenant := DemoTenant(db, c).code;
    MatchesCount(db.tenants, c.tenant);
    ActiveCount(db.fiscalYears, tenant);
    ActiveYearsTell(db.fiscalYears, tenant);
    var active := ActiveYears(db.fiscalYears, tenant);
    assert active != [] ==> active[0] in active;
    FailureIs(db, c, env);
  }

  lemma FailureIs(db: Database, c: Catalogue, env: Environment)
    ensures var tenant := DemoTenant(db, c).code;
            && (Seeded(db, c, env) == Failure(MultipleResultsFound) <==>
                |MatchingTenants(db.tenants, c.tenant)| > 1 || |ActiveYears(db.fiscalYears, tenant)| > 1)
            && (Seeded(db, c, env) == Failure(IntegrityError) <==>
                && |MatchingTenants(db.tenants, c.tenant)| <= 1 && ActiveYears(db.fiscalYears, tenant) == []
                && YearExists(db.fiscalYears, tenant, env.FiscalYearCode()))
  {
    var db3 := WithSuperAdmin(WithRoles(WithPermissions(db, c), c), c, env);
    assert db3.tenants == db.tenants && db3.fiscalYears == db.fiscalYears;
    if |MatchingTenants(db.tenants, c.tenant)| <= 1 {
      TenantIs(db3, c);
      assert DemoTenant(db3, c) == DemoTenant(db, c);
      YearFailureIs(WithTenant(db3, c).value.0, DemoTenant(db, c), env);
    }
  }

  lemma TenantIs(db: Database, c: Catalogue)
    requires |MatchingTenants(db.tenants, c.tenant)| <= 1
    ensures WithTenant(db, c).Success?
    ensures var (after, tenant) := WithTenant(db, c).value;
            tenant == DemoTenant(db, c) && after.fiscalYears == db.fiscalYears
  {
  }

  lemma YearFailureIs(db: Database, tenant: Tenant, env: Environment)
    ensures var active := ActiveYears(db.fiscalYears, tenant.code);
            && (WithFiscalYear(db, tenant, env) == Failure(MultipleResultsFound) <==> |active| > 1)
            && (WithFiscalYear(db, tenant, env) == Failure(IntegrityError) <==>
                active == [] && YearExists(db.fiscalYears, tenant.code, env.FiscalYearCode()))
  {
  }
}
