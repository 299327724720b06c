/** Hierarchical settings: the weighted resolver, the cascade it stands for, and the upsert it relies on. */
module Settings {
  import opened Common

  datatype Scope = Scope(tenant: Option<Uuid>, unit: Option<Uuid>, modul: Option<string>)

  /** A settings row; `value` is an opaque JSON value. */
  datatype Setting = Setting(scope: Scope, key: string, value: nat)

  datatype SettingsError = MultipleResultsFound

  /** A lookup: the place asking, and the key. */
  datatype Query = Query(at: Scope, key: string)

  /* ---------- Repository ---------- */

  /** The rows of a filter, in table order. */
  function Rows(table: seq<Setting>, wanted: Setting -> bool): (found: seq<Setting>)
    ensures forall s :: s in found <==> s in table && wanted(s)
  {
    if table == [] then []
    else (if wanted(table[0]) then [table[0]] else []) + Rows(table[1..], wanted)
  }

  function ListCandidates(table: seq<Setting>, tenant: Option<Uuid>, key: string): seq<Setting> {
    Rows(table, (s: Setting) => s.key == key && (s.scope.tenant == None || s.scope.tenant == tenant))
  }

  predicate IsAt(s: Setting, scope: Scope, key: string) {
    s.scope == scope && s.key == key
  }

  /** The positions of the rows of exactly this scope and key. */
  function Positions(table: seq<Setting>, scope: Scope, key: string): (found: seq<nat>)
    ensures forall i: nat :: i in found <==> i < |table| && IsAt(table[i], scope, key)
    ensures forall i, j :: 0 <= i < j < |found| ==> found[i] < found[j]
  {
    if table == [] then []
    else
      var n := |table| - 1;
      var before := Positions(table[..n], scope, key);
      assert forall i: nat :: i < n ==> table[..n][i] == table[i];
      assert forall i :: 0 <= i < |before| ==> before[i] in before;
      before + (if IsAt(table[n], scope, key) then [n] else [])
  }

  /* ---------- Resolver ---------- */

  /** `_specificity`. */
  function Specificity(s: Scope): nat {
    (if s.tenant.Some? then 1 else 0) + (if s.unit.Some? then 2 else 0) + (if s.modul.Some? then 4 else 0)
  }

  /** Python's `max`: the first row of greatest specificity. */
  function Best(rows: seq<Setting>): (best: Setting)
    requires rows != []
    ensures best in rows
    ensures forall s :: s in rows ==> Specificity(s.scope) <= Specificity(best.scope)
  {
    if |rows| == 1 then rows[0]
    else
      var rest := Best(rows[1..]);
      if Specificity(rows[0].scope) >= Specificity(rest.scope) then rows[0] else rest
  }

  predicate Applicable(s: Setting, q: Query) {
    (s.scope.unit == None || s.scope.unit == q.at.unit) && (s.scope.modul == None || s.scope.modul == q.at.modul)
  }

  /** `resolve`, up to the default: the winning row. */
  function Resolve(table: seq<Setting>, q: Query): Option<Setting> {
    var applicable := Rows(ListCandidates(table, q.at.tenant, q.key), (s: Setting) => Applicable(s, q));
    if applicable == [] then None else Some(Best(applicable))
  }

  /** `resolve` itself. */
  function ResolveValue(table: seq<Setting>, q: Query, default: nat): nat {
    match Resolve(table, q)
    case None => default
    case Some(s) => s.value
  }

  /* ---------- The cascade ---------- */

  /** One row at most per scope and key, nulls being equal. */
  ghost predicate UniqueScopes(table: seq<Setting>) {
    forall i, j :: 0 <= i < j < |table| ==> !IsAt(table[j], table[i].scope, table[i].key)
  }

  /** The row of exactly this scope, if there is one. */
  function Exact(table: seq<Setting>, scope: Scope, key: string): Option<Setting> {
    if table == [] then None
    else if IsAt(table[0], scope, key) then Some(table[0])
    else Exact(table[1..], scope, key)
  }

  /** The eight scopes that can answer a query, most specific first: module over unit over tenant. A component the
      query itself lacks makes two of them coincide. */
  function Ladder(at: Scope): seq<Scope> {
    [Scope(at.tenant, at.unit, at.modul),
     Scope(None, at.unit, at.modul),
     Scope(at.tenant, None, at.modul),
     Scope(None, None, at.modul),
     Scope(at.tenant, at.unit, None),
     Scope(None, at.unit, None),
     Scope(at.tenant, None, None),
     Scope(None, None, None)]
  }

  /** The ladder the documentation describes: module and plant, module and tenant, plant, tenant, platform. */
  function DocumentedLadder(at: Scope): seq<Scope> {
    [Scope(at.tenant, at.unit, at.modul),
     Scope(at.tenant, None, at.modul),
     Scope(at.tenant, at.unit, None),
     Scope(at.tenant, None, None),
     Scope(None, None, None)]
  }

  /** The first rung with a row, from some rung on. */
  function FirstRung(table: seq<Setting>, ladder: seq<Scope>, key: string, from: nat): (i: nat)
    requires from <= |ladder|
    ensures from <= i <= |ladder|
    ensures i < |ladder| ==> Exact(table, ladder[i], key).Some?
    ensures forall j :: from <= j < i ==> Exact(table, ladder[j], key) == None
    decreases |ladder| - from
  {
    if from == |ladder| || Exact(table, ladder[from], key).Some? then from
    else FirstRung(table, ladder, key, from + 1)
  }

  /** Exact lookups from the top of the ladder down. */
  function Cascade(table: seq<Setting>, ladder: seq<Scope>, key: string): Option<Setting> {
    var i := FirstRung(table, ladder, key, 0);
    if i == |ladder| then None else Exact(table, ladder[i], key)
  }

  /** A row answers the query at all. */
  predicate Answers(s: Setting, q: Query) {
    s.key == q.key && (s.scope.tenant == None || s.scope.tenant == q.at.tenant) && Applicable(s, q)
  }

  lemma ResolveIsMost(table: seq<Setting>, q: Query)
    ensures Resolve(table, q) == None <==> forall s :: s in table ==> !Answers(s, q)
    ensures Resolve(table, q).Some? ==>
              && Resolve(table, q).value in table && Answers(Resolve(table, q).value, q)
              && forall s :: s in table && Answers(s, q) ==>
                   Specificity(s.scope) <= Specificity(Resolve(table, q).value.scope)
  {
    var applicable := Rows(ListCandidates(table, q.at.tenant, q.key), (s: Setting) => Applicable(s, q));
    assert forall s :: s in applicable <==> s in table && Answers(s, q);
    assert applicable == [] || applicable[0] in applicable;
  }

  lemma RowsCons(s: Setting, rest: seq<Setting>, wanted: Setting -> bool)
    ensures Rows([s] + rest, wanted) == if wanted(s) then [s] + Rows(rest, wanted) else Rows(rest, wanted)
  {
    assert ([s] + rest)[1..] == rest;
  }

  lemma BestCons(s: Setting, rest: seq<Setting>)
    requires rest != []
    ensures Best([s] + rest) == if Specificity(s.scope) >= Specificity(Best(rest).scope) then s else Best(rest)
  {
    assert ([s] + rest)[1..] == rest;
  }

  /** Filtering twice is filtering once by both. */
  lemma {:induction false} RowsTwice(
    table: seq<Setting>, first: Setting -> bool, second: Setting -> bool, both: Setting -> bool)
    requires forall s :: both(s) <==> first(s) && second(s)
    ensures Rows(Rows(table, first), second) == Rows(table, both)
  {
    if table != [] {
      var s, rest := table[0], table[1..];
      assert table == [s] + rest;
      RowsTwice(rest, first, second, both);
      RowsCons(s, rest, first);
      RowsCons(s, rest, both);
      RowsCons(s, Rows(rest, first), second);
    }
  }

  /** Every earlier row of the filter is less specific. */
  ghost predicate EarlierAreLess(table: seq<Setting>, wanted: Setting -> bool, i: nat)
    requires i < |table|
  {
    forall j :: 0 <= j < i && wanted(table[j]) ==> Specificity(table[j].scope) < Specificity(table[i].scope)
  }

  lemma EarlierAreLessCons(s: Setting, rest: seq<Setting>, wanted: Setting -> bool, k: nat)
    requires k < |rest| && EarlierAreLess(rest, wanted, k)
    requires wanted(s) ==> Specificity(s.scope) < Specificity(rest[k].scope)
    ensures EarlierAreLess([s] + rest, wanted, k + 1)
  {
  }

  /** The best of a filter's rows is the first in the table of its specificity, all earlier ones being less specific. */
  lemma {:induction false} BestIsFirst(table: seq<Setting>, wanted: Setting -> bool) returns (i: nat)
    requires Rows(table, wanted) != []
    ensures i < |table| && table[i] == Best(Rows(table, wanted)) && EarlierAreLess(table, wanted, i)
  {
    var s, rest := table[0], table[1..];
    assert table == [s] + rest;
    RowsCons(s, rest, wanted);
    var others := Rows(rest, wanted);
    if others == [] {
      return 0;
    }
    BestCons(s, others);
    if wanted(s) && Specificity(s.scope) >= Specificity(Best(others).scope) {
      return 0;
    }
    var k := BestIsFirst(rest, wanted);
    EarlierAreLessCons(s, rest, wanted, k);
    return k + 1;
  }

  /** In any table, duplicate scopes included, the first of the most specific answering rows wins. */
  lemma FirstOfTheMostSpecificWins(table: seq<Setting>, q: Query) returns (i: nat)
    requires Resolve(table, q).Some?
    ensures i < |table| && Resolve(table, q) == Some(table[i]) && Answers(table[i], q)
    ensures forall j :: 0 <= j < i && Answers(table[j], q) ==>
                          Specificity(table[j].scope) < Specificity(table[i].scope)
  {
    var candidate := (s: Setting) => s.key == q.key && (s.scope.tenant == None || s.scope.tenant == q.at.tenant);
    var applicable := (s: Setting) => Applicable(s, q);
    var answers := (s: Setting) => Answers(s, q);
    RowsTwice(table, candidate, applicable, answers);
    i := BestIsFirst(table, answers);
  }

  /** Specificity tells the scopes that answer one query apart. */
  lemma SpecificityIsInjective(s: Setting, t: Setting, q: Query)
    requires Answers(s, q) && Answers(t, q) && Specificity(s.scope) == Specificity(t.scope)
    ensures s.scope == t.scope
  {
  }

  lemma UniqueRow(table: seq<Setting>, s: Setting, t: Setting)
    requires UniqueScopes(table) && s in table && t in table && s.scope == t.scope && s.key == t.key
    ensures s == t
  {
    var i :| 0 <= i < |table| && table[i] == s;
    var j :| 0 <= j < |table| && table[j] == t;
    assert IsAt(table[j], table[i].scope, table[i].key) && IsAt(table[i], table[j].scope, table[j].key);
  }

  lemma {:induction false} ExactIsRow(table: seq<Setting>, scope: Scope, key: string)
    ensures Exact(table, scope, key) == None <==> forall s :: s in table ==> !IsAt(s, scope, key)
    ensures Exact(table, scope, key).Some? ==>
              Exact(table, scope, key).value in table && IsAt(Exact(table, scope, key).value, scope, key)
  {
    if table != [] && !IsAt(table[0], scope, key) {
      ExactIsRow(table[1..], scope, key);
    }
  }

  /** The first rung on which an answering row stands. */
  function Rung(s: Setting, q: Query): (r: nat)
    requires Answers(s, q)
    ensures r < 8 && Ladder(q.at)[r] == s.scope
  {
    (if s.scope.tenant == q.at.tenant then 0 else 1)
    + (if s.scope.unit == q.at.unit then 0 else 2)
    + (if s.scope.modul == q.at.modul then 0 else 4)
  }

  /** No rung above a row's first one is less specific. */
  lemma HigherRungs(s: Setting, q: Query, i: nat)
    requires Answers(s, q) && i <= Rung(s, q)
    ensures Specificity(Ladder(q.at)[i]) >= Specificity(s.scope)
  {
  }

  /** Resolution is the cascade of exact lookups, in every table without duplicate scopes. */
  lemma ResolveIsCascade(table: seq<Setting>, q: Query)
    requires UniqueScopes(table)
    ensures Resolve(table, q) == Cascade(table, Ladder(q.at), q.key)
  {
    ResolveIsMost(table, q);
    if Resolve(table, q) == None {
      NothingOnTheLadder(table, q);
    } else {
      var best := Resolve(table, q).value;
      var r := Rung(best, q);
      ExactIsRow(table, Ladder(q.at)[r], q.key);
      var first := FirstOnTheLadder(table, q, r);
      assert Specificity(first.scope) == Specificity(best.scope);
      SpecificityIsInjective(first, best, q);
      UniqueRow(table, first, best);
    }
  }

  lemma NothingOnTheLadder(table: seq<Setting>, q: Query)
    requires forall s :: s in table ==> !Answers(s, q)
    ensures Cascade(table, Ladder(q.at), q.key) == None
  {
    forall i | 0 <= i < 8
      ensures Exact(table, Ladder(q.at)[i], q.key) == None
    {
      ExactIsRow(table, Ladder(q.at)[i], q.key);
      OnTheLadder(q, i);
    }
  }

  lemma OnTheLadder(q: Query, i: nat)
    requires i < 8
    ensures forall s :: IsAt(s, Ladder(q.at)[i], q.key) ==> Answers(s, q)
  {
  }

  /** If rung `r` has a row, the cascade answers with a row of that rung or a higher one. */
  lemma FirstOnTheLadder(table: seq<Setting>, q: Query, r: nat) returns (first: Setting)
    requires r < 8 && Exact(table, Ladder(q.at)[r], q.key).Some?
    ensures Cascade(table, Ladder(q.at), q.key) == Some(first)
    ensures first in table && Answers(first, q)
    ensures forall s :: Answers(s, q) && Rung(s, q) == r ==> Specificity(first.scope) >= Specificity(s.scope)
  {
    var i := FirstRung(table, Ladder(q.at), q.key, 0);
    ExactIsRow(table, Ladder(q.at)[i], q.key);
    OnTheLadder(q, i);
    first := Exact(table, Ladder(q.at)[i], q.key).value;
    forall s | Answers(s, q) && Rung(s, q) == r
      ensures Specificity(first.scope) >= Specificity(s.scope)
    {
      HigherRungs(s, q, i);
    }
  }

  /** Row order is irrelevant: the same rows in another order resolve every query to the same row. */
  lemma ResolveIgnoresOrder(table: seq<Setting>, table': seq<Setting>, q: Query)
    requires UniqueScopes(table) && multiset(table) == multiset(table')
    ensures Resolve(table, q) == Resolve(table', q)
  {
    forall s
      ensures s in table <==> s in table'
    {
      assert s in multiset(table) <==> s in multiset(table');
    }
    ResolveIsMost(table, q);
    ResolveIsMost(table', q);
    if Resolve(table, q).Some? {
      var best, best' := Resolve(table, q).value, Resolve(table', q).value;
      SpecificityIsInjective(best, best', q);
      UniqueRow(table, best, best');
    }
  }

  /* ---------- Upsert ---------- */

  /** The table after an upsert and the value it replaced, or the error of `scalar_one_or_none` on two rows. */
  function UpsertEffect(table: seq<Setting>, scope: Scope, key: string, value: nat)
    : (seq<Setting>, Result<Option<nat>, SettingsError>)
  {
    var found := Positions(table, scope, key);
    if |found| > 1 then (table, Failure(MultipleResultsFound))
    else if found == [] then (table + [Setting(scope, key, value)], Success(None))
    else
      assert found[0] in found;
      (table[found[0] := table[found[0]].(value := value)], Success(Some(table[found[0]].value)))
  }

  /** The row at position `i`, and no other, has this scope and key. */
  ghost predicate IsOnly(table: seq<Setting>, i: nat, scope: Scope, key: string) {
    && i < |table| && IsAt(table[i], scope, key)
    && forall j :: 0 <= j < |table| && IsAt(table[j], scope, key) ==> j == i
  }

  lemma SeveralPositions(table: seq<Setting>, scope: Scope, key: string)
    ensures |Positions(table, scope, key)| > 1 <==>
            exists i, j :: 0 <= i < j < |table| && IsAt(table[i], scope, key) && IsAt(table[j], scope, key)
  {
    var found := Positions(table, scope, key);
    if |found| > 1 {
      assert found[0] in found && found[1] in found;
    }
    if i, j :| 0 <= i < j < |table| && IsAt(table[i], scope, key) && IsAt(table[j], scope, key) {
      assert i in found && j in found;
    }
  }

  lemma OnePosition(table: seq<Setting>, scope: Scope, key: string, i: nat)
    ensures Positions(table, scope, key) == [i] <==> IsOnly(table, i, scope, key)
  {
    var found := Positions(table, scope, key);
    SeveralPositions(table, scope, key);
    assert IsOnly(table, i, scope, key) || found == [i] ==> i in found;
  }

  lemma NoPosition(table: seq<Setting>, scope: Scope, key: string)
    ensures Positions(table, scope, key) == [] <==> forall i :: 0 <= i < |table| ==> !IsAt(table[i], scope, key)
  {
    var found := Positions(table, scope, key);
    if found == [] {
      forall i: nat | i < |table|
        ensures !IsAt(table[i], scope, key)
      {
        assert i !in found;
      }
    } else {
      assert found[0] in found;
    }
  }

  lemma PositionsTell(table: seq<Setting>, scope: Scope, key: string)
    ensures var found := Positions(table, scope, key);
            && (|found| > 1 <==>
                exists i, j :: 0 <= i < j < |table| && IsAt(table[i], scope, key) && IsAt(table[j], scope, key))
            && (forall i: nat :: found == [i] <==> IsOnly(table, i, scope, key))
            && (found == [] <==> forall i :: 0 <= i < |table| ==> !IsAt(table[i], scope, key))
  {
    SeveralPositions(table, scope, key);
    NoPosition(table, scope, key);
    forall i: nat
      ensures Positions(table, scope, key) == [i] <==> IsOnly(table, i, scope, key)
    {
      OnePosition(table, scope, key, i);
    }
  }

  class SettingsService {
    var table: seq<Setting>

    method Find(scope: Scope, key: string) returns (found: Result<Option<nat>, SettingsError>)
      ensures found.Failure? <==>
              exists i, j :: 0 <= i < j < |table| && IsAt(table[i], scope, key) && IsAt(table[j], scope, key)
      ensures forall i: nat :: found == Success(Some(i)) <==> IsOnly(table, i, scope, key)
      ensures found == Success(None) <==> forall i :: 0 <= i < |table| ==> !IsAt(table[i], scope, key)
    {
      var positions := Positions(table, scope, key);
      PositionsTell(table, scope, key);
      if |positions| > 1 {
        return Failure(MultipleResultsFound);
      }
      return Success(if positions == [] then None else Some(positions[0]));
    }

    method Upsert(scope: Scope, key: string, value: nat) returns (replaced: Result<Option<nat>, SettingsError>)
      modifies this
      ensures (table, replaced) == UpsertEffect(old(table), scope, key, value)
    {
      var existing := Find(scope, key);
      if existing.Failure? {
        PositionsTell(table, scope, key);
        assert existing.error.MultipleResultsFound?;
        return Failure(existing.error);
      }
      if existing.value.Some? {
        var i := existing.value.value;
        PositionsTell(table, scope, key);
        var oldValue := table[i].value;
        table := table[i := table[i].(value := value)];
        return Success(Some(oldValue));
      }
      PositionsTell(table, scope, key);
      table := table + [Setting(scope, key, value)];
      return Success(None);
    }
  }

  lemma UniqueMeansOnePosition(table: seq<Setting>, scope: Scope, key: string)
    requires UniqueScopes(table)
    ensures |Positions(table, scope, key)| <= 1
  {
    var found := Positions(table, scope, key);
    assert |found| > 1 ==> found[0] in found && found[1] in found;
    forall i, j | i in found && j in found
      ensures i == j
    {
      assert IsAt(table[j], table[i].scope, table[i].key) && IsAt(table[i], table[j].scope, table[j].key);
    }
  }

  lemma AppendKeepsUnique(table: seq<Setting>, written: Setting)
    requires UniqueScopes(table) && forall s :: s in table ==> !IsAt(s, written.scope, written.key)
    ensures UniqueScopes(table + [written])
  {
    forall i, j | 0 <= i < j < |table| + 1
      ensures !IsAt((table + [written])[j], (table + [written])[i].scope, (table + [written])[i].key)
    {
      assert table[i] in table;
    }
  }

  lemma OverwriteKeepsUnique(table: seq<Setting>, k: nat, written: Setting)
    requires UniqueScopes(table) && k < |table| && IsAt(table[k], written.scope, written.key)
    ensures UniqueScopes(table[k := written])
    ensures forall s :: s in table[k := written] <==>
                        s == written || (s in table && !IsAt(s, written.scope, written.key))
  {
    var table' := table[k := written];
    assert table'[k] == written;
    forall i | 0 <= i < |table| && i != k
      ensures !IsAt(table[i], written.scope, written.key)
    {
      assert if i < k then !IsAt(table[k], table[i].scope, table[i].key)
             else !IsAt(table[i], table[k].scope, table[k].key);
    }
    forall s | s in table && !IsAt(s, written.scope, written.key)
      ensures s in table'
    {
      var i :| 0 <= i < |table| && table[i] == s;
      assert table'[i] == s;
    }
  }

  /** An upsert succeeds, keeps one row per scope, and changes no other row. */
  lemma UpsertKeepsUnique(table: seq<Setting>, scope: Scope, key: string, value: nat)
    requires UniqueScopes(table)
    ensures var (table', replaced) := UpsertEffect(table, scope, key, value);
            && replaced.Success?
            && UniqueScopes(table')
            && (forall s :: s in table' <==>
                  s == Setting(scope, key, value) || (s in table && !IsAt(s, scope, key)))
            && (replaced.value.Some? <==> exists s :: s in table && IsAt(s, scope, key))
            && (replaced.value.Some? ==> Setting(scope, key, replaced.value.value) in table)
  {
    var written := Setting(scope, key, value);
    var found := Positions(table, scope, key);
    UniqueMeansOnePosition(table, scope, key);
    NoPosition(table, scope, key);
    if found == [] {
      AppendKeepsUnique(table, written);
    } else {
      assert found[0] in found;
      OverwriteKeepsUnique(table, found[0], written);
      assert table[found[0]] in table;
    }
  }

  /** What an upsert does to every lookup: the written row wins exactly where it answers and nothing more specific
      already did; every other lookup, such as any of another tenant, keeps its answer. */
  lemma ResolveAfterUpsert(table: seq<Setting>, scope: Scope, key: string, value: nat, q: Query)
    requires UniqueScopes(table)
    ensures var written := Setting(scope, key, value);
            var before := Resolve(table, q);
            Resolve(UpsertEffect(table, scope, key, value).0, q) ==
            if Answers(written, q) && (before == None || Specificity(before.value.scope) <= Specificity(scope))
            then Some(written) else before
  {
    UpsertKeepsUnique(table, scope, key, value);
    var table' := UpsertEffect(table, scope, key, value).0;
    var written := Setting(scope, key, value);
    ResolveIsMost(table, q);
    ResolveIsMost(table', q);
    var before, after := Resolve(table, q), Resolve(table', q);
    assert written in table';
    if after.Some? {
      if after.value != written {
        assert after.value in table;
        SameWinner(table, before.value, after.value, written, q);
      } else if before.Some? && !IsAt(before.value, scope, key) {
        assert before.value in table';
      }
    }
  }

  lemma SameWinner(table: seq<Setting>, before: Setting, after: Setting, written: Setting, q: Query)
    requires UniqueScopes(table) && before in table && after in table && Answers(before, q) && Answers(after, q)
    requires forall s :: s in table && Answers(s, q) ==> Specificity(s.scope) <= Specificity(before.scope)
    requires !IsAt(after, written.scope, written.key)
    requires Answers(written, q) ==> Specificity(written.scope) <= Specificity(after.scope)
    requires forall s :: s in table && Answers(s, q) && !IsAt(s, written.scope, written.key) ==>
                           Specificity(s.scope) <= Specificity(after.scope)
    ensures before == after
    ensures Answers(written, q) ==> Specificity(written.scope) < Specificity(before.scope)
  {
    if IsAt(before, written.scope, written.key) {
      assert Answers(written, q);
      SpecificityIsInjective(after, before, q);
    } else {
      SpecificityIsInjective(after, before, q);
      UniqueRow(table, after, before);
    }
    if Answers(written, q) && Specificity(written.scope) == Specificity(after.scope) {
      SpecificityIsInjective(written, after, q);
    }
  }

  /** A lookup at exactly the written scope returns the value just written. */
  lemma UpsertThenResolve(table: seq<Setting>, scope: Scope, key: string, value: nat, default: nat)
    requires UniqueScopes(table)
    ensures ResolveValue(UpsertEffect(table, scope, key, value).0, Query(scope, key), default) == value
  {
    ResolveAfterUpsert(table, scope, key, value, Query(scope, key));
    ResolveIsMost(table, Query(scope, key));
  }

  /** The default is returned exactly when no row answers; otherwise the value of a most specific answering row. */
  lemma ResolveValueIs(table: seq<Setting>, q: Query, default: nat)
    ensures (forall s :: s in table ==> !Answers(s, q)) ==> ResolveValue(table, q, default) == default
    ensures (exists s :: s in table && Answers(s, q)) ==>
              exists s ::
                && s in table && Answers(s, q) && ResolveValue(table, q, default) == s.value
                && forall t :: t in table && Answers(t, q) ==> Specificity(t.scope) <= Specificity(s.scope)
  {
    ResolveIsMost(table, q);
  }

  /** Which rows answer a query: those of its key whose tenant, unit and module are each absent or the query's. */
  lemma AnswersIff(s: Setting, q: Query)
    ensures Answers(s, q) <==>
            && s.key == q.key
            && s.scope.tenant in {None, q.at.tenant}
            && s.scope.unit in {None, q.at.unit}
            && s.scope.modul in {None, q.at.modul}
  {
  }

  /** A write that belongs to a tenant is invisible to every other tenant. */
  lemma UpsertStaysInTenant(table: seq<Setting>, scope: Scope, key: string, value: nat, q: Query)
    requires UniqueScopes(table) && scope.tenant.Some? && q.at.tenant != scope.tenant
    ensures Resolve(UpsertEffect(table, scope, key, value).0, q) == Resolve(table, q)
  {
    ResolveAfterUpsert(table, scope, key, value, q);
  }

  /** The table after a sequence of upserts. */
  function Upserts(writes: seq<Setting>): seq<Setting> {
    if writes == [] then []
    else
      var last := writes[|writes| - 1];
      UpsertEffect(Upserts(writes[..|writes| - 1]), last.scope, last.key, last.value).0
  }

  /** In every state the upserts reach, scopes are unique and every lookup is the cascade. */
  lemma {:induction false} ReachedTablesCascade(writes: seq<Setting>, q: Query)
    ensures UniqueScopes(Upserts(writes))
    ensures Resolve(Upserts(writes), q) == Cascade(Upserts(writes), Ladder(q.at), q.key)
  {
    if writes == [] {
    } else {
      ReachedTablesCascade(writes[..|writes| - 1], q);
      var last := writes[|writes| - 1];
      UpsertKeepsUnique(Upserts(writes[..|writes| - 1]), last.scope, last.key, last.value);
    }
    ResolveIsCascade(Upserts(writes), q);
  }

  /* ---------- The documented order ---------- */

  /** Rung `i` is a platform rung for a unit or module. */
  predicate IsPlatformRung(at: Scope, i: nat) {
    (i == 1 || i == 3 || i == 5) && Ladder(at)[i] != Scope(None, None, None)
  }

  /** Exact lookups find a platform row for a unit or module on a rung above which the tenant has none. */
  predicate Shadowed(table: seq<Setting>, q: Query) {
    && q.at.tenant.Some?
    && exists i: nat :: i < 6 && IsPlatformRung(q.at, i) && IsShadow(table, q, i)
  }

  predicate IsShadow(table: seq<Setting>, q: Query, i: nat)
    requires i < 8
  {
    && Exact(table, Ladder(q.at)[i], q.key).Some?
    && forall j :: 0 <= j < i && j % 2 == 0 ==> Exact(table, Ladder(q.at)[j], q.key) == None
  }

  /** The documented five-step order describes the resolver exactly when no platform row for a unit or module shadows
      the tenant's rows: the code also ranks such rows, above the tenant's own less specific ones. */
  lemma DocumentedOrderIff(table: seq<Setting>, q: Query)
    requires UniqueScopes(table)
    ensures Resolve(table, q) == Cascade(table, DocumentedLadder(q.at), q.key) <==> !Shadowed(table, q)
  {
    ShadowedOutranks(table, q);
    if Shadowed(table, q) {
      ShadowedDiffers(table, q);
    } else {
      UnshadowedAgrees(table, q);
    }
  }

  /** Some platform row for a unit or module is more specific than every row of the tenant. */
  ghost predicate Outranked(table: seq<Setting>, q: Query) {
    && q.at.tenant.Some?
    && exists s ::
         && s in table && Answers(s, q) && s.scope.tenant == None && s.scope != Scope(None, None, None)
         && forall t :: t in table && Answers(t, q) && t.scope.tenant.Some? ==>
                          Specificity(t.scope) < Specificity(s.scope)
  }

  /** What the lookups on the ladder say about specificity. */
  lemma ShadowedOutranks(table: seq<Setting>, q: Query)
    ensures Shadowed(table, q) <==> Outranked(table, q)
  {
    if q.at.tenant.Some? {
      if i: nat :| i < 6 && IsPlatformRung(q.at, i) && IsShadow(table, q, i) {
        ShadowOutranks(table, q, i);
      }
      if s :|
        && s in table && Answers(s, q) && s.scope.tenant == None && s.scope != Scope(None, None, None)
        && forall t :: t in table && Answers(t, q) && t.scope.tenant.Some? ==>
                         Specificity(t.scope) < Specificity(s.scope)
      {
        OutrankerShadows(table, q, s);
      }
    }
  }

  lemma ShadowOutranks(table: seq<Setting>, q: Query, i: nat)
    requires q.at.tenant.Some? && IsPlatformRung(q.at, i) && IsShadow(table, q, i)
    ensures Outranked(table, q)
  {
    ExactIsRow(table, Ladder(q.at)[i], q.key);
    OnTheLadder(q, i);
    var s := Exact(table, Ladder(q.at)[i], q.key).value;
    forall t | t in table && Answers(t, q) && t.scope.tenant.Some?
      ensures Specificity(t.scope) < Specificity(s.scope)
    {
      var r := Rung(t, q);
      ExactIsRow(table, Ladder(q.at)[r], q.key);
      TenantBelow(q, i, t);
    }
  }

  /** A tenant row whose first rung lies below a platform rung is less specific. */
  lemma TenantBelow(q: Query, i: nat, t: Setting)
    requires q.at.tenant.Some? && IsPlatformRung(q.at, i)
    requires Answers(t, q) && t.scope.tenant.Some? && Rung(t, q) >= i
    ensures Specificity(t.scope) < Specificity(Ladder(q.at)[i])
  {
  }

  lemma OutrankerShadows(table: seq<Setting>, q: Query, s: Setting)
    requires q.at.tenant.Some?
    requires s in table && Answers(s, q) && s.scope.tenant == None && s.scope != Scope(None, None, None)
    requires forall t :: t in table && Answers(t, q) && t.scope.tenant.Some? ==>
                           Specificity(t.scope) < Specificity(s.scope)
    ensures Shadowed(table, q)
  {
    var i := Rung(s, q);
    ExactIsRow(table, Ladder(q.at)[i], q.key);
    forall j | 0 <= j < i && j % 2 == 0
      ensures Exact(table, Ladder(q.at)[j], q.key) == None
    {
      ExactIsRow(table, Ladder(q.at)[j], q.key);
      OnTheLadder(q, j);
      HigherRungs(s, q, j);
    }
    assert IsPlatformRung(q.at, i) && IsShadow(table, q, i);
  }

  lemma ShadowedDiffers(table: seq<Setting>, q: Query)
    requires UniqueScopes(table) && Outranked(table, q)
    ensures Resolve(table, q) != Cascade(table, DocumentedLadder(q.at), q.key)
  {
    ResolveIsMost(table, q);
    ShadowWins(table, q, Resolve(table, q).value);
    var i := FirstRung(table, DocumentedLadder(q.at), q.key, 0);
    if i < 5 {
      ExactIsRow(table, DocumentedLadder(q.at)[i], q.key);
      DocumentedScope(q.at, i);
    }
  }

  lemma DocumentedScope(at: Scope, i: nat)
    requires i < 5
    ensures DocumentedLadder(at)[i].tenant == at.tenant || DocumentedLadder(at)[i] == Scope(None, None, None)
  {
  }

  /** Under a shadow the winner is a platform row for a unit or module. */
  lemma ShadowWins(table: seq<Setting>, q: Query, best: Setting)
    requires Outranked(table, q) && best in table && Answers(best, q)
    requires forall s :: s in table && Answers(s, q) ==> Specificity(s.scope) <= Specificity(best.scope)
    ensures best.scope.tenant == None && best.scope != Scope(None, None, None)
  {
  }

  lemma UnshadowedAgrees(table: seq<Setting>, q: Query)
    requires UniqueScopes(table) && !Outranked(table, q)
    ensures Resolve(table, q) == Cascade(table, DocumentedLadder(q.at), q.key)
  {
    ResolveIsMost(table, q);
    if Resolve(table, q).Some? {
      var best := Resolve(table, q).value;
      forall t | t in table && Answers(t, q) && t.scope.tenant.Some? && best.scope.tenant == None
        ensures Specificity(t.scope) < Specificity(best.scope)
      {
        if Specificity(t.scope) == Specificity(best.scope) {
          SpecificityIsInjective(t, best, q);
        }
      }
      DocumentedFirst(table, q, best);
    } else {
      forall i | 0 <= i < 5
        ensures Exact(table, DocumentedLadder(q.at)[i], q.key) == None
      {
        ExactIsRow(table, DocumentedLadder(q.at)[i], q.key);
        DocumentedAnswers(q, i);
      }
    }
  }

  lemma DocumentedAnswers(q: Query, i: nat)
    requires i < 5
    ensures forall s :: IsAt(s, DocumentedLadder(q.at)[i], q.key) ==> Answers(s, q)
  {
  }

  /** The winner, if its scope is documented, is what the documented cascade finds first. */
  lemma DocumentedFirst(table: seq<Setting>, q: Query, best: Setting)
    requires UniqueScopes(table) && best in table && Answers(best, q)
    requires forall s :: s in table && Answers(s, q) ==> Specificity(s.scope) <= Specificity(best.scope)
    requires best.scope.tenant.Some? || best.scope == Scope(None, None, None) || q.at.tenant == None
    ensures Cascade(table, DocumentedLadder(q.at), q.key) == Some(best)
  {
    var ladder := DocumentedLadder(q.at);
    var d := if best.scope.tenant == q.at.tenant then Rung(best, q) / 2 else 4;
    assert ladder[d] == best.scope;
    ExactIsRow(table, ladder[d], q.key);
    var i := FirstRung(table, ladder, q.key, 0);
    ExactIsRow(table, ladder[i], q.key);
    DocumentedAnswers(q, i);
    var first := Exact(table, ladder[i], q.key).value;
    assert i <= d;
    HigherDocumentedRungs(q, best, d, i);
    SpecificityIsInjective(first, best, q);
    UniqueRow(table, first, best);
  }

  lemma HigherDocumentedRungs(q: Query, best: Setting, d: nat, i: nat)
    requires Answers(best, q) && i <= d < 5
    requires d == if best.scope.tenant == q.at.tenant then Rung(best, q) / 2 else 4
    requires DocumentedLadder(q.at)[d] == best.scope
    ensures Specificity(DocumentedLadder(q.at)[i]) >= Specificity(best.scope)
  {
  }
}
