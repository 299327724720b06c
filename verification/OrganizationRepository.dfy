/** The bounded parent walk over the organization-unit table. */
module OrganizationRepository {
  import opened Common

  const MAX_DEPTH: nat := 10

  /** The `parent_id` column keyed by `id`; a parent may be missing from the table, and parents may form cycles. */
  type ParentTable = map<Uuid, Option<Uuid>>

  function ParentOf(parents: ParentTable, id: Uuid): Option<Uuid> {
    if id in parents then parents[id] else None
  }

  /** The unit reached from `start` by following `n` parent links, if there is one. */
  function Iterate(parents: ParentTable, start: Option<Uuid>, n: nat): Option<Uuid> {
    if n == 0 then start
    else match Iterate(parents, start, n - 1)
      case None => None
      case Some(id) => ParentOf(parents, id)
  }

  /** The units reached by fewer than `n` parent links. */
  function Visited(parents: ParentTable, start: Option<Uuid>, n: nat): set<Uuid> {
    set i | 0 <= i < n && Iterate(parents, start, i).Some? :: Iterate(parents, start, i).value
  }

  /** Closed under taking the parent. */
  ghost predicate Closed(parents: ParentTable, s: set<Uuid>) {
    forall id | id in s && id in parents && parents[id].Some? :: parents[id].value in s
  }

  /** `s` is the reflexive-transitive parent closure of `start`: the least closed set holding it. */
  ghost predicate IsClosure(parents: ParentTable, start: Uuid, s: set<Uuid>) {
    && start in s
    && Closed(parents, s)
    && forall t: set<Uuid> | start in t && Closed(parents, t) :: s <= t
  }

  function Closure(parents: ParentTable, start: Uuid): set<Uuid> {
    Visited(parents, Some(start), |parents| + 2)
  }

  /** `get_self_and_ancestor_ids`: the loop stops at the root, at a missing row, or at the depth bound. */
  method GetSelfAndAncestorIds(parents: ParentTable, organizationUnitId: Option<Uuid>) returns (ids: set<Uuid>)
    ensures ids == Visited(parents, organizationUnitId, 10)
  {
    if organizationUnitId == None {
      VisitedStops(parents, organizationUnitId, 0, MAX_DEPTH);
      return {};
    }
    ids := {};
    var currentId := organizationUnitId;
    var depth := 0;
    while currentId != None && depth < MAX_DEPTH
      invariant depth <= MAX_DEPTH
      invariant currentId == Iterate(parents, organizationUnitId, depth)
      invariant ids == Visited(parents, organizationUnitId, depth)
    {
      VisitedStep(parents, organizationUnitId, depth);
      ids := ids + {currentId.value};
      if currentId.value !in parents {
        VisitedStops(parents, organizationUnitId, depth + 1, MAX_DEPTH);
        return;
      }
      currentId := parents[currentId.value];
      depth := depth + 1;
    }
    if currentId == None {
      VisitedStops(parents, organizationUnitId, depth, MAX_DEPTH);
    }
  }

  lemma {:induction false} IterateStops(parents: ParentTable, start: Option<Uuid>, m: nat, n: nat)
    requires m <= n && Iterate(parents, start, m) == None
    ensures Iterate(parents, start, n) == None
  {
    if m == n {
    } else {
      IterateStops(parents, start, m, n - 1);
    }
  }

  lemma VisitedStep(parents: ParentTable, start: Option<Uuid>, n: nat)
    ensures Iterate(parents, start, n) == None ==> Visited(parents, start, n + 1) == Visited(parents, start, n)
    ensures Iterate(parents, start, n).Some? ==>
              Visited(parents, start, n + 1) == Visited(parents, start, n) + {Iterate(parents, start, n).value}
  {
    forall id | id in Visited(parents, start, n)
      ensures id in Visited(parents, start, n + 1)
    {
    }
    if Iterate(parents, start, n).Some? {
      assert Iterate(parents, start, n).value in Visited(parents, start, n + 1);
    }
  }

  /** Once the walk has run off the root, later turns add nothing. */
  lemma {:induction false} VisitedStops(parents: ParentTable, start: Option<Uuid>, m: nat, n: nat)
    requires m <= n && Iterate(parents, start, m) == None
    ensures Visited(parents, start, n) == Visited(parents, start, m)
  {
    if m == n {
    } else {
      VisitedStops(parents, start, m, n - 1);
      IterateStops(parents, start, m, n - 1);
      VisitedStep(parents, start, n - 1);
    }
  }

  /** If the next unit is absent or already visited, the visited set is closed. */
  lemma RepeatCloses(parents: ParentTable, start: Option<Uuid>, n: nat)
    requires Iterate(parents, start, n).Some? ==> Iterate(parents, start, n).value in Visited(parents, start, n)
    ensures Closed(parents, Visited(parents, start, n))
  {
    forall id | id in Visited(parents, start, n) && id in parents && parents[id].Some?
      ensures parents[id].value in Visited(parents, start, n)
    {
      var i :| 0 <= i < n && Iterate(parents, start, i) == Some(id);
      assert Iterate(parents, start, i + 1) == ParentOf(parents, id);
    }
  }

  /** Every closed set that holds the start holds every iterate. */
  lemma {:induction false} ClosedHoldsIterates(parents: ParentTable, start: Uuid, t: set<Uuid>, n: nat)
    requires start in t && Closed(parents, t)
    ensures Iterate(parents, Some(start), n).Some? ==> Iterate(parents, Some(start), n).value in t
  {
    if n == 0 {
    } else {
      ClosedHoldsIterates(parents, start, t, n - 1);
    }
  }

  lemma VisitedIsLeast(parents: ParentTable, start: Uuid, t: set<Uuid>, n: nat)
    requires start in t && Closed(parents, t)
    ensures Visited(parents, Some(start), n) <= t
  {
    forall i: nat | i < n && Iterate(parents, Some(start), i).Some?
      ensures Iterate(parents, Some(start), i).value in t
    {
      ClosedHoldsIterates(parents, start, t, i);
    }
  }

  /** A closed visited set already holds the next unit. */
  lemma VisitedContainsLast(parents: ParentTable, start: Option<Uuid>, n: nat)
    requires n > 0 && Closed(parents, Visited(parents, start, n)) && Iterate(parents, start, n).Some?
    ensures Iterate(parents, start, n).value in Visited(parents, start, n)
  {
    var last := Iterate(parents, start, n - 1);
    assert last.value in Visited(parents, start, n);
  }

  /** One more turn finds a new unit, unless everything was found already. */
  lemma OneMoreTurn(parents: ParentTable, start: Option<Uuid>, n: nat)
    requires |Visited(parents, start, n)| == n || Closed(parents, Visited(parents, start, n))
    requires |Visited(parents, start, n)| <= n
    ensures |Visited(parents, start, n + 1)| <= n + 1
    ensures |Visited(parents, start, n + 1)| == n + 1 || Closed(parents, Visited(parents, start, n + 1))
  {
    var next := Iterate(parents, start, n);
    var before := Visited(parents, start, n);
    VisitedStep(parents, start, n);
    if next == None || next.value in before {
      RepeatCloses(parents, start, n);
      assert Visited(parents, start, n + 1) == before;
    } else {
      assert Visited(parents, start, n + 1) == before + {next.value};
      if n > 0 && Closed(parents, before) {
        VisitedContainsLast(parents, start, n);
        assert false;
      }
    }
  }

  /** Pigeonhole: `n` turns either found `n` different units or have nothing left to find. */
  lemma {:induction false} DistinctOrClosed(parents: ParentTable, start: Option<Uuid>, n: nat)
    ensures |Visited(parents, start, n)| <= n
    ensures |Visited(parents, start, n)| == n || Closed(parents, Visited(parents, start, n))
  {
    if n == 0 {
    } else {
      DistinctOrClosed(parents, start, n - 1);
      OneMoreTurn(parents, start, n - 1);
    }
  }

  /** A unit that is not the end of the walk has a row. */
  lemma NotLastHasRow(parents: ParentTable, start: Option<Uuid>, i: nat, n: nat)
    requires i < n && Iterate(parents, start, i).Some? && Iterate(parents, start, n).Some?
    ensures Iterate(parents, start, i).value in parents
  {
    if Iterate(parents, start, i + 1) == None {
      IterateStops(parents, start, i + 1, n);
      assert false;
    }
  }

  lemma VisitedBeforeLast(parents: ParentTable, start: Option<Uuid>, n: nat)
    requires Iterate(parents, start, n).Some?
    ensures Visited(parents, start, n) <= parents.Keys
  {
    forall id | id in Visited(parents, start, n)
      ensures id in parents
    {
      var i: nat :| i < n && Iterate(parents, start, i) == Some(id);
      NotLastHasRow(parents, start, i, n);
    }
  }

  /** All visited units but the last have a row. */
  lemma VisitedUpTo(parents: ParentTable, start: Option<Uuid>, n: nat)
    requires Iterate(parents, start, n).Some?
    ensures |Visited(parents, start, n + 1)| <= |parents| + 1
  {
    VisitedStep(parents, start, n);
    VisitedBeforeLast(parents, start, n);
    SubsetSize(Visited(parents, start, n), parents.Keys);
    assert |parents.Keys| == |parents|;
  }

  lemma {:induction false} VisitedHaveRows(parents: ParentTable, start: Option<Uuid>, n: nat)
    ensures |Visited(parents, start, n)| <= |parents| + 1
  {
    if n == 0 {
    } else if Iterate(parents, start, n - 1).Some? {
      VisitedUpTo(parents, start, n - 1);
    } else {
      VisitedStep(parents, start, n - 1);
      VisitedHaveRows(parents, start, n - 1);
    }
  }

  lemma {:induction false} SubsetSize<T>(a: set<T>, b: set<T>)
    requires a <= b
    ensures |a| <= |b|
    ensures |a| == |b| ==> a == b
  {
    if a == {} {
    } else {
      var x :| x in a;
      SubsetSize(a - {x}, b - {x});
    }
  }

  /** `Closure` computes the least closed set, for every table, cyclic and dangling ones included. */
  lemma ClosureIsClosure(parents: ParentTable, start: Uuid)
    ensures IsClosure(parents, start, Closure(parents, start))
  {
    var n := |parents| + 2;
    DistinctOrClosed(parents, Some(start), n);
    VisitedHaveRows(parents, Some(start), n);
    assert Iterate(parents, Some(start), 0) == Some(start);
    forall t: set<Uuid> | start in t && Closed(parents, t)
      ensures Closure(parents, start) <= t
    {
      VisitedIsLeast(parents, start, t, n);
    }
  }

  /** A walk of `n` turns never leaves the closure, and reaches all of it exactly when the closure has at most
      `n` members. */
  lemma WalkIsClosureIff(parents: ParentTable, start: Uuid, n: nat)
    ensures Visited(parents, Some(start), n) <= Closure(parents, start)
    ensures Visited(parents, Some(start), n) == Closure(parents, start) <==> |Closure(parents, start)| <= n
  {
    ClosureIsClosure(parents, start);
    var closure := Closure(parents, start);
    var walk := Visited(parents, Some(start), n);
    VisitedIsLeast(parents, start, closure, n);
    DistinctOrClosed(parents, Some(start), n);
    SubsetSize(walk, closure);
    if |closure| <= n && |walk| != n {
      if n == 0 {
        assert false;
      }
      assert Iterate(parents, Some(start), 0) == Some(start);
      assert start in walk;
    }
  }

  /** Climbing from a unit to one of its ancestors shrinks the closure. */
  lemma ClosureOfAncestor(parents: ParentTable, descendant: Uuid, ancestor: Uuid)
    requires ancestor in Closure(parents, descendant)
    ensures Closure(parents, ancestor) <= Closure(parents, descendant)
  {
    ClosureIsClosure(parents, descendant);
    ClosureIsClosure(parents, ancestor);
  }
}
