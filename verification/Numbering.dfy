/**
 Document numbering and the documents it numbers, as transactions of many callers interleaved statement by statement
 over the `document_sequences` table.
 */
module Numbering {
  import opened Common
  import opened Rendering

  datatype Scope = Scope(tenant: Uuid, unit: Option<Uuid>, documentType: string, fiscalYear: string)

  /** A committed counter row; its position in the table stands for its id. */
  datatype SequenceRow = SequenceRow(scope: Scope, prefix: string, lastSequence: nat, padding: nat)

  /** A number handed out: the row that was incremented and what the update returned. */
  datatype Issue = Issue(row: nat, number: nat, prefix: string, padding: nat)

  datatype Phase =
    | Arrived
    | Absent                        // the select found no row
    | Found(row: nat)               // the select found this committed row
    | Inserted                      // an own, uncommitted row was flushed
    | Updated(row: nat)             // the update ran; its row lock is held until the commit
    | Numbered(issue: Issue)        // the numbering transaction committed
    | Documented(issue: Issue)      // ... and then the document's
    | Lost(issue: Issue)            // ... but the document's transaction failed
    | Raised                        // next_number failed

  datatype Call = Call(scope: Scope, prefix: string, padding: nat, phase: Phase)

  /** `nullsDistinct` is how the unique constraint on the scope columns treats NULL units: PostgreSQL's default is that
      they never conflict. */
  datatype Database = Database(nullsDistinct: bool, rows: seq<SequenceRow>, calls: seq<Call>)

  datatype Step =
    | Arrive(scope: Scope, prefix: string, padding: nat)
    | Select(call: nat)
    | Insert(call: nat)
    | Update(call: nat)
    | Commit(call: nat)
    | Abort(call: nat)              // the connection or the caller dies; the transaction rolls back
    | CreateDocument(call: nat)
    | LoseDocument(call: nat)       // the same, after the number was committed

  /** The unique constraint tells apart every two rows of this scope. */
  predicate Constrained(nullsDistinct: bool, scope: Scope) {
    scope.unit.Some? || !nullsDistinct
  }

  predicate IsIssued(phase: Phase) {
    phase.Numbered? || phase.Documented? || phase.Lost?
  }

  /* ---------- Steps ---------- */

  /** The rows a select on the scope returns. */
  function RowsOf(rows: seq<SequenceRow>, scope: Scope): (found: seq<nat>)
    ensures forall i: nat :: i in found <==> i < |rows| && rows[i].scope == scope
    ensures forall i, j :: 0 <= i < j < |found| ==> found[i] < found[j]
  {
    if rows == [] then []
    else
      var n := |rows| - 1;
      var before := RowsOf(rows[..n], scope);
      assert forall i :: 0 <= i < |before| ==> before[i] in before;
      before + (if rows[n].scope == scope then [n] else [])
  }

  predicate Inserting(db: Database, c: nat, scope: Scope) {
    c < |db.calls| && db.calls[c].phase.Inserted? && db.calls[c].scope == scope
  }

  predicate Locked(db: Database, row: nat) {
    exists c :: 0 <= c < |db.calls| && db.calls[c].phase == Updated(row)
  }

  /** An insert waits for another transaction's uncommitted row of the same constrained scope, and an update for the
      row's lock. */
  predicate Enabled(db: Database, step: Step) {
    match step
    case Arrive(_, _, _) => true
    case Select(c) => c < |db.calls| && db.calls[c].phase.Arrived?
    case Insert(c) =>
      && c < |db.calls| && db.calls[c].phase.Absent?
      && (Constrained(db.nullsDistinct, db.calls[c].scope) ==>
            forall d :: 0 <= d < |db.calls| ==> !Inserting(db, d, db.calls[c].scope))
    case Update(c) =>
      c < |db.calls| && db.calls[c].phase.Found? && !Locked(db, db.calls[c].phase.row)
    case Commit(c) =>
      && c < |db.calls|
      && (db.calls[c].phase.Inserted? || (db.calls[c].phase.Updated? && db.calls[c].phase.row < |db.rows|))
    case Abort(c) =>
      && c < |db.calls|
      && (db.calls[c].phase.Arrived? || db.calls[c].phase.Absent? || db.calls[c].phase.Found?
          || db.calls[c].phase.Inserted? || db.calls[c].phase.Updated?)
    case CreateDocument(c) => c < |db.calls| && db.calls[c].phase.Numbered?
    case LoseDocument(c) => c < |db.calls| && db.calls[c].phase.Numbered?
  }

  function WithPhase(db: Database, c: nat, phase: Phase): Database
    requires c < |db.calls|
  {
    db.(calls := db.calls[c := db.calls[c].(phase := phase)])
  }

  function NumberText(issue: Issue): string {
    Render(issue.prefix, issue.number, issue.padding)
  }

  /** A stored document of the same table and tenant carries this number: the document's unique constraint. */
  predicate Taken(db: Database, scope: Scope, text: string) {
    exists d ::
      && 0 <= d < |db.calls|
      && db.calls[d].phase.Documented?
      && db.calls[d].scope.tenant == scope.tenant
      && db.calls[d].scope.documentType == scope.documentType
      && NumberText(db.calls[d].phase.issue) == text
  }

  /** `scalar_one_or_none` on the rows of the scope: it raises on two. */
  function SelectPhase(rows: seq<SequenceRow>, scope: Scope): (phase: Phase)
    ensures phase.Absent? || phase.Found? || phase.Raised?
    ensures phase.Absent? <==> forall i :: 0 <= i < |rows| ==> rows[i].scope != scope
    ensures phase.Found? ==> phase.row < |rows| && rows[phase.row].scope == scope
  {
    var found := RowsOf(rows, scope);
    assert found == [] || found[0] in found;
    if found == [] then Absent else if |found| == 1 then Found(found[0]) else Raised
  }

  function Next(db: Database, step: Step): Database
    requires Enabled(db, step)
  {
    match step
    case Arrive(scope, prefix, padding) => db.(calls := db.calls + [Call(scope, prefix, padding, Arrived)])
    case Select(c) => WithPhase(db, c, SelectPhase(db.rows, db.calls[c].scope))
    case Insert(c) =>
      var scope := db.calls[c].scope;
      var conflict := Constrained(db.nullsDistinct, scope) && RowsOf(db.rows, scope) != [];
      WithPhase(db, c, if conflict then Raised else Inserted)
    case Update(c) => WithPhase(db, c, Updated(db.calls[c].phase.row))
    case Commit(c) =>
      var call := db.calls[c];
      if call.phase.Inserted? then
        var row := SequenceRow(call.scope, call.prefix, 1, call.padding);
        WithPhase(db, c, Numbered(Issue(|db.rows|, 1, call.prefix, call.padding))).(rows := db.rows + [row])
      else
        var i := call.phase.row;
        var row := db.rows[i].(lastSequence := db.rows[i].lastSequence + 1);
        WithPhase(db, c, Numbered(Issue(i, row.lastSequence, row.prefix, row.padding))).(rows := db.rows[i := row])
    case Abort(c) => WithPhase(db, c, Raised)
    case CreateDocument(c) =>
      var issue := db.calls[c].phase.issue;
      WithPhase(db, c, if Taken(db, db.calls[c].scope, NumberText(issue)) then Lost(issue) else Documented(issue))
    case LoseDocument(c) => WithPhase(db, c, Lost(db.calls[c].phase.issue))
  }

  function Run(nullsDistinct: bool, steps: seq<Step>): Option<Database> {
    if steps == [] then Some(Database(nullsDistinct, [], []))
    else
      match Run(nullsDistinct, steps[..|steps| - 1])
      case None => None
      case Some(db) => if Enabled(db, steps[|steps| - 1]) then Some(Next(db, steps[|steps| - 1])) else None
  }

  /* ---------- The invariant ---------- */

  /** Constrained scopes have one row or one uncommitted row, never more. */
  ghost predicate OneRowPerScope(db: Database) {
    && (forall i, j :: 0 <= i < j < |db.rows| && Constrained(db.nullsDistinct, db.rows[i].scope) ==>
                         db.rows[i].scope != db.rows[j].scope)
    && (forall c, i :: 0 <= c < |db.calls| && 0 <= i < |db.rows| && db.calls[c].phase.Inserted?
                       && Constrained(db.nullsDistinct, db.calls[c].scope) ==>
                         db.rows[i].scope != db.calls[c].scope)
    && (forall c, d :: 0 <= c < d < |db.calls| && db.calls[c].phase.Inserted? && db.calls[d].phase.Inserted?
                       && Constrained(db.nullsDistinct, db.calls[c].scope) ==>
                         db.calls[c].scope != db.calls[d].scope)
  }

  /** Callers refer to rows of their scope, and a row's lock has one holder. */
  ghost predicate RowsAreOwn(db: Database) {
    && (forall c :: 0 <= c < |db.calls| && (db.calls[c].phase.Found? || db.calls[c].phase.Updated?) ==>
          db.calls[c].phase.row < |db.rows| && db.rows[db.calls[c].phase.row].scope == db.calls[c].scope)
    && (forall c, d :: 0 <= c < d < |db.calls| && db.calls[c].phase.Updated? ==> db.calls[c].phase != db.calls[d].phase)
  }

  ghost predicate Holds(db: Database, c: nat, row: nat, number: nat) {
    && c < |db.calls| && IsIssued(db.calls[c].phase)
    && db.calls[c].phase.issue.row == row && db.calls[c].phase.issue.number == number
  }

  ghost predicate Held(db: Database, row: nat, number: nat) {
    exists c: nat :: Holds(db, c, row, number)
  }

  /** What a caller was issued comes from a row of its scope and is at most that row's counter. */
  ghost predicate IssuesFit(db: Database) {
    forall c :: 0 <= c < |db.calls| && IsIssued(db.calls[c].phase) ==>
      var issue := db.calls[c].phase.issue;
      && issue.row < |db.rows|
      && db.rows[issue.row].scope == db.calls[c].scope
      && db.rows[issue.row].prefix == issue.prefix && db.rows[issue.row].padding == issue.padding
      && 1 <= issue.number <= db.rows[issue.row].lastSequence
  }

  ghost predicate HeldOnce(db: Database) {
    forall c, d, row, number :: c < d && Holds(db, c, row, number) ==> !Holds(db, d, row, number)
  }

  ghost predicate AllHeld(db: Database) {
    forall row: nat, number: nat ::
      row < |db.rows| && 1 <= number <= db.rows[row].lastSequence ==> Held(db, row, number)
  }

  /** Row by row, the issued numbers are 1 up to the counter, each held by one caller. */
  ghost predicate Gapless(db: Database) {
    IssuesFit(db) && HeldOnce(db) && AllHeld(db)
  }

  /** How many callers got a number from the row and are now in a phase that satisfies `wanted`. */
  function Count(calls: seq<Call>, row: nat, wanted: Phase -> bool): nat {
    if calls == [] then 0
    else
      var last := calls[|calls| - 1].phase;
      Count(calls[..|calls| - 1], row, wanted)
      + (if IsIssued(last) && last.issue.row == row && wanted(last) then 1 else 0)
  }

  ghost predicate Accounted(db: Database) {
    forall row :: 0 <= row < |db.rows| ==>
      db.rows[row].lastSequence == Count(db.calls, row, ANY)
  }

  /** Stored documents of one table and tenant carry different numbers. */
  ghost predicate DocumentsDiffer(db: Database) {
    forall c, d ::
      && 0 <= c < d < |db.calls| && db.calls[c].phase.Documented? && db.calls[d].phase.Documented?
      && db.calls[c].scope.tenant == db.calls[d].scope.tenant
      && db.calls[c].scope.documentType == db.calls[d].scope.documentType
      ==> NumberText(db.calls[c].phase.issue) != NumberText(db.calls[d].phase.issue)
  }

  lemma OneRowPhase(db: Database, c: nat, phase: Phase)
    requires OneRowPerScope(db) && c < |db.calls|
    requires phase.Inserted? && Constrained(db.nullsDistinct, db.calls[c].scope) ==>
               && (forall i :: 0 <= i < |db.rows| ==> db.rows[i].scope != db.calls[c].scope)
               && (forall d :: 0 <= d < |db.calls| ==> !Inserting(db, d, db.calls[c].scope))
    ensures OneRowPerScope(WithPhase(db, c, phase))
  {
    forall d | 0 <= d < |db.calls| && db.calls[d].phase.Inserted? && phase.Inserted?
               && Constrained(db.nullsDistinct, db.calls[c].scope)
      ensures db.calls[d].scope != db.calls[c].scope
    {
      assert !Inserting(db, d, db.calls[c].scope);
    }
  }

  lemma OneRowAppend(db: Database, row: SequenceRow)
    requires OneRowPerScope(db)
    requires Constrained(db.nullsDistinct, row.scope) ==>
               && (forall i :: 0 <= i < |db.rows| ==> db.rows[i].scope != row.scope)
               && (forall d :: 0 <= d < |db.calls| ==> !Inserting(db, d, row.scope))
    ensures OneRowPerScope(db.(rows := db.rows + [row]))
  {
    forall d | 0 <= d < |db.calls| && db.calls[d].phase.Inserted? && Constrained(db.nullsDistinct, row.scope)
      ensures db.calls[d].scope != row.scope
    {
      assert !Inserting(db, d, row.scope);
    }
  }

  lemma OneRowUpdate(db: Database, i: nat, row: SequenceRow)
    requires OneRowPerScope(db) && i < |db.rows| && row.scope == db.rows[i].scope
    ensures OneRowPerScope(db.(rows := db.rows[i := row]))
  {
  }

  lemma OneRowStep(db: Database, step: Step)
    requires Enabled(db, step) && OneRowPerScope(db)
    ensures OneRowPerScope(Next(db, step))
  {
    var t := Next(db, step);
    match step
    case Arrive(_, _, _) =>
    case Insert(c) =>
      if RowsOf(db.rows, db.calls[c].scope) == [] {
        NoneOfScope(db.rows, db.calls[c].scope);
      }
      OneRowPhase(db, c, t.calls[c].phase);
    case Commit(c) =>
      var was := db.calls[c].phase;
      var numbered := WithPhase(db, c, t.calls[c].phase);
      OneRowPhase(db, c, t.calls[c].phase);
      if was.Inserted? {
        OneRowAppend(numbered, t.rows[|db.rows|]);
      } else {
        OneRowUpdate(numbered, was.row, t.rows[was.row]);
      }
    case _ =>
      OneRowPhase(db, step.call, t.calls[step.call].phase);
  }

  lemma NoneOfScope(rows: seq<SequenceRow>, scope: Scope)
    requires RowsOf(rows, scope) == []
    ensures forall i :: 0 <= i < |rows| ==> rows[i].scope != scope
  {
    assert SelectPhase(rows, scope).Absent?;
  }

  lemma RowsAreOwnPhase(db: Database, c: nat, phase: Phase)
    requires RowsAreOwn(db) && c < |db.calls|
    requires phase.Found? || phase.Updated? ==>
               phase.row < |db.rows| && db.rows[phase.row].scope == db.calls[c].scope
    requires phase.Updated? ==> !Locked(db, phase.row)
    ensures RowsAreOwn(WithPhase(db, c, phase))
  {
    forall d | 0 <= d < |db.calls| && phase.Updated?
      ensures db.calls[d].phase != phase
    {
      assert !Locked(db, phase.row);
    }
  }

  lemma RowsAreOwnGrow(db: Database, rows: seq<SequenceRow>)
    requires RowsAreOwn(db) && |db.rows| <= |rows|
    requires forall i :: 0 <= i < |db.rows| ==> rows[i].scope == db.rows[i].scope
    ensures RowsAreOwn(db.(rows := rows))
  {
  }

  lemma RowsAreOwnStep(db: Database, step: Step)
    requires Enabled(db, step) && RowsAreOwn(db)
    ensures RowsAreOwn(Next(db, step))
  {
    var t := Next(db, step);
    match step
    case Arrive(_, _, _) =>
    case Commit(c) =>
      RowsAreOwnPhase(db, c, t.calls[c].phase);
      RowsAreOwnGrow(WithPhase(db, c, t.calls[c].phase), t.rows);
    case _ =>
      RowsAreOwnPhase(db, step.call, t.calls[step.call].phase);
  }

  /** A commit hands out one number; no other step changes who holds which. */
  lemma HoldsStep(db: Database, step: Step, c: nat, row: nat, number: nat)
    requires Enabled(db, step)
    ensures Holds(Next(db, step), c, row, number) <==>
            || Holds(db, c, row, number)
            || (&& step == Commit(c)
                && row == (if db.calls[c].phase.Inserted? then |db.rows| else db.calls[c].phase.row)
                && number == (if db.calls[c].phase.Inserted? then 1 else db.rows[row].lastSequence + 1))
  {
  }

  /** Counters grow and rows stay otherwise; a commit's issue is the new counter of its row. */
  lemma IssuesFitCommit(db: Database, c: nat)
    requires Enabled(db, Commit(c)) && RowsAreOwn(db) && IssuesFit(db)
    ensures IssuesFit(Next(db, Commit(c)))
  {
    var t := Next(db, Commit(c));
    assert forall d :: 0 <= d < |db.calls| && d != c ==> t.calls[d] == db.calls[d];
    assert forall i :: 0 <= i < |db.rows| ==>
             && t.rows[i] == db.rows[i].(lastSequence := t.rows[i].lastSequence)
             && db.rows[i].lastSequence <= t.rows[i].lastSequence;
  }

  lemma IssuesFitStep(db: Database, step: Step)
    requires Enabled(db, step) && RowsAreOwn(db) && IssuesFit(db)
    ensures IssuesFit(Next(db, step))
  {
    if step.Commit? {
      IssuesFitCommit(db, step.call);
    }
  }

  lemma HeldOnceStep(db: Database, step: Step)
    requires Enabled(db, step) && IssuesFit(db) && HeldOnce(db)
    ensures HeldOnce(Next(db, step))
  {
    var t := Next(db, step);
    forall c, d, row, number | c < d && Holds(t, c, row, number)
      ensures !Holds(t, d, row, number)
    {
      HoldsStep(db, step, c, row, number);
      HoldsStep(db, step, d, row, number);
    }
  }

  lemma AllHeldStep(db: Database, step: Step)
    requires Enabled(db, step) && AllHeld(db)
    ensures AllHeld(Next(db, step))
  {
    var t := Next(db, step);
    forall row: nat, number: nat | row < |t.rows| && 1 <= number <= t.rows[row].lastSequence
      ensures Held(t, row, number)
    {
      if row < |db.rows| && number <= db.rows[row].lastSequence {
        assert Held(db, row, number);
        var c: nat :| Holds(db, c, row, number);
        HoldsStep(db, step, c, row, number);
      } else {
        HoldsStep(db, step, step.call, row, number);
      }
    }
  }

  lemma GaplessStep(db: Database, step: Step)
    requires Enabled(db, step) && RowsAreOwn(db) && Gapless(db)
    ensures Gapless(Next(db, step))
  {
    IssuesFitStep(db, step);
    HeldOnceStep(db, step);
    AllHeldStep(db, step);
  }

  lemma DocumentsStep(db: Database, step: Step)
    requires Enabled(db, step) && DocumentsDiffer(db)
    ensures DocumentsDiffer(Next(db, step))
  {
    var t := Next(db, step);
  }

  lemma {:induction false} CountUpdate(calls: seq<Call>, c: nat, phase: Phase, row: nat, wanted: Phase -> bool)
    requires c < |calls|
    ensures Count(calls[c := calls[c].(phase := phase)], row, wanted)
            - (if IsIssued(phase) && phase.issue.row == row && wanted(phase) then 1 else 0)
            == Count(calls, row, wanted)
            - (var was := calls[c].phase; if IsIssued(was) && was.issue.row == row && wanted(was) then 1 else 0)
  {
    var n := |calls| - 1;
    var calls' := calls[c := calls[c].(phase := phase)];
    if c == n {
      assert calls'[..n] == calls[..n];
    } else {
      assert calls'[..n] == calls[..n][c := calls[c].(phase := phase)];
      CountUpdate(calls[..n], c, phase, row, wanted);
    }
  }

  /** Callers of other rows do not count. */
  lemma {:induction false} CountNone(calls: seq<Call>, row: nat, wanted: Phase -> bool)
    requires forall c :: 0 <= c < |calls| && IsIssued(calls[c].phase) ==> calls[c].phase.issue.row != row
    ensures Count(calls, row, wanted) == 0
  {
    if calls == [] {
    } else {
      CountNone(calls[..|calls| - 1], row, wanted);
    }
  }

  const ANY: Phase -> bool := (p: Phase) => true

  /** A counter moves exactly when a number is issued from its row. */
  ghost predicate CounterMoves(db: Database, t: Database, c: nat, row: nat)
    requires c < |db.calls| && row < |t.rows|
  {
    && |t.calls| == |db.calls| && t.calls == db.calls[c := db.calls[c].(phase := t.calls[c].phase)]
    && |db.rows| <= |t.rows| <= |db.rows| + 1
    && var was, now := db.calls[c].phase, t.calls[c].phase;
       t.rows[row].lastSequence
       - (if IsIssued(now) && now.issue.row == row then 1 else 0)
       == (if row < |db.rows| then db.rows[row].lastSequence else 0)
       - (if IsIssued(was) && was.issue.row == row then 1 else 0)
  }

  lemma CounterInserts(db: Database, c: nat, row: nat)
    requires Enabled(db, Commit(c)) && db.calls[c].phase.Inserted? && row < |Next(db, Commit(c)).rows|
    ensures CounterMoves(db, Next(db, Commit(c)), c, row)
  {
  }

  lemma CounterUpdates(db: Database, c: nat, row: nat)
    requires Enabled(db, Commit(c)) && db.calls[c].phase.Updated? && row < |db.rows|
    ensures CounterMoves(db, Next(db, Commit(c)), c, row)
  {
  }

  lemma CounterStays(db: Database, step: Step, row: nat)
    requires Enabled(db, step) && !step.Arrive? && !step.Commit? && row < |db.rows|
    ensures Next(db, step).rows == db.rows && CounterMoves(db, Next(db, step), step.call, row)
  {
  }

  lemma CounterStep(db: Database, step: Step, row: nat)
    requires Enabled(db, step) && !step.Arrive? && row < |Next(db, step).rows|
    ensures CounterMoves(db, Next(db, step), step.call, row)
  {
    if !step.Commit? {
      CounterStays(db, step, row);
    } else if db.calls[step.call].phase.Inserted? {
      CounterInserts(db, step.call, row);
    } else {
      CounterUpdates(db, step.call, row);
    }
  }

  lemma AccountedStep(db: Database, step: Step)
    requires Enabled(db, step) && RowsAreOwn(db) && Gapless(db) && Accounted(db)
    ensures Accounted(Next(db, step))
  {
    var t := Next(db, step);
    if step.Arrive? {
      assert t.calls[..|db.calls|] == db.calls;
    } else {
      var c := step.call;
      forall row: nat | row < |t.rows|
        ensures t.rows[row].lastSequence == Count(t.calls, row, ANY)
      {
        CounterStep(db, step, row);
        CountUpdate(db.calls, c, t.calls[c].phase, row, ANY);
        if row == |db.rows| {
          CountNone(db.calls, row, ANY);
        }
      }
    }
  }

  ghost predicate Inv(db: Database) {
    OneRowPerScope(db) && RowsAreOwn(db) && Gapless(db) && Accounted(db) && DocumentsDiffer(db)
  }

  lemma {:induction false} RunKeepsInv(nullsDistinct: bool, steps: seq<Step>)
    requires Run(nullsDistinct, steps).Some?
    ensures Inv(Run(nullsDistinct, steps).value)
    ensures Run(nullsDistinct, steps).value.nullsDistinct == nullsDistinct
  {
    if steps == [] {
    } else {
      var n := |steps| - 1;
      RunKeepsInv(nullsDistinct, steps[..n]);
      var db := Run(nullsDistinct, steps[..n]).value;
      OneRowStep(db, steps[n]);
      RowsAreOwnStep(db, steps[n]);
      GaplessStep(db, steps[n]);
      AccountedStep(db, steps[n]);
      DocumentsStep(db, steps[n]);
    }
  }

  /* ---------- Main results ---------- */

  /** Two callers of one scope never hold the same number. */
  ghost predicate NumbersDiffer(db: Database, scope: Scope) {
    forall c, d ::
      && 0 <= c < d < |db.calls|
      && db.calls[c].scope == scope && db.calls[d].scope == scope
      && IsIssued(db.calls[c].phase) && IsIssued(db.calls[d].phase)
      ==> db.calls[c].phase.issue.number != db.calls[d].phase.issue.number
  }

  ghost predicate HeldInScope(db: Database, scope: Scope, number: nat) {
    exists c ::
      && 0 <= c < |db.calls| && db.calls[c].scope == scope
      && IsIssued(db.calls[c].phase) && db.calls[c].phase.issue.number == number
  }

  /** Under every interleaving, the numbers handed out in a constrained scope are pairwise different, are exactly 1 up
      to the counter of its one row, and all come from that row. */
  lemma NumbersAreGapless(nullsDistinct: bool, steps: seq<Step>, row: nat)
    requires Run(nullsDistinct, steps).Some?
    requires var db := Run(nullsDistinct, steps).value;
             row < |db.rows| && Constrained(nullsDistinct, db.rows[row].scope)
    ensures var db := Run(nullsDistinct, steps).value;
            var scope := db.rows[row].scope;
            && NumbersDiffer(db, scope)
            && (forall number: nat ::
                  HeldInScope(db, scope, number) <==> 1 <= number <= db.rows[row].lastSequence)
            && (forall c :: 0 <= c < |db.calls| && db.calls[c].scope == scope && IsIssued(db.calls[c].phase) ==>
                              db.calls[c].phase.issue.row == row)
  {
    RunKeepsInv(nullsDistinct, steps);
    var db := Run(nullsDistinct, steps).value;
    var scope := db.rows[row].scope;
    forall c | 0 <= c < |db.calls| && db.calls[c].scope == scope && IsIssued(db.calls[c].phase)
      ensures Holds(db, c, row, db.calls[c].phase.issue.number)
    {
    }
    forall number: nat
      ensures HeldInScope(db, scope, number) <==> 1 <= number <= db.rows[row].lastSequence
    {
      if 1 <= number <= db.rows[row].lastSequence {
        assert Held(db, row, number);
        var c: nat :| Holds(db, c, row, number);
        assert db.calls[c].scope == scope;
      }
    }
  }

  lemma ConstrainedNumbersDiffer(nullsDistinct: bool, steps: seq<Step>, scope: Scope)
    requires Run(nullsDistinct, steps).Some? && Constrained(nullsDistinct, scope)
    ensures NumbersDiffer(Run(nullsDistinct, steps).value, scope)
  {
    RunKeepsInv(nullsDistinct, steps);
    var db := Run(nullsDistinct, steps).value;
    forall c, d |
      && 0 <= c < d < |db.calls|
      && db.calls[c].scope == scope && db.calls[d].scope == scope
      && IsIssued(db.calls[c].phase) && IsIssued(db.calls[d].phase)
      ensures db.calls[c].phase.issue.number != db.calls[d].phase.issue.number
    {
      NumbersAreGapless(nullsDistinct, steps, db.calls[c].phase.issue.row);
    }
  }

  lemma Take(nullsDistinct: bool, steps: seq<Step>, db: Database, step: Step) returns (steps': seq<Step>, db': Database)
    requires Run(nullsDistinct, steps) == Some(db) && Enabled(db, step)
    ensures steps' == steps + [step] && db' == Next(db, step) && Run(nullsDistinct, steps') == Some(db')
  {
    steps', db' := steps + [step], Next(db, step);
    assert (steps + [step])[..|steps|] == steps;
  }

  lemma UnconstrainedInserts(scope: Scope) returns (steps: seq<Step>, db: Database)
    requires scope.unit == None
    ensures Run(true, steps) == Some(db)
    ensures db == Database(true, [], [Call(scope, "P", 6, Inserted), Call(scope, "P", 6, Inserted)])
  {
    steps, db := Take(true, [], Database(true, [], []), Arrive(scope, "P", 6));
    steps, db := Take(true, steps, db, Arrive(scope, "P", 6));
    assert db.calls == [Call(scope, "P", 6, Arrived), Call(scope, "P", 6, Arrived)];
    steps, db := Take(true, steps, db, Select(0));
    steps, db := Take(true, steps, db, Select(1));
    assert db.calls == [Call(scope, "P", 6, Absent), Call(scope, "P", 6, Absent)];
    steps, db := Take(true, steps, db, Insert(0));
    steps, db := Take(true, steps, db, Insert(1));
    assert db.calls == [Call(scope, "P", 6, Inserted), Call(scope, "P", 6, Inserted)];
  }

  /** Two first callers of a scope the constraint does not reach, interleaved: both create a row, both get 1. */
  lemma UnconstrainedRace(scope: Scope) returns (steps: seq<Step>)
    requires scope.unit == None
    ensures Run(true, steps).Some?
    ensures var db := Run(true, steps).value;
            !NumbersDiffer(db, scope) && |RowsOf(db.rows, scope)| >= 2
  {
    var db;
    steps, db := UnconstrainedInserts(scope);
    steps, db := Take(true, steps, db, Commit(0));
    assert db.calls[0].phase == Numbered(Issue(0, 1, "P", 6)) && db.calls[1].phase == Inserted;
    steps, db := Take(true, steps, db, Commit(1));
    assert db.calls[0].phase.issue.number == db.calls[1].phase.issue.number == 1;
    TwoRows(db.rows, scope, 0, 1);
  }

  lemma TwoRows(rows: seq<SequenceRow>, scope: Scope, i: nat, j: nat)
    requires i < j < |rows| && rows[i].scope == scope && rows[j].scope == scope
    ensures |RowsOf(rows, scope)| >= 2
  {
    var found := RowsOf(rows, scope);
    assert i in found && j in found;
  }

  /** The comment that the unique constraint rejects the losing first insert is true of exactly the scopes the
      constraint reaches: those with a unit, or all of them if NULLs are not distinct. */
  lemma NumbersDifferIffConstrained(nullsDistinct: bool, scope: Scope)
    ensures (forall steps: seq<Step> | Run(nullsDistinct, steps).Some? ::
               NumbersDiffer(Run(nullsDistinct, steps).value, scope))
            <==> Constrained(nullsDistinct, scope)
  {
    if Constrained(nullsDistinct, scope) {
      forall steps: seq<Step> | Run(nullsDistinct, steps).Some?
        ensures NumbersDiffer(Run(nullsDistinct, steps).value, scope)
      {
        ConstrainedNumbersDiffer(nullsDistinct, steps, scope);
      }
    } else {
      var steps := UnconstrainedRace(scope);
      assert !NumbersDiffer(Run(nullsDistinct, steps).value, scope);
    }
  }

  /** A scope that got a second row is jammed: rows never go away, so every later select raises. */
  lemma JammedForever(db: Database, step: Step, scope: Scope)
    requires Enabled(db, step) && |RowsOf(db.rows, scope)| >= 2
    ensures |RowsOf(Next(db, step).rows, scope)| >= 2
    ensures step.Select? && db.calls[step.call].scope == scope ==> Next(db, step).calls[step.call].phase == Raised
  {
    var found := RowsOf(db.rows, scope);
    assert found[0] in found && found[1] in found;
    TwoRows(Next(db, step).rows, scope, found[0], found[1]);
  }

  /** The loser of a first-insert race fails, and neither it nor any abort consumes a number anywhere. */
  lemma FailuresConsumeNothing(db: Database, step: Step)
    requires Enabled(db, step) && !step.Commit?
    ensures Next(db, step).rows == db.rows
    ensures step.Insert? && Constrained(db.nullsDistinct, db.calls[step.call].scope) ==>
              (Next(db, step).calls[step.call].phase == Raised <==> RowsOf(db.rows, db.calls[step.call].scope) != [])
  {
  }

  /** Callers never wait for other scopes: an insert waits only for an uncommitted row of its own constrained scope, and
      an update only for the holder of its own row's lock. */
  lemma OtherScopesNeverDelay(db: Database, c: nat)
    requires c < |db.calls|
    requires forall d :: 0 <= d < |db.calls| && d != c && db.calls[d].scope == db.calls[c].scope ==>
                           !db.calls[d].phase.Inserted? && !db.calls[d].phase.Updated?
    requires RowsAreOwn(db)
    ensures db.calls[c].phase.Arrived? ==> Enabled(db, Select(c))
    ensures db.calls[c].phase.Absent? ==> Enabled(db, Insert(c))
    ensures db.calls[c].phase.Found? ==> Enabled(db, Update(c))
    ensures db.calls[c].phase.Inserted? || db.calls[c].phase.Updated? ==> Enabled(db, Commit(c))
    ensures db.calls[c].phase.Numbered? ==> Enabled(db, CreateDocument(c)) && Enabled(db, LoseDocument(c))
  {
  }

  /** A call that raised, was documented or lost its number is over; a number is lost exactly when its document is
      refused or its transaction fails, and it stays the caller's in any case. */
  lemma FinishedCallsStay(db: Database, step: Step, c: nat)
    requires Enabled(db, step) && c < |db.calls|
    ensures var was, now := db.calls[c].phase, Next(db, step).calls[c].phase;
            && |db.calls| <= |Next(db, step).calls|
            && (was.Raised? || was.Documented? || was.Lost? ==> now == was)
            && (was.Numbered? ==> IsIssued(now) && now.issue == was.issue)
            && (was.Numbered? ==>
                (now.Lost? <==>
                 || step == LoseDocument(c)
                 || (step == CreateDocument(c) && Taken(db, db.calls[c].scope, NumberText(was.issue)))))
            && (was.Numbered? ==>
                (now.Documented? <==>
                 step == CreateDocument(c) && !Taken(db, db.calls[c].scope, NumberText(was.issue))))
  {
  }

  /** Any caller may give up at any point before its commit. */
  lemma AbortIsAlwaysPossible(db: Database, c: nat)
    requires c < |db.calls|
    ensures Enabled(db, Abort(c)) <==>
            !IsIssued(db.calls[c].phase) && !db.calls[c].phase.Raised?
    ensures Enabled(db, Abort(c)) ==>
              Next(db, Abort(c)) == db.(calls := db.calls[c := db.calls[c].(phase := Raised)])
  {
  }

  /** A commit leaves the rows of every other scope alone and adds exactly one to the rows of its own. */
  lemma OtherScopesUntouched(db: Database, step: Step, i: nat)
    requires Enabled(db, step) && RowsAreOwn(db) && i < |db.rows|
    ensures var t := Next(db, step);
            && i < |t.rows|
            && t.rows[i].(lastSequence := db.rows[i].lastSequence) == db.rows[i]
            && db.rows[i].lastSequence <= t.rows[i].lastSequence <= db.rows[i].lastSequence + 1
            && (t.rows[i] != db.rows[i] ==> step.Commit? && db.calls[step.call].scope == db.rows[i].scope)
  {
  }

  /** Number accounting: the counter is the documents, plus the numbers lost after the numbering commit, plus the
      callers still between the two transactions. */
  lemma NumberAccounting(nullsDistinct: bool, steps: seq<Step>, row: nat)
    requires Run(nullsDistinct, steps).Some? && row < |Run(nullsDistinct, steps).value.rows|
    ensures var db := Run(nullsDistinct, steps).value;
            db.rows[row].lastSequence ==
            Count(db.calls, row, (p: Phase) => p.Documented?)
            + Count(db.calls, row, (p: Phase) => p.Lost?)
            + Count(db.calls, row, (p: Phase) => p.Numbered?)
  {
    RunKeepsInv(nullsDistinct, steps);
    CountSplits(Run(nullsDistinct, steps).value.calls, row);
  }

  lemma {:induction false} CountSplits(calls: seq<Call>, row: nat)
    ensures Count(calls, row, ANY) ==
            Count(calls, row, (p: Phase) => p.Documented?)
            + Count(calls, row, (p: Phase) => p.Lost?)
            + Count(calls, row, (p: Phase) => p.Numbered?)
  {
    if calls == [] {
    } else {
      CountSplits(calls[..|calls| - 1], row);
    }
  }

  /** In every run the documents of one table and tenant carry different numbers; and a document whose scope is
      constrained is refused exactly when a document of another scope -- another unit or fiscal year of the tenant --
      already carries the same prefix and number. */
  lemma DocumentRefusedByAnotherScopeOnly(nullsDistinct: bool, steps: seq<Step>, c: nat)
    requires Run(nullsDistinct, steps).Some? && Enabled(Run(nullsDistinct, steps).value, CreateDocument(c))
    requires Constrained(nullsDistinct, Run(nullsDistinct, steps).value.calls[c].scope)
    ensures var db := Run(nullsDistinct, steps).value;
            && DocumentsDiffer(db)
            && (Next(db, CreateDocument(c)).calls[c].phase.Lost? <==>
                exists d ::
                  && 0 <= d < |db.calls| && db.calls[d].phase.Documented?
                  && db.calls[d].scope.tenant == db.calls[c].scope.tenant
                  && db.calls[d].scope.documentType == db.calls[c].scope.documentType
                  && db.calls[d].scope != db.calls[c].scope
                  && db.calls[d].phase.issue.prefix == db.calls[c].phase.issue.prefix
                  && db.calls[d].phase.issue.number == db.calls[c].phase.issue.number
                  && NumberText(db.calls[d].phase.issue) == NumberText(db.calls[c].phase.issue))
  {
    RunKeepsInv(nullsDistinct, steps);
    var db := Run(nullsDistinct, steps).value;
    ConstrainedNumbersDiffer(nullsDistinct, steps, db.calls[c].scope);
    var mine := db.calls[c].phase.issue;
    if Taken(db, db.calls[c].scope, NumberText(mine)) {
      var d :|
        && 0 <= d < |db.calls|
        && db.calls[d].phase.Documented?
        && db.calls[d].scope.tenant == db.calls[c].scope.tenant
        && db.calls[d].scope.documentType == db.calls[c].scope.documentType
        && NumberText(db.calls[d].phase.issue) == NumberText(mine);
      var other := db.calls[d].phase.issue;
      RenderInjective(mine.prefix, mine.number, mine.padding, other.prefix, other.number, other.padding);
      assert d != c;
    }
  }

  /** Per-scope uniqueness is not tenant-wide uniqueness: the first tickets of two units of a tenant collide, and the
      second unit's number is lost. */
  lemma SecondUnitLosesItsFirstNumber(first: Scope, second: Scope) returns (steps: seq<Step>)
    requires first.unit.Some? && second.unit.Some? && first != second
    requires first.tenant == second.tenant && first.documentType == second.documentType
    ensures Run(true, steps).Some?
    ensures var db := Run(true, steps).value;
            |db.calls| == 2 && db.calls[0].scope == first && db.calls[1].scope == second &&
            db.calls[0].phase.Documented? && db.calls[1].phase.Lost?
  {
    var db;
    steps, db := NumberFirstCaller(true, [], Database(true, [], []), first);
    assert !Taken(db, first, NumberText(db.calls[0].phase.issue));
    steps, db := Take(true, steps, db, CreateDocument(0));
    steps, db := NumberFirstCaller(true, steps, db, second);
    assert Taken(db, second, NumberText(db.calls[1].phase.issue)) by {
      assert db.calls[0].phase.Documented?;
    }
    steps, db := Take(true, steps, db, CreateDocument(1));
  }

  /** The first caller of a scope, alone, gets number 1 of a new row. */
  lemma NumberFirstCaller(nullsDistinct: bool, steps: seq<Step>, db: Database, scope: Scope)
    returns (steps': seq<Step>, db': Database)
    requires Run(nullsDistinct, steps) == Some(db)
    requires forall i :: 0 <= i < |db.rows| ==> db.rows[i].scope != scope
    requires forall c :: 0 <= c < |db.calls| ==> !db.calls[c].phase.Inserted?
    ensures Run(nullsDistinct, steps') == Some(db')
    ensures db'.rows == db.rows + [SequenceRow(scope, "WBT", 1, 6)]
    ensures db'.calls == db.calls + [Call(scope, "WBT", 6, Numbered(Issue(|db.rows|, 1, "WBT", 6)))]
  {
    var c := |db.calls|;
    steps', db' := Take(nullsDistinct, steps, db, Arrive(scope, "WBT", 6));
    NoRowsOf(db.rows, scope);
    assert db'.calls == db.calls + [Call(scope, "WBT", 6, Arrived)];
    steps', db' := Take(nullsDistinct, steps', db', Select(c));
    assert db'.calls == db.calls + [Call(scope, "WBT", 6, Absent)];
    steps', db' := Take(nullsDistinct, steps', db', Insert(c));
    assert db'.calls == db.calls + [Call(scope, "WBT", 6, Inserted)] && db'.rows == db.rows;
    steps', db' := Take(nullsDistinct, steps', db', Commit(c));
  }

  lemma NoRowsOf(rows: seq<SequenceRow>, scope: Scope)
    requires forall i :: 0 <= i < |rows| ==> rows[i].scope != scope
    ensures RowsOf(rows, scope) == []
  {
    assert SelectPhase(rows, scope).Absent?;
  }

  /* ---------- One caller, uninterrupted ---------- */

  /** What a call that nobody interleaves with does to the table and returns; None when the select raises. */
  function NextNumberEffect(rows: seq<SequenceRow>, scope: Scope, prefix: string, padding: nat)
    : (seq<SequenceRow>, Option<string>)
  {
    match SelectPhase(rows, scope)
    case Absent => (rows + [SequenceRow(scope, prefix, 1, padding)], Some(Render(prefix, 1, padding)))
    case Found(i) =>
      var row := rows[i].(lastSequence := rows[i].lastSequence + 1);
      (rows[i := row], Some(Render(row.prefix, row.lastSequence, row.padding)))
    case _ => (rows, None)
  }

  class NumberingService {
    var rows: seq<SequenceRow>

    method NextNumber(scope: Scope, prefix: string, padding: nat) returns (number: Option<string>)
      modifies this
      ensures (rows, number) == NextNumberEffect(old(rows), scope, prefix, padding)
    {
      var existing := RowsOf(rows, scope);
      if |existing| > 1 {
        return None;
      }
      var row: nat;
      if existing == [] {
        row := |rows|;
        rows := rows + [SequenceRow(scope, prefix, 0, padding)];
        assert rows[row := SequenceRow(scope, prefix, 1, padding)]
            == old(rows) + [SequenceRow(scope, prefix, 1, padding)];
      } else {
        row := existing[0];
        assert row in existing;
      }
      rows := rows[row := rows[row].(lastSequence := rows[row].lastSequence + 1)];
      return Some(Render(rows[row].prefix, rows[row].lastSequence, rows[row].padding));
    }
  }

  predicate Idle(phase: Phase) {
    IsIssued(phase) || phase.Raised?
  }

  /** The call got `number` and left the rows so; the other callers are where they were. */
  predicate Returned(
    db: Database, after: Option<Database>, scope: Scope, prefix: string, padding: nat,
    rows: seq<SequenceRow>, number: Option<string>)
  {
    && after.Some?
    && after.value.rows == rows
    && |after.value.calls| == |db.calls| + 1
    && var call := after.value.calls[|db.calls|];
       && after.value.calls == db.calls + [call]
       && call == Call(scope, prefix, padding, call.phase)
       && (if number.Some? then call.phase.Numbered? && NumberText(call.phase.issue) == number.value
           else call.phase == Raised)
  }

  lemma AloneInserts(db: Database, scope: Scope, prefix: string, padding: nat)
    requires forall c :: 0 <= c < |db.calls| ==> Idle(db.calls[c].phase)
    requires SelectPhase(db.rows, scope).Absent?
    ensures Returned(db, Alone(db, scope, prefix, padding), scope, prefix, padding,
                     db.rows + [SequenceRow(scope, prefix, 1, padding)], Some(Render(prefix, 1, padding)))
  {
    var c := |db.calls|;
    var selected := db.(calls := db.calls + [Call(scope, prefix, padding, Absent)]);
    assert Next(Next(db, Arrive(scope, prefix, padding)), Select(c)) == selected;
    NoRowsOf(db.rows, scope);
    assert Enabled(selected, Insert(c));
    var inserted := db.(calls := db.calls + [Call(scope, prefix, padding, Inserted)]);
    assert Next(selected, Insert(c)) == inserted;
    var call := Call(scope, prefix, padding, Numbered(Issue(|db.rows|, 1, prefix, padding)));
    assert Next(inserted, Commit(c)).calls == db.calls + [call];
  }

  lemma AloneUpdates(db: Database, scope: Scope, prefix: string, padding: nat)
    requires forall c :: 0 <= c < |db.calls| ==> Idle(db.calls[c].phase)
    requires SelectPhase(db.rows, scope).Found?
    ensures var i := SelectPhase(db.rows, scope).row;
            var row := db.rows[i].(lastSequence := db.rows[i].lastSequence + 1);
            Returned(db, Alone(db, scope, prefix, padding), scope, prefix, padding,
                     db.rows[i := row], Some(Render(row.prefix, row.lastSequence, row.padding)))
  {
    var c := |db.calls|;
    var i := SelectPhase(db.rows, scope).row;
    var selected := db.(calls := db.calls + [Call(scope, prefix, padding, Found(i))]);
    assert Next(Next(db, Arrive(scope, prefix, padding)), Select(c)) == selected;
    assert !Locked(selected, i);
    var updated := db.(calls := db.calls + [Call(scope, prefix, padding, Updated(i))]);
    assert Next(selected, Update(c)) == updated;
    var row := db.rows[i].(lastSequence := db.rows[i].lastSequence + 1);
    var call := Call(scope, prefix, padding, Numbered(Issue(i, row.lastSequence, row.prefix, row.padding)));
    assert Next(updated, Commit(c)).calls == db.calls + [call];
  }

  lemma AloneRaises(db: Database, scope: Scope, prefix: string, padding: nat)
    requires SelectPhase(db.rows, scope).Raised?
    ensures Returned(db, Alone(db, scope, prefix, padding), scope, prefix, padding, db.rows, None)
  {
    var c := |db.calls|;
    var selected := db.(calls := db.calls + [Call(scope, prefix, padding, Raised)]);
    assert Next(Next(db, Arrive(scope, prefix, padding)), Select(c)) == selected;
  }

  /** The uninterrupted call is the caller's statements taken one after another. */
  lemma UninterruptedCall(db: Database, scope: Scope, prefix: string, padding: nat)
    requires forall c :: 0 <= c < |db.calls| ==> Idle(db.calls[c].phase)
    ensures var (rows, number) := NextNumberEffect(db.rows, scope, prefix, padding);
            Returned(db, Alone(db, scope, prefix, padding), scope, prefix, padding, rows, number)
  {
    match SelectPhase(db.rows, scope)
    case Absent => AloneInserts(db, scope, prefix, padding);
    case Found(_) => AloneUpdates(db, scope, prefix, padding);
    case Raised => AloneRaises(db, scope, prefix, padding);
  }

  function Try(db: Option<Database>, step: Step): Option<Database> {
    if db.Some? && Enabled(db.value, step) then Some(Next(db.value, step)) else None
  }

  /** A new caller's statements, with nobody else's in between. */
  function Alone(db: Database, scope: Scope, prefix: string, padding: nat): Option<Database> {
    var c := |db.calls|;
    var selected := Try(Some(Next(db, Arrive(scope, prefix, padding))), Select(c));
    if selected == None then None
    else
      match selected.value.calls[c].phase
      case Absent => Try(Try(selected, Insert(c)), Commit(c))
      case Found(_) => Try(Try(selected, Update(c)), Commit(c))
      case _ => selected
  }
}
