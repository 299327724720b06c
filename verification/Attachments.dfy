/**
 Attachments over two stores that share no transaction: a blob store and a table. Uploads write the blob first and
 commit the row second, deletes remove the blob first and the row second; any number of them interleave, and each may
 die between its two steps.
 */
module Attachments {
  import opened Common

  const MAX_BYTES: nat := 25 * 1024 * 1024

  type Bytes = seq<nat>

  datatype AttachmentError = NoTenant | TooLarge | AttachmentNotFound

  /** How far an operation came. */
  datatype Stage = Begun | BlobDone | Committed

  /** An upload's position among the operations names its storage key, which is fresh by its random suffix, and its
      row. */
  datatype Operation =
    | Upload(tenant: Uuid, content: Bytes, stage: Stage, dead: bool)
    | Delete(tenant: Uuid, target: nat, stage: Stage, dead: bool)

  datatype AuditEvent = Uploaded(row: nat) | Deleted(row: nat)

  /** An attachment's owner and recorded size. */
  datatype Row = Row(tenant: Uuid, size: nat)

  datatype Stores = Stores(blobs: map<nat, Bytes>, rows: map<nat, Row>, audit: seq<AuditEvent>, ops: seq<Operation>)

  datatype Step =
    | BeginUpload(tenant: Option<Uuid>, content: Bytes)
    | BeginDelete(tenant: Option<Uuid>, target: nat)
    | TouchBlob(op: nat)
    | CommitRow(op: nat)
    | Die(op: nat)

  const EMPTY: Stores := Stores(map[], map[], [], [])

  predicate Alive(s: Stores, i: nat, stage: Stage) {
    i < |s.ops| && s.ops[i].stage == stage && !s.ops[i].dead
  }

  function UploadRefusal(tenant: Option<Uuid>, content: Bytes): Option<AttachmentError> {
    if tenant == None then Some(NoTenant) else if |content| > MAX_BYTES then Some(TooLarge) else None
  }

  /** `_get_owned`: why the caller does not get the row. */
  function DeleteRefusal(rows: map<nat, Row>, tenant: Option<Uuid>, target: nat): Option<AttachmentError> {
    if tenant == None then Some(NoTenant)
    else if target !in rows || rows[target].tenant != tenant.value then Some(AttachmentNotFound)
    else None
  }

  predicate Enabled(s: Stores, step: Step) {
    match step
    case BeginUpload(tenant, content) => UploadRefusal(tenant, content) == None
    case BeginDelete(tenant, target) => DeleteRefusal(s.rows, tenant, target) == None
    case TouchBlob(i) => Alive(s, i, Begun)
    case CommitRow(i) => Alive(s, i, BlobDone)
    case Die(i) => Alive(s, i, Begun) || Alive(s, i, BlobDone)
  }

  function WithStage(s: Stores, i: nat, stage: Stage): Stores
    requires i < |s.ops|
  {
    s.(ops := s.ops[i := s.ops[i].(stage := stage)])
  }

  /** Two deletes of one row may both reach their commit. The second deletes no row, which the ORM only warns about,
      and records its audit event all the same. */
  function Next(s: Stores, step: Step): Stores
    requires Enabled(s, step)
  {
    match step
    case BeginUpload(tenant, content) => s.(ops := s.ops + [Upload(tenant.value, content, Begun, false)])
    case BeginDelete(tenant, target) => s.(ops := s.ops + [Delete(tenant.value, target, Begun, false)])
    case TouchBlob(i) =>
      (match s.ops[i]
       case Upload(_, content, _, _) => WithStage(s, i, BlobDone).(blobs := s.blobs[i := content])
       case Delete(_, target, _, _) => WithStage(s, i, BlobDone).(blobs := s.blobs - {target}))
    case CommitRow(i) =>
      (match s.ops[i]
       case Upload(tenant, content, _, _) =>
         WithStage(s, i, Committed).(rows := s.rows[i := Row(tenant, |content|)], audit := s.audit + [Uploaded(i)])
       case Delete(_, target, _, _) =>
         WithStage(s, i, Committed).(rows := s.rows - {target}, audit := s.audit + [Deleted(target)]))
    case Die(i) => s.(ops := s.ops[i := s.ops[i].(dead := true)])
  }

  function Run(steps: seq<Step>): Option<Stores> {
    if steps == [] then Some(EMPTY)
    else
      match Run(steps[..|steps| - 1])
      case None => None
      case Some(s) => if Enabled(s, steps[|steps| - 1]) then Some(Next(s, steps[|steps| - 1])) else None
  }

  /** A delete of the row took its blob and has not committed: it is under way, or was interrupted in between. */
  ghost predicate DeleteHalfDone(s: Stores, row: nat) {
    exists i :: 0 <= i < |s.ops| && s.ops[i].Delete? && s.ops[i].target == row && s.ops[i].stage == BlobDone
  }

  /** The upload wrote its blob and has not committed its row. */
  predicate UploadHalfDone(s: Stores, key: nat) {
    key < |s.ops| && s.ops[key].Upload? && s.ops[key].stage == BlobDone
  }

  /** Some delete of the row took its blob. */
  ghost predicate BlobTaken(s: Stores, row: nat) {
    exists i ::
      && 0 <= i < |s.ops| && s.ops[i].Delete? && s.ops[i].target == row
      && s.ops[i].stage != Begun
  }

  predicate Done(s: Stores, i: nat) {
    i < |s.ops| && s.ops[i].Upload? && s.ops[i].stage == Committed
  }

  /** Rows come from committed uploads, and deletes only ever target such rows. */
  ghost predicate RowsAreUploads(s: Stores) {
    && (forall r :: r in s.rows ==> Done(s, r) && s.rows[r] == Row(s.ops[r].tenant, |s.ops[r].content|))
    && (forall i :: 0 <= i < |s.ops| && s.ops[i].Delete? ==>
          && Done(s, s.ops[i].target)
          && s.ops[s.ops[i].target].tenant == s.ops[i].tenant
          && (s.ops[i].stage == Committed ==> s.ops[i].target !in s.rows))
    && (forall i :: 0 <= i < |s.ops| && s.ops[i].Upload? ==> |s.ops[i].content| <= MAX_BYTES)
    && (forall i: nat :: Done(s, i) && i !in s.rows ==> BlobTaken(s, i))
  }

  /** A blob is there from its upload's first step until some delete takes it. */
  ghost predicate BlobsFollow(s: Stores) {
    && (forall k: nat :: k in s.blobs <==>
          k < |s.ops| && s.ops[k].Upload? && s.ops[k].stage != Begun && !BlobTaken(s, k))
    && (forall k :: k in s.blobs ==> s.blobs[k] == s.ops[k].content)
  }

  ghost predicate AuditFollows(s: Stores) {
    && (forall r: nat :: r in s.rows <==> Uploaded(r) in s.audit && Deleted(r) !in s.audit)
    && (forall r: nat :: Uploaded(r) in s.audit <==> Done(s, r))
    && (forall r: nat :: Deleted(r) in s.audit ==> Uploaded(r) in s.audit)
  }

  ghost predicate Inv(s: Stores) {
    RowsAreUploads(s) && BlobsFollow(s) && AuditFollows(s)
  }

  /** Which rows have lost their blob, after a step. */
  lemma BlobTakenStep(s: Stores, step: Step)
    requires Enabled(s, step)
    ensures forall row: nat ::
              BlobTaken(Next(s, step), row) <==>
              BlobTaken(s, row) || (step.TouchBlob? && s.ops[step.op].Delete? && s.ops[step.op].target == row)
  {
    var t := Next(s, step);
    forall row: nat
      ensures BlobTaken(t, row) <==>
              BlobTaken(s, row) || (step.TouchBlob? && s.ops[step.op].Delete? && s.ops[step.op].target == row)
    {
      if i :| 0 <= i < |s.ops| && s.ops[i].Delete? && s.ops[i].target == row && s.ops[i].stage != Begun {
        assert t.ops[i].Delete? && t.ops[i].target == row && t.ops[i].stage != Begun;
      }
      if step.TouchBlob? && s.ops[step.op].Delete? && s.ops[step.op].target == row {
        assert t.ops[step.op].stage == BlobDone;
      }
    }
  }

  lemma DoneStep(s: Stores, step: Step)
    requires Enabled(s, step)
    ensures forall i: nat :: Done(Next(s, step), i) <==>
                             Done(s, i) || (step == CommitRow(i) && s.ops[i].Upload?)
  {
  }

  lemma RowsCommitUpload(s: Stores, i: nat)
    requires RowsAreUploads(s) && Enabled(s, CommitRow(i)) && s.ops[i].Upload?
    ensures RowsAreUploads(Next(s, CommitRow(i)))
  {
    var t := Next(s, CommitRow(i));
    BlobTakenStep(s, CommitRow(i));
    DoneStep(s, CommitRow(i));
    assert t.ops == s.ops[i := t.ops[i]];
    assert t.rows == s.rows[i := Row(s.ops[i].tenant, |s.ops[i].content|)];
  }

  lemma RowsCommitDelete(s: Stores, i: nat)
    requires RowsAreUploads(s) && Enabled(s, CommitRow(i)) && s.ops[i].Delete?
    ensures RowsAreUploads(Next(s, CommitRow(i)))
  {
    var t := Next(s, CommitRow(i));
    BlobTakenStep(s, CommitRow(i));
    DoneStep(s, CommitRow(i));
    assert BlobTaken(s, s.ops[i].target);
    assert t.ops == s.ops[i := t.ops[i]];
    assert t.rows == s.rows - {s.ops[i].target};
  }

  lemma RowsTouch(s: Stores, i: nat)
    requires RowsAreUploads(s) && Enabled(s, TouchBlob(i))
    ensures RowsAreUploads(Next(s, TouchBlob(i)))
  {
    var t := Next(s, TouchBlob(i));
    BlobTakenStep(s, TouchBlob(i));
    DoneStep(s, TouchBlob(i));
    assert forall j :: 0 <= j < |s.ops| && j != i ==> t.ops[j] == s.ops[j];
  }

  lemma RowsStep(s: Stores, step: Step)
    requires RowsAreUploads(s) && Enabled(s, step)
    ensures RowsAreUploads(Next(s, step))
  {
    match step
    case CommitRow(i) =>
      if s.ops[i].Upload? {
        RowsCommitUpload(s, i);
      } else {
        RowsCommitDelete(s, i);
      }
    case TouchBlob(i) => RowsTouch(s, i);
    case _ =>
      BlobTakenStep(s, step);
      DoneStep(s, step);
  }

  lemma BlobsTouch(s: Stores, i: nat)
    requires RowsAreUploads(s) && BlobsFollow(s) && Enabled(s, TouchBlob(i))
    ensures BlobsFollow(Next(s, TouchBlob(i)))
  {
    var t := Next(s, TouchBlob(i));
    BlobTakenStep(s, TouchBlob(i));
    if s.ops[i].Upload? {
      assert !BlobTaken(s, i);
      assert t.blobs == s.blobs[i := s.ops[i].content];
    } else {
      assert t.blobs == s.blobs - {s.ops[i].target};
    }
  }

  lemma OtherStepsKeepUploads(s: Stores, step: Step)
    requires Enabled(s, step) && !step.TouchBlob?
    ensures var t := Next(s, step);
            && |s.ops| <= |t.ops|
            && (forall k :: 0 <= k < |s.ops| && s.ops[k].Upload? ==>
                  && t.ops[k].Upload? && t.ops[k].content == s.ops[k].content
                  && (t.ops[k].stage == Begun <==> s.ops[k].stage == Begun))
            && (forall k :: 0 <= k < |s.ops| ==> t.ops[k].Upload? == s.ops[k].Upload?)
            && (forall k :: |s.ops| <= k < |t.ops| ==> t.ops[k].stage == Begun)
  {
  }

  lemma BlobsStep(s: Stores, step: Step)
    requires RowsAreUploads(s) && BlobsFollow(s) && Enabled(s, step)
    ensures BlobsFollow(Next(s, step))
  {
    if step.TouchBlob? {
      BlobsTouch(s, step.op);
    } else {
      var t := Next(s, step);
      BlobTakenStep(s, step);
      assert t.blobs == s.blobs;
      OtherStepsKeepUploads(s, step);
    }
  }

  lemma AuditCommit(s: Stores, i: nat)
    requires RowsAreUploads(s) && AuditFollows(s) && Enabled(s, CommitRow(i))
    ensures AuditFollows(Next(s, CommitRow(i)))
  {
    DoneStep(s, CommitRow(i));
    var t := Next(s, CommitRow(i));
    if s.ops[i].Upload? {
      assert !Done(s, i);
      assert t.audit == s.audit + [Uploaded(i)];
    } else {
      assert Done(s, s.ops[i].target);
      assert t.audit == s.audit + [Deleted(s.ops[i].target)];
    }
  }

  lemma AuditStep(s: Stores, step: Step)
    requires RowsAreUploads(s) && AuditFollows(s) && Enabled(s, step)
    ensures AuditFollows(Next(s, step))
  {
    if step.CommitRow? {
      AuditCommit(s, step.op);
    } else {
      DoneStep(s, step);
    }
  }

  lemma {:induction false} RunKeepsInv(steps: seq<Step>)
    requires Run(steps).Some?
    ensures Inv(Run(steps).value)
  {
    if steps == [] {
    } else {
      var s := Run(steps[..|steps| - 1]).value;
      RunKeepsInv(steps[..|steps| - 1]);
      RowsStep(s, steps[|steps| - 1]);
      BlobsStep(s, steps[|steps| - 1]);
      AuditStep(s, steps[|steps| - 1]);
    }
  }

  /** A live operation can take its next step or die before it; a dead or finished one does nothing any more. */
  lemma NextStepIff(s: Stores, i: nat)
    requires i < |s.ops|
    ensures var op := s.ops[i];
            && (Enabled(s, TouchBlob(i)) <==> !op.dead && op.stage == Begun)
            && (Enabled(s, CommitRow(i)) <==> !op.dead && op.stage == BlobDone)
            && (Enabled(s, Die(i)) <==> !op.dead && op.stage != Committed)
            && (Enabled(s, Die(i)) ==> Next(s, Die(i)) == s.(ops := s.ops[i := op.(dead := true)]))
  {
  }

  /** In every state, crashes included: a committed row lacks its blob exactly when a delete of it stopped, or is still,
      between its two steps; and a blob lacks its row exactly when its upload is. A blob that has its row is the
      uploaded content. */
  lemma StoresAgreeUpToInterruptions(steps: seq<Step>, k: nat)
    requires Run(steps).Some?
    ensures var s := Run(steps).value;
            && (k in s.rows && k !in s.blobs <==> k in s.rows && DeleteHalfDone(s, k))
            && (k in s.blobs && k !in s.rows <==> UploadHalfDone(s, k))
            && (k in s.rows && k in s.blobs ==> s.rows[k].size == |s.blobs[k]|)
            && (k in s.rows ==> s.rows[k].size <= 26214400)
  {
    RunKeepsInv(steps);
    var s := Run(steps).value;
    if k in s.rows && BlobTaken(s, k) {
      var i :| 0 <= i < |s.ops| && s.ops[i].Delete? && s.ops[i].target == k && s.ops[i].stage != Begun;
      assert s.ops[i].stage == BlobDone;
    }
  }

  /** Every delete that gets past its lookup is by the tenant that uploaded the attachment. */
  lemma DeletesStayInTenant(steps: seq<Step>, i: nat)
    requires Run(steps).Some? && i < |Run(steps).value.ops| && Run(steps).value.ops[i].Delete?
    ensures var s := Run(steps).value;
            var k := s.ops[i].target;
            k < |s.ops| && s.ops[k].Upload? && s.ops[k].tenant == s.ops[i].tenant
  {
    RunKeepsInv(steps);
  }

  /** A committed attachment that lost its blob or its row lost it to a delete by its own tenant. */
  lemma LostToItsOwnTenant(steps: seq<Step>, k: nat) returns (i: nat)
    requires Run(steps).Some? && Done(Run(steps).value, k)
    requires k !in Run(steps).value.rows || k !in Run(steps).value.blobs
    ensures var s := Run(steps).value;
            && i < |s.ops| && s.ops[i].Delete? && s.ops[i].target == k && s.ops[i].stage != Begun
            && s.ops[i].tenant == s.ops[k].tenant
  {
    RunKeepsInv(steps);
    var s := Run(steps).value;
    assert BlobTaken(s, k);
    i :| i < |s.ops| && s.ops[i].Delete? && s.ops[i].target == k && s.ops[i].stage != Begun;
  }

  /** Once nothing is half done, the two stores hold the same attachments, and the audit trail tells which. */
  lemma QuietStoresAgree(steps: seq<Step>)
    requires Run(steps).Some?
    requires forall i :: 0 <= i < |Run(steps).value.ops| ==> Run(steps).value.ops[i].stage != BlobDone
    ensures var s := Run(steps).value;
            && s.rows.Keys == s.blobs.Keys
            && forall r: nat :: r in s.rows <==> Uploaded(r) in s.audit && Deleted(r) !in s.audit
  {
    RunKeepsInv(steps);
    var s := Run(steps).value;
    forall k: nat
      ensures k in s.rows <==> k in s.blobs
    {
      StoresAgreeUpToInterruptions(steps, k);
    }
  }

  /* ---------- The service, uninterrupted ---------- */

  class AttachmentService {
    var blobs: map<nat, Bytes>
    var rows: map<nat, Row>
    var audit: seq<AuditEvent>

    /** `key` is the freshly built storage key. Refused uploads touch neither store. */
    method UploadAttachment(tenant: Option<Uuid>, content: Bytes, key: nat) returns (error: Option<AttachmentError>)
      modifies this
      ensures error == UploadRefusal(tenant, content)
      ensures error == None <==> tenant.Some? && |content| <= 25 * 1024 * 1024
      ensures error == Some(NoTenant) <==> tenant == None
      ensures if error == None then
                blobs == old(blobs)[key := content] && rows == old(rows)[key := Row(tenant.value, |content|)] &&
                audit == old(audit) + [Uploaded(key)]
              else
                blobs == old(blobs) && rows == old(rows) && audit == old(audit)
    {
      if tenant == None {
        return Some(NoTenant);
      }
      if |content| > MAX_BYTES {
        return Some(TooLarge);
      }
      blobs := blobs[key := content];
      rows := rows[key := Row(tenant.value, |content|)];
      audit := audit + [Uploaded(key)];
      return None;
    }

    method DeleteAttachment(tenant: Option<Uuid>, row: nat) returns (error: Option<AttachmentError>)
      modifies this
      ensures error == DeleteRefusal(old(rows), tenant, row)
      ensures error == None <==> tenant.Some? && row in old(rows) && old(rows)[row].tenant == tenant.value
      ensures error == Some(NoTenant) <==> tenant == None
      ensures if error == None then
                blobs == old(blobs) - {row} && rows == old(rows) - {row} && audit == old(audit) + [Deleted(row)]
              else
                blobs == old(blobs) && rows == old(rows) && audit == old(audit)
    {
      if tenant == None {
        return Some(NoTenant);
      }
      if row !in rows || rows[row].tenant != tenant.value {
        return Some(AttachmentNotFound);
      }
      blobs := blobs - {row};
      audit := audit + [Deleted(row)];
      rows := rows - {row};
      return None;
    }
  }

  /** The two steps of an operation, taken without interruption, are the service's method. */
  lemma UninterruptedIsService(s: Stores, tenant: Option<Uuid>, content: Bytes, row: nat)
    ensures UploadRefusal(tenant, content) == None ==>
              var i := |s.ops|;
              var t := Next(Next(Next(s, BeginUpload(tenant, content)), TouchBlob(i)), CommitRow(i));
              && t.blobs == s.blobs[i := content] && t.rows == s.rows[i := Row(tenant.value, |content|)]
              && t.audit == s.audit + [Uploaded(i)]
    ensures DeleteRefusal(s.rows, tenant, row) == None ==>
              var i := |s.ops|;
              var t := Next(Next(Next(s, BeginDelete(tenant, row)), TouchBlob(i)), CommitRow(i));
              t.blobs == s.blobs - {row} && t.rows == s.rows - {row} && t.audit == s.audit + [Deleted(row)]
  {
  }
}
