/** Production entries: create, submit, cancel, and the audit trail they append to. */
module Production {
  import opened Common

  datatype EntryStatus = Draft | Submitted | Cancelled

  datatype Action = EntryCreated | EntrySubmitted | EntryCancelled

  datatype EntryError = Forbidden | NotFound | Conflict

  datatype Entry = Entry(tenant: Uuid, status: EntryStatus, trail: seq<Action>)

  /** A request on an existing entry; `allowed` is the verdict of `authorize` for it. */
  datatype Command = Submit(allowed: bool) | Cancel(allowed: bool)

  function Created(tenant: Uuid): Entry {
    Entry(tenant, Draft, [EntryCreated])
  }

  function Refusal(read: Entry, command: Command): Option<EntryError> {
    if !command.allowed then Some(Forbidden)
    else if command.Submit? && read.status != Draft then Some(Conflict)
    else if command.Cancel? && read.status == Cancelled then Some(Conflict)
    else None
  }

  /** The commit of an accepted request onto the row as it is by then; its new status always differs from the one it
      read, so it is always written. */
  function Commit(current: Entry, command: Command): Entry {
    match command
    case Submit(_) => current.(status := Submitted, trail := current.trail + [EntrySubmitted])
    case Cancel(_) => current.(status := Cancelled, trail := current.trail + [EntryCancelled])
  }

  /** `get_entry`: the row, if it exists and belongs to the caller's tenant. */
  function Lookup(entries: seq<Entry>, tenant: Option<Uuid>, id: nat): Result<Entry, EntryError> {
    if tenant == None then Failure(Forbidden)
    else if id >= |entries| || entries[id].tenant != tenant.value then Failure(NotFound)
    else Success(entries[id])
  }

  /** A request by a caller of some tenant, or of none; an entry's position in the table stands for its id. */
  datatype Request =
    | Create(tenant: Option<Uuid>, allowed: bool, hasFiscalYear: bool)
    | Change(tenant: Option<Uuid>, id: nat, command: Command)

  /** The table after a request, and the error if it was refused. */
  function Handled(entries: seq<Entry>, request: Request): (seq<Entry>, Option<EntryError>) {
    match request
    case Create(tenant, allowed, hasFiscalYear) =>
      if tenant == None || !allowed then (entries, Some(Forbidden))
      else if !hasFiscalYear then (entries, Some(Conflict))
      else (entries + [Created(tenant.value)], None)
    case Change(tenant, id, command) =>
      match Lookup(entries, tenant, id)
      case Failure(error) => (entries, Some(error))
      case Success(entry) =>
        if Refusal(entry, command).Some? then (entries, Refusal(entry, command))
        else (entries[id := Commit(entry, command)], None)
  }

  class EntryRow {
    const tenant: Uuid
    var status: EntryStatus
    var trail: seq<Action>

    function State(): Entry
      reads this
    {
      Entry(tenant, status, trail)
    }

    constructor (tenant: Uuid)
      ensures State() == Created(tenant)
    {
      this.tenant := tenant;
      status := Draft;
      trail := [EntryCreated];
    }
  }

  class ProductionService {
    var entries: seq<EntryRow>

    /** Each row is one object. */
    ghost predicate Valid()
      reads this
    {
      forall i, j :: 0 <= i < j < |entries| ==> entries[i] != entries[j]
    }

    ghost function State(): seq<Entry>
      reads this, entries
    {
      seq(|entries|, i requires 0 <= i < |entries| reads this, entries => entries[i].State())
    }

    constructor ()
      ensures Valid() && State() == []
    {
      entries := [];
    }

    method GetEntry(tenant: Option<Uuid>, id: nat) returns (found: Result<EntryRow, EntryError>)
      ensures match Lookup(State(), tenant, id)
              case Failure(error) => found == Failure(error)
              case Success(_) => id < |entries| && found == Success(entries[id])
    {
      if tenant == None {
        return Failure(Forbidden);
      }
      if id >= |entries| || entries[id].tenant != tenant.value {
        return Failure(NotFound);
      }
      return Success(entries[id]);
    }

    /** `create_entry`, `allowed` and `hasFiscalYear` being the outcomes of its two checks. */
    method CreateEntry(tenant: Option<Uuid>, allowed: bool, hasFiscalYear: bool) returns (error: Option<EntryError>)
      requires Valid()
      modifies this
      ensures Valid()
      ensures (State(), error) == Handled(old(State()), Create(tenant, allowed, hasFiscalYear))
    {
      if tenant == None {
        return Some(Forbidden);
      }
      if !allowed {
        return Some(Forbidden);
      }
      if !hasFiscalYear {
        return Some(Conflict);
      }
      var row := new EntryRow(tenant.value);
      entries := entries + [row];
      assert State() == old(State()) + [Created(tenant.value)];
      return None;
    }

    method SubmitEntry(tenant: Option<Uuid>, id: nat, allowed: bool) returns (error: Option<EntryError>)
      requires Valid()
      modifies if id < |entries| then {entries[id]} else {}
      ensures Valid()
      ensures (State(), error) == Handled(old(State()), Change(tenant, id, Submit(allowed)))
    {
      var found := GetEntry(tenant, id);
      if found.Failure? {
        return Some(found.error);
      }
      var entry := found.value;
      if !allowed {
        return Some(Forbidden);
      }
      if entry.status != Draft {
        return Some(Conflict);
      }
      entry.status := Submitted;
      entry.trail := entry.trail + [EntrySubmitted];
      assert State() == old(State())[id := entry.State()];
      return None;
    }

    method CancelEntry(tenant: Option<Uuid>, id: nat, allowed: bool) returns (error: Option<EntryError>)
      requires Valid()
      modifies if id < |entries| then {entries[id]} else {}
      ensures Valid()
      ensures (State(), error) == Handled(old(State()), Change(tenant, id, Cancel(allowed)))
    {
      var found := GetEntry(tenant, id);
      if found.Failure? {
        return Some(found.error);
      }
      var entry := found.value;
      if !allowed {
        return Some(Forbidden);
      }
      if entry.status == Cancelled {
        return Some(Conflict);
      }
      entry.status := Cancelled;
      entry.trail := entry.trail + [EntryCancelled];
      assert State() == old(State())[id := entry.State()];
      return None;
    }
  }

  /** The table after a sequence of requests. */
  function Run(requests: seq<Request>): seq<Entry> {
    if requests == [] then []
    else Handled(Run(requests[..|requests| - 1]), requests[|requests| - 1]).0
  }

  /** The status the audit trail tells. */
  function Replay(trail: seq<Action>): Option<EntryStatus> {
    if trail == [] then None
    else
      match trail[|trail| - 1]
      case EntryCreated => Some(Draft)
      case EntrySubmitted => Some(Submitted)
      case EntryCancelled => Some(Cancelled)
  }

  /** CREATED SUBMITTED? CANCELLED?. */
  predicate InLanguage(trail: seq<Action>) {
    || trail == [EntryCreated]
    || trail == [EntryCreated, EntrySubmitted]
    || trail == [EntryCreated, EntryCancelled]
    || trail == [EntryCreated, EntrySubmitted, EntryCancelled]
  }

  predicate Inv(entry: Entry) {
    InLanguage(entry.trail) && Replay(entry.trail) == Some(entry.status)
  }

  /** A request decided on `read` keeps the trail of the entry in order exactly when it would have been accepted on the
      entry as it is at the commit. */
  lemma CommitKeepsIff(read: Entry, current: Entry, command: Command)
    requires Inv(read) && Inv(current) && Refusal(read, command) == None
    ensures Inv(Commit(current, command)) <==> Refusal(current, command) == None
  {
    var after := Commit(current, command);
    var n := |current.trail|;
    assert after.trail[..n] == current.trail;
    assert after.trail[n - 1] == current.trail[n - 1];
  }

  /** Audit replay: in every run of atomic requests, on every entry. */
  lemma {:induction false} RunsReplay(requests: seq<Request>, id: nat)
    requires id < |Run(requests)|
    ensures var entry := Run(requests)[id];
            Replay(entry.trail) == Some(entry.status) && InLanguage(entry.trail)
  {
    var n := |requests| - 1;
    var before := Run(requests[..n]);
    forall i: nat | i < |before|
      ensures Inv(before[i])
    {
      RunsReplay(requests[..n], i);
    }
    HandledKeeps(before, requests[n]);
  }

  lemma HandledKeeps(entries: seq<Entry>, request: Request)
    requires forall i :: 0 <= i < |entries| ==> Inv(entries[i])
    ensures forall i :: 0 <= i < |Handled(entries, request).0| ==> Inv(Handled(entries, request).0[i])
  {
    if request.Change? {
      var found := Lookup(entries, request.tenant, request.id);
      if found.Success? && Refusal(found.value, request.command) == None {
        CommitKeepsIff(found.value, found.value, request.command);
      }
    }
  }

  /** Exactly which requests are accepted, and with which error the others are refused, leaving every entry alone. */
  lemma AcceptedIff(entries: seq<Entry>, request: Request)
    ensures var (after, error) := Handled(entries, request);
            && (error.Some? ==> after == entries)
            && (request.Create? ==>
                && (error == None <==> request.tenant.Some? && request.allowed && request.hasFiscalYear)
                && (error == Some(Forbidden) <==> request.tenant == None || !request.allowed)
                && (error == None ==> |after| == |entries| + 1 && after[..|entries|] == entries))
            && (request.Change? ==>
                var own := request.id < |entries| && Some(entries[request.id].tenant) == request.tenant;
                && (error == Some(NotFound) <==> request.tenant.Some? && !own)
                && (error == Some(Forbidden) <==> request.tenant == None || (own && !request.command.allowed))
                && (error == None <==>
                    && own && request.command.allowed
                    && (if request.command.Submit? then entries[request.id].status == Draft
                        else entries[request.id].status != Cancelled))
                && |after| == |entries|)
  {
  }

  /** In every run, an entry reached its status by an accepted request of its own tenant, made with permission. */
  lemma {:induction false} StatusByRequest(requests: seq<Request>, id: nat) returns (i: nat)
    requires id < |Run(requests)|
    ensures i < |requests| && Handled(Run(requests[..i]), requests[i]).1 == None
    ensures var entry := Run(requests)[id];
            && requests[i].tenant == Some(entry.tenant)
            && match entry.status
               case Draft => requests[i].Create? && requests[i].allowed && |Run(requests[..i])| == id
               case Submitted => requests[i] == Change(Some(entry.tenant), id, Submit(true))
               case Cancelled => requests[i] == Change(Some(entry.tenant), id, Cancel(true))
  {
    var n := |requests| - 1;
    var before := Run(requests[..n]);
    AcceptedIff(before, requests[n]);
    if id < |before| && before[id].status == Run(requests)[id].status {
      i := StatusByRequest(requests[..n], id);
      assert requests[..n][..i] == requests[..i];
      TenantsAreApart(before, requests[n], id);
    } else {
      i := n;
    }
  }

  /** Tenants are apart: a request changes no other entry than its own, none of another tenant, and no entry's tenant;
      and it cannot tell another tenant's entry from one that does not exist. */
  lemma TenantsAreApart(entries: seq<Entry>, request: Request, id: nat)
    requires id < |entries|
    ensures var (after, error) := Handled(entries, request);
            && |entries| <= |after| && after[id].tenant == entries[id].tenant
            && (request.Create? || request.id != id || request.tenant != Some(entries[id].tenant) ==>
                after[id] == entries[id])
            && (request.Change? && request.id == id && request.tenant != Some(entries[id].tenant) ==>
                error == Handled([], request).1)
  {
  }

  /** Every trace of the language is the trail of the first entry in some run. */
  lemma {:induction false} EveryTraceOccurs(tenant: Uuid, trail: seq<Action>) returns (requests: seq<Request>)
    requires InLanguage(trail)
    ensures |Run(requests)| == 1 && Run(requests)[0].trail == trail && Run(requests)[0].tenant == tenant
  {
    var n := |trail| - 1;
    if n == 0 {
      requests := [Create(Some(tenant), true, true)];
      assert requests[..0] == [];
    } else {
      var before := EveryTraceOccurs(tenant, trail[..n]);
      RunsReplay(before, 0);
      var command := if trail[n] == EntrySubmitted then Submit(true) else Cancel(true);
      requests := before + [Change(Some(tenant), 0, command)];
      assert requests[..|before|] == before;
      assert trail[..n][n - 1] == trail[n - 1] && trail[..n] + [trail[n]] == trail;
    }
  }
}
