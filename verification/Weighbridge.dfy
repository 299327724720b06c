/** Weighbridge tickets: create, complete, cancel, and the audit trail they append to. Weights are whole thousandths. */
module Weighbridge {
  import opened Common

  datatype TicketStatus = Open | Completed | Cancelled

  datatype Action = TicketCreated | TicketCompleted | TicketCancelled

  datatype TicketError = Forbidden | NotFound | Conflict

  /** The ticket row and its audit events, oldest first. */
  datatype Ticket = Ticket(
    tenant: Uuid,
    status: TicketStatus,
    firstWeight: int,
    secondWeight: Option<int>,
    netWeight: Option<int>,
    trail: seq<Action>)

  /** A request on an existing ticket; `allowed` is the verdict of `authorize` for it. */
  datatype Command = Complete(secondWeight: int, allowed: bool) | Cancel(allowed: bool)

  function Abs(x: int): int {
    if x < 0 then -x else x
  }

  function Created(tenant: Uuid, firstWeight: int): Ticket {
    Ticket(tenant, Open, firstWeight, None, None, [TicketCreated])
  }

  /** Why a request is refused, judged on the ticket it read. */
  function Refusal(read: Ticket, command: Command): Option<TicketError> {
    if !command.allowed then Some(Forbidden)
    else if command.Complete? && read.status != Open then Some(Conflict)
    else if command.Cancel? && read.status == Completed then Some(Conflict)
    else None
  }

  /** The commit of a request that read `read` onto the row as it is by then: the ORM writes the attributes that
      differ from what was read, and the audit event is appended either way. */
  function Commit(read: Ticket, current: Ticket, command: Command): Ticket {
    match command
    case Complete(weight, _) =>
      current.(status := Completed, secondWeight := Some(weight), netWeight := Some(Abs(read.firstWeight - weight)),
               trail := current.trail + [TicketCompleted])
    case Cancel(_) =>
      current.(status := if read.status == Cancelled then current.status else Cancelled,
               trail := current.trail + [TicketCancelled])
  }

  /** `get_ticket`: the row, if it exists and belongs to the caller's tenant. */
  function Lookup(tickets: seq<Ticket>, tenant: Option<Uuid>, id: nat): Result<Ticket, TicketError> {
    if tenant == None then Failure(Forbidden)
    else if id >= |tickets| || tickets[id].tenant != tenant.value then Failure(NotFound)
    else Success(tickets[id])
  }

  /** A request by a caller of some tenant, or of none; a ticket's position in the table stands for its id. */
  datatype Request =
    | Create(tenant: Option<Uuid>, firstWeight: int, allowed: bool, hasFiscalYear: bool)
    | Change(tenant: Option<Uuid>, id: nat, command: Command)

  /** The table after a request, and the error if it was refused. */
  function Handled(tickets: seq<Ticket>, request: Request): (seq<Ticket>, Option<TicketError>) {
    match request
    case Create(tenant, firstWeight, allowed, hasFiscalYear) =>
      if tenant == None || !allowed then (tickets, Some(Forbidden))
      else if !hasFiscalYear then (tickets, Some(Conflict))
      else (tickets + [Created(tenant.value, firstWeight)], None)
    case Change(tenant, id, command) =>
      match Lookup(tickets, tenant, id)
      case Failure(error) => (tickets, Some(error))
      case Success(ticket) =>
        if Refusal(ticket, command).Some? then (tickets, Refusal(ticket, command))
        else (tickets[id := Commit(ticket, ticket, command)], None)
  }

  class TicketRow {
    const tenant: Uuid
    var status: TicketStatus
    const firstWeight: int
    var secondWeight: Option<int>
    var netWeight: Option<int>
    var trail: seq<Action>

    function State(): Ticket
      reads this
    {
      Ticket(tenant, status, firstWeight, secondWeight, netWeight, trail)
    }

    constructor (tenant: Uuid, weight: int)
      ensures State() == Created(tenant, weight)
    {
      this.tenant := tenant;
      status := Open;
      firstWeight := weight;
      secondWeight := None;
      netWeight := None;
      trail := [TicketCreated];
    }
  }

  class WeighbridgeService {
    var tickets: seq<TicketRow>

    /** Each row is one object. */
    ghost predicate Valid()
      reads this
    {
      forall i, j :: 0 <= i < j < |tickets| ==> tickets[i] != tickets[j]
    }

    ghost function State(): seq<Ticket>
      reads this, tickets
    {
      seq(|tickets|, i requires 0 <= i < |tickets| reads this, tickets => tickets[i].State())
    }

    constructor ()
      ensures Valid() && State() == []
    {
      tickets := [];
    }

    method GetTicket(tenant: Option<Uuid>, id: nat) returns (found: Result<TicketRow, TicketError>)
      ensures match Lookup(State(), tenant, id)
              case Failure(error) => found == Failure(error)
              case Success(_) => id < |tickets| && found == Success(tickets[id])
    {
      if tenant == None {
        return Failure(Forbidden);
      }
      if id >= |tickets| || tickets[id].tenant != tenant.value {
        return Failure(NotFound);
      }
      return Success(tickets[id]);
    }

    /** `create_ticket`, `allowed` and `hasFiscalYear` being the outcomes of its two checks. */
    method CreateTicket(tenant: Option<Uuid>, firstWeight: int, allowed: bool, hasFiscalYear: bool)
      returns (error: Option<TicketError>)
      requires Valid()
      modifies this
      ensures Valid()
      ensures (State(), error) == Handled(old(State()), Create(tenant, firstWeight, allowed, hasFiscalYear))
    {
      if tenant == None {
        return Some(Forbidden);
      }
      if !allowed {
        return Some(Forbidden);
      }
      if !hasFiscalYear {
        return Some(Conflict);
      }
      var row := new TicketRow(tenant.value, firstWeight);
      tickets := tickets + [row];
      assert State() == old(State()) + [Created(tenant.value, firstWeight)];
      return None;
    }

    method CompleteTicket(tenant: Option<Uuid>, id: nat, weight: int, allowed: bool)
      returns (error: Option<TicketError>)
      requires Valid()
      modifies if id < |tickets| then {tickets[id]} else {}
      ensures Valid()
      ensures (State(), error) == Handled(old(State()), Change(tenant, id, Complete(weight, allowed)))
    {
      var found := GetTicket(tenant, id);
      if found.Failure? {
        return Some(found.error);
      }
      var ticket := found.value;
      if !allowed {
        return Some(Forbidden);
      }
      if ticket.status != Open {
        return Some(Conflict);
      }
      var net := Abs(ticket.firstWeight - weight);
      ticket.secondWeight := Some(weight);
      ticket.netWeight := Some(net);
      ticket.status := Completed;
      ticket.trail := ticket.trail + [TicketCompleted];
      assert State() == old(State())[id := ticket.State()];
      return None;
    }

    method CancelTicket(tenant: Option<Uuid>, id: nat, allowed: bool) returns (error: Option<TicketError>)
      requires Valid()
      modifies if id < |tickets| then {tickets[id]} else {}
      ensures Valid()
      ensures (State(), error) == Handled(old(State()), Change(tenant, id, Cancel(allowed)))
    {
      var found := GetTicket(tenant, id);
      if found.Failure? {
        return Some(found.error);
      }
      var ticket := found.value;
      if !allowed {
        return Some(Forbidden);
      }
      if ticket.status == Completed {
        return Some(Conflict);
      }
      ticket.status := Cancelled;
      ticket.trail := ticket.trail + [TicketCancelled];
      assert State() == old(State())[id := ticket.State()];
      return None;
    }
  }

  /** The table after a sequence of requests. */
  function Run(requests: seq<Request>): seq<Ticket> {
    if requests == [] then []
    else Handled(Run(requests[..|requests| - 1]), requests[|requests| - 1]).0
  }

  /** The status the audit trail tells: each event overrides the earlier ones. */
  function Replay(trail: seq<Action>): Option<TicketStatus> {
    if trail == [] then None
    else
      match trail[|trail| - 1]
      case TicketCreated => Some(Open)
      case TicketCompleted => Some(Completed)
      case TicketCancelled => Some(Cancelled)
  }

  /** CREATED (COMPLETED | CANCELLED*). */
  predicate InLanguage(trail: seq<Action>) {
    && trail != [] && trail[0] == TicketCreated
    && (trail[1..] == [TicketCompleted] || forall i :: 1 <= i < |trail| ==> trail[i] == TicketCancelled)
  }

  /** Both later weights are set exactly on completed tickets, and the net weight is the difference, never negative,
      whichever weighing was the heavier. */
  predicate WeightsFit(ticket: Ticket) {
    && (ticket.secondWeight.Some? <==> ticket.status == Completed)
    && (ticket.netWeight.Some? <==> ticket.status == Completed)
    && (ticket.status == Completed ==>
        && ticket.netWeight.value >= 0
        && (|| ticket.netWeight.value == ticket.firstWeight - ticket.secondWeight.value
            || ticket.netWeight.value == ticket.secondWeight.value - ticket.firstWeight))
  }

  predicate Inv(ticket: Ticket) {
    InLanguage(ticket.trail) && Replay(ticket.trail) == Some(ticket.status) && WeightsFit(ticket)
  }

  /** Audit replay: in every run of atomic requests, on every ticket. */
  lemma {:induction false} RunsReplay(requests: seq<Request>, id: nat)
    requires id < |Run(requests)|
    ensures var ticket := Run(requests)[id];
            Replay(ticket.trail) == Some(ticket.status) && InLanguage(ticket.trail) && WeightsFit(ticket)
  {
    var n := |requests| - 1;
    var before := Run(requests[..n]);
    forall i: nat | i < |before|
      ensures Inv(before[i])
    {
      RunsReplay(requests[..n], i);
    }
    HandledKeeps(before, requests[n]);
  }

  lemma HandledKeeps(tickets: seq<Ticket>, request: Request)
    requires forall i :: 0 <= i < |tickets| ==> Inv(tickets[i])
    ensures forall i :: 0 <= i < |Handled(tickets, request).0| ==> Inv(Handled(tickets, request).0[i])
  {
    if request.Change? {
      var found := Lookup(tickets, request.tenant, request.id);
      if found.Success? && Refusal(found.value, request.command) == None {
        CommitKeepsIff(found.value, found.value, request.command);
      }
    }
  }

  /** Exactly which requests are accepted, and with which error the others are refused, leaving every ticket alone. */
  lemma AcceptedIff(tickets: seq<Ticket>, request: Request)
    ensures var (after, error) := Handled(tickets, request);
            && (error.Some? ==> after == tickets)
            && (request.Create? ==>
                && (error == None <==> request.tenant.Some? && request.allowed && request.hasFiscalYear)
                && (error == Some(Forbidden) <==> request.tenant == None || !request.allowed)
                && (error == None ==> |after| == |tickets| + 1 && after[..|tickets|] == tickets))
            && (request.Change? ==>
                var own := request.id < |tickets| && Some(tickets[request.id].tenant) == request.tenant;
                && (error == Some(NotFound) <==> request.tenant.Some? && !own)
                && (error == Some(Forbidden) <==> request.tenant == None || (own && !request.command.allowed))
                && (error == None <==>
                    && own && request.command.allowed
                    && (if request.command.Complete? then tickets[request.id].status == Open
                        else tickets[request.id].status != Completed))
                && |after| == |tickets|)
  {
  }

  /** In every run, a completed ticket was completed by an accepted request of its own tenant, made with permission,
      whose weight is the recorded second weight. */
  lemma {:induction false} CompletedByRequest(requests: seq<Request>, id: nat) returns (i: nat)
    requires id < |Run(requests)| && Run(requests)[id].status == Completed
    ensures i < |requests| && Handled(Run(requests[..i]), requests[i]).1 == None
    ensures var ticket := Run(requests)[id];
            && requests[i].Change? && requests[i].id == id && requests[i].tenant == Some(ticket.tenant)
            && requests[i].command.Complete? && requests[i].command.allowed
            && ticket.secondWeight == Some(requests[i].command.secondWeight)
  {
    var n := |requests| - 1;
    var before := Run(requests[..n]);
    AcceptedIff(before, requests[n]);
    if id < |before| && before[id].status == Completed {
      i := CompletedByRequest(requests[..n], id);
      assert requests[..n][..i] == requests[..i];
      TenantsAreApart(before, requests[n], id);
    } else {
      i := n;
    }
  }

  /** In every run, a ticket was created by an accepted request of its own tenant, made with permission and with its
      first weight. */
  lemma {:induction false} CreatedByRequest(requests: seq<Request>, id: nat) returns (i: nat)
    requires id < |Run(requests)|
    ensures i < |requests| && Handled(Run(requests[..i]), requests[i]).1 == None && |Run(requests[..i])| == id
    ensures var ticket := Run(requests)[id];
            && requests[i].Create? && requests[i].tenant == Some(ticket.tenant) && requests[i].allowed
            && requests[i].hasFiscalYear && requests[i].firstWeight == ticket.firstWeight
  {
    var n := |requests| - 1;
    var before := Run(requests[..n]);
    AcceptedIff(before, requests[n]);
    if id < |before| {
      i := CreatedByRequest(requests[..n], id);
      assert requests[..n][..i] == requests[..i];
      TenantsAreApart(before, requests[n], id);
    } else {
      i := n;
    }
  }

  /** Tenants are apart: a request changes no other ticket than its own, none of another tenant, and no ticket's tenant
      or first weight; and it cannot tell another tenant's ticket from one that does not exist. */
  lemma TenantsAreApart(tickets: seq<Ticket>, request: Request, id: nat)
    requires id < |tickets|
    ensures var (after, error) := Handled(tickets, request);
            && |tickets| <= |after|
            && after[id].tenant == tickets[id].tenant && after[id].firstWeight == tickets[id].firstWeight
            && (request.Create? || request.id != id || request.tenant != Some(tickets[id].tenant) ==>
                after[id] == tickets[id])
            && (request.Change? && request.id == id && request.tenant != Some(tickets[id].tenant) ==>
                error == Handled([], request).1)
  {
  }

  /** What a status says about a trail in the language. */
  lemma TrailOfStatus(ticket: Ticket)
    requires Inv(ticket)
    ensures ticket.status == Open <==> ticket.trail == [TicketCreated]
    ensures ticket.status == Completed <==> ticket.trail == [TicketCreated, TicketCompleted]
    ensures ticket.status == Cancelled <==>
              |ticket.trail| > 1 && forall i :: 1 <= i < |ticket.trail| ==> ticket.trail[i] == TicketCancelled
  {
    assert ticket.trail == [ticket.trail[0]] + ticket.trail[1..];
  }

  /** A commit judged on a possibly stale read -- the trail has only grown since -- keeps the trail, its replay and the
      weights in order exactly when the request would have been accepted on the row as it is at the commit. */
  lemma CommitKeepsIff(read: Ticket, current: Ticket, command: Command)
    requires Inv(read) && Inv(current) && read.firstWeight == current.firstWeight && read.trail <= current.trail
    requires Refusal(read, command) == None
    ensures Inv(Commit(read, current, command)) <==> Refusal(current, command) == None
  {
    var after := Commit(read, current, command);
    TrailOfStatus(read);
    TrailOfStatus(current);
    if Inv(after) {
      TrailOfStatus(after);
      assert current.trail == after.trail[..|current.trail|];
    }
    if Refusal(current, command) == None {
      if command.Complete? {
        assert after.trail[1..] == [TicketCompleted];
      } else if read.status == Cancelled {
        assert current.trail[1] == TicketCancelled;
      }
    }
  }

  /** Two requests that both read the open ticket can leave a cancelled ticket that carries weights. */
  lemma OverlapBreaksWeights(tenant: Uuid, firstWeight: int, weight: int)
    ensures var read := Created(tenant, firstWeight);
            var completed := Commit(read, read, Complete(weight, true));
            var both := Commit(read, completed, Cancel(true));
            && Refusal(read, Complete(weight, true)) == None && Refusal(read, Cancel(true)) == None
            && both.status == Cancelled && both.secondWeight == Some(weight)
            && both.netWeight == Some(if weight <= firstWeight then firstWeight - weight else weight - firstWeight)
            && !WeightsFit(both) && !InLanguage(both.trail)
  {
    var read := Created(tenant, firstWeight);
    var both := Commit(read, Commit(read, read, Complete(weight, true)), Cancel(true));
    assert both.trail == [TicketCreated, TicketCompleted, TicketCancelled];
    assert both.trail[1] == TicketCompleted && |both.trail[1..]| == 2;
  }

  /** The trails of the first ticket in all runs are all of the language, not just within it. */
  lemma {:induction false} EveryTraceOccurs(tenant: Uuid, firstWeight: int, trail: seq<Action>)
    returns (requests: seq<Request>)
    requires InLanguage(trail)
    ensures |Run(requests)| == 1 && Run(requests)[0].trail == trail && Run(requests)[0].tenant == tenant
  {
    var n := |trail| - 1;
    if n == 0 {
      requests := [Create(Some(tenant), firstWeight, true, true)];
      assert requests[..0] == [];
    } else {
      assert trail == [trail[0]] + trail[1..];
      assert n > 1 ==> trail[1] == TicketCancelled;
      var before := EveryTraceOccurs(tenant, firstWeight, trail[..n]);
      RunsReplay(before, 0);
      var command := if trail[n] == TicketCompleted then Complete(0, true) else Cancel(true);
      requests := before + [Change(Some(tenant), 0, command)];
      assert requests[..|before|] == before;
      assert trail[..n] + [trail[n]] == trail;
    }
  }
}
