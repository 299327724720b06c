/** The per-client rate limiter: a deque of admission times, trimmed on every request. */
module RateLimit {
  import opened Common

  const WINDOW_SECONDS: real := 60.0

  predicate Exempt(path: string) {
    path == "/health" || path == "/ready"
  }

  /** The admissions in the closed window of 60 seconds that ends at `now`. */
  function Trailing(times: seq<real>, now: real): seq<real> {
    Within(times, now - WINDOW_SECONDS, now)
  }

  /** The times in the closed interval from `lo` to `hi`, in order. */
  function Within(times: seq<real>, lo: real, hi: real): seq<real> {
    if times == [] then []
    else
      var last := times[|times| - 1];
      Within(times[..|times| - 1], lo, hi) + (if lo <= last <= hi then [last] else [])
  }

  /** `Within` keeps every time of the closed interval, as often as it occurs, and no other. */
  lemma {:induction false} WithinCounts(times: seq<real>, lo: real, hi: real, x: real)
    ensures multiset(Within(times, lo, hi))[x] == if lo <= x <= hi then multiset(times)[x] else 0
  {
    if times == [] {
    } else {
      var n := |times| - 1;
      WithinCounts(times[..n], lo, hi, x);
      assert times == times[..n] + [times[n]];
    }
  }

  predicate Sorted(times: seq<real>) {
    forall i, j :: 0 <= i < j < |times| ==> times[i] <= times[j]
  }

  /** Any `limit` + 1 consecutive admissions span more than the window. */
  ghost predicate Spaced(times: seq<real>, limit: nat) {
    forall i, j :: 0 <= i && j == i + limit && j < |times| ==> times[j] - times[i] > WINDOW_SECONDS
  }

  /** On a sorted history the trailing window is a suffix. */
  lemma {:induction false} TrailingIsSuffix(times: seq<real>, cut: nat, now: real)
    requires cut <= |times|
    requires forall i :: 0 <= i < cut ==> now - times[i] > WINDOW_SECONDS
    requires forall i :: cut <= i < |times| ==> now - times[i] <= WINDOW_SECONDS && times[i] <= now
    ensures Trailing(times, now) == times[cut..]
  {
    var n := |times| - 1;
    if cut < |times| {
      TrailingIsSuffix(times[..n], cut, now);
      assert times[cut..] == times[..n][cut..] + [times[n]];
    } else if times != [] {
      TrailingIsSuffix(times[..n], n, now);
    }
  }

  /** The positions from `a` up to `b` hold the times in the interval: those before are too early, the next too
      late; when there are none, `a` and `b` say nothing. */
  ghost predicate IsSlice(times: seq<real>, lo: real, hi: real, a: nat, b: nat) {
    && a <= b <= |times|
    && (forall i :: a <= i < b ==> lo <= times[i] <= hi)
    && (a < b ==>
        && (forall i :: 0 <= i < a ==> times[i] < lo)
        && (b < |times| ==> times[b] > hi))
    && (a == b ==> forall i :: 0 <= i < |times| ==> !(lo <= times[i] <= hi))
  }

  lemma SliceStarts(times: seq<real>, lo: real, hi: real, a: nat, last: real)
    requires IsSlice(times, lo, hi, a, a) && lo <= last <= hi
    requires forall i :: 0 <= i < |times| ==> times[i] <= last
    ensures IsSlice(times + [last], lo, hi, |times|, |times| + 1)
  {
  }

  lemma SliceGrows(times: seq<real>, lo: real, hi: real, a: nat, b: nat, last: real)
    requires IsSlice(times, lo, hi, a, b) && a < b && lo <= last <= hi
    requires forall i :: 0 <= i < |times| ==> times[i] <= last
    ensures b == |times| && IsSlice(times + [last], lo, hi, a, b + 1)
  {
  }

  lemma SliceStays(times: seq<real>, lo: real, hi: real, a: nat, b: nat, last: real)
    requires IsSlice(times, lo, hi, a, b) && !(lo <= last <= hi)
    requires forall i :: 0 <= i < |times| ==> times[i] <= last
    ensures IsSlice(times + [last], lo, hi, a, b)
  {
    if a < b {
      assert times[a] <= last;
    }
  }

  /** The times within an interval form one slice of a sorted history. */
  lemma {:induction false} WithinIsSlice(times: seq<real>, lo: real, hi: real) returns (a: nat, b: nat)
    requires Sorted(times)
    ensures IsSlice(times, lo, hi, a, b) && Within(times, lo, hi) == times[a..b]
  {
    if times == [] {
      a, b := 0, 0;
    } else {
      var before, last := times[..|times| - 1], times[|times| - 1];
      a, b := WithinIsSlice(before, lo, hi);
      assert times == before + [last];
      a, b := SliceSnoc(before, lo, hi, a, b, last);
    }
  }

  lemma SliceSnoc(times: seq<real>, lo: real, hi: real, a: nat, b: nat, last: real) returns (a': nat, b': nat)
    requires IsSlice(times, lo, hi, a, b) && forall i :: 0 <= i < |times| ==> times[i] <= last
    ensures IsSlice(times + [last], lo, hi, a', b')
    ensures (times + [last])[a'..b'] == times[a..b] + (if lo <= last <= hi then [last] else [])
  {
    if !(lo <= last <= hi) {
      SliceStays(times, lo, hi, a, b, last);
      a', b' := a, b;
    } else if a == b {
      SliceStarts(times, lo, hi, a, last);
      a', b' := |times|, |times| + 1;
    } else {
      SliceGrows(times, lo, hi, a, b, last);
      a', b' := a, b + 1;
    }
  }

  /** The guarantee: no window of 60 seconds, wherever it lies, holds more than `limit` admissions. */
  lemma EveryWindowIsBounded(times: seq<real>, limit: nat, start: real)
    requires Sorted(times) && Spaced(times, limit)
    ensures |Within(times, start, start + WINDOW_SECONDS)| <= limit
  {
    var a, b := WithinIsSlice(times, start, start + WINDOW_SECONDS);
    if a + limit < |times| {
      assert times[a + limit] - times[a] > WINDOW_SECONDS;
    }
  }

  /** A client's deque is the end of its history, and what it dropped has left the window for good. */
  ghost predicate Keeps(history: seq<real>, deque: seq<real>, limit: nat, clock: real) {
    && Sorted(history) && Spaced(history, limit)
    && (forall i :: 0 <= i < |history| ==> history[i] <= clock)
    && |deque| <= |history|
    && deque == history[|history| - |deque|..]
    && (forall i :: 0 <= i < |history| - |deque| ==> clock - history[i] > WINDOW_SECONDS)
  }

  lemma KeepsLater(history: seq<real>, deque: seq<real>, limit: nat, clock: real, now: real)
    requires Keeps(history, deque, limit, clock) && clock <= now
    ensures Keeps(history, deque, limit, now)
  {
  }

  lemma KeepsDrop(history: seq<real>, deque: seq<real>, limit: nat, clock: real)
    requires Keeps(history, deque, limit, clock) && deque != [] && clock - deque[0] > WINDOW_SECONDS
    ensures Keeps(history, deque[1..], limit, clock)
  {
  }

  /** Admitting when fewer than `limit` are kept preserves the spacing. */
  lemma KeepsAppend(history: seq<real>, deque: seq<real>, limit: nat, now: real)
    requires Keeps(history, deque, limit, now) && |deque| < limit
    ensures Keeps(history + [now], deque + [now], limit, now)
  {
    var kept := |history| - |deque|;
    forall i, j | 0 <= i && j == i + limit && j < |history| + 1
      ensures (history + [now])[j] - (history + [now])[i] > WINDOW_SECONDS
    {
      if j == |history| {
        assert i < kept;
      }
    }
  }

  /** Once the head of the deque is recent, the deque is the trailing window of the whole history. */
  lemma DequeIsWindow(history: seq<real>, deque: seq<real>, limit: nat, now: real)
    requires Keeps(history, deque, limit, now) && (deque != [] ==> now - deque[0] <= WINDOW_SECONDS)
    ensures Trailing(history, now) == deque
  {
    TrailingIsSuffix(history, |history| - |deque|, now);
  }

  /** A client without an entry has an empty deque. */
  function Entry(table: map<string, seq<real>>, client: string): seq<real> {
    if client in table then table[client] else []
  }

  ghost predicate KeptFor(
    admitted: map<string, seq<real>>, hits: map<string, seq<real>>, client: string, limit: nat, clock: real)
  {
    Keeps(Entry(admitted, client), Entry(hits, client), limit, clock)
  }

  ghost predicate AllKept(
    admitted: map<string, seq<real>>, hits: map<string, seq<real>>, limit: nat, clock: real)
  {
    forall client :: KeptFor(admitted, hits, client, limit, clock)
  }

  lemma AllKeptUpdate(
    admitted: map<string, seq<real>>, hits: map<string, seq<real>>, limit: nat, clock: real,
    client: string, history: seq<real>, deque: seq<real>, now: real)
    requires AllKept(admitted, hits, limit, clock) && clock <= now
    requires Keeps(history, deque, limit, now)
    ensures AllKept(admitted[client := history], hits[client := deque], limit, now)
  {
    var admitted', hits' := admitted[client := history], hits[client := deque];
    forall other
      ensures KeptFor(admitted', hits', other, limit, now)
    {
      if other == client {
        assert Entry(admitted', other) == history && Entry(hits', other) == deque;
      } else {
        OtherKept(admitted, hits, limit, clock, other, now);
        assert Entry(admitted', other) == Entry(admitted, other) && Entry(hits', other) == Entry(hits, other);
      }
    }
  }

  lemma OtherKept(
    admitted: map<string, seq<real>>, hits: map<string, seq<real>>, limit: nat, clock: real, other: string, now: real)
    requires AllKept(admitted, hits, limit, clock) && clock <= now
    ensures Keeps(Entry(admitted, other), Entry(hits, other), limit, now)
  {
    assert KeptFor(admitted, hits, other, limit, clock);
    KeepsLater(Entry(admitted, other), Entry(hits, other), limit, clock, now);
  }

  /* ---------- The limiter as a filter over the full history ---------- */

  predicate Admits(limit: int, history: seq<real>, now: real) {
    |Trailing(history, now)| < limit
  }

  function AfterArrival(limit: int, admitted: map<string, seq<real>>, client: string, now: real)
    : map<string, seq<real>>
  {
    var history := Entry(admitted, client);
    admitted[client := history + (if Admits(limit, history, now) then [now] else [])]
  }

  datatype Arrival = Arrival(client: string, now: real)

  /** The admissions by client after a sequence of arrivals. */
  function Admissions(limit: int, arrivals: seq<Arrival>): map<string, seq<real>> {
    if arrivals == [] then map[]
    else
      var last := arrivals[|arrivals| - 1];
      AfterArrival(limit, Admissions(limit, arrivals[..|arrivals| - 1]), last.client, last.now)
  }

  predicate ClockAdvances(arrivals: seq<Arrival>) {
    forall i, j :: 0 <= i < j < |arrivals| ==> arrivals[i].now <= arrivals[j].now
  }

  /** `limit` as a number of admissions: a negative setting admits nothing. */
  function Capacity(limit: int): nat {
    if limit < 0 then 0 else limit
  }

  ghost predicate Orderly(history: seq<real>, limit: int, latest: real) {
    && Sorted(history) && Spaced(history, Capacity(limit))
    && forall i :: 0 <= i < |history| ==> history[i] <= latest
  }

  lemma OrderlyAppend(history: seq<real>, limit: int, now: real)
    requires Orderly(history, limit, now) && Admits(limit, history, now)
    ensures Orderly(history + [now], limit, now)
  {
    var a, b := WithinIsSlice(history, now - WINDOW_SECONDS, now);
    if a == b {
      a, b := |history|, |history|;
    }
    assert history[a..b] == history[a..];
    KeepsAppend(history, history[a..], Capacity(limit), now);
  }

  lemma OrderlyArrival(limit: int, admitted: map<string, seq<real>>, arrival: Arrival, client: string)
    requires Orderly(Entry(admitted, client), limit, arrival.now)
    ensures Orderly(Entry(AfterArrival(limit, admitted, arrival.client, arrival.now), client), limit, arrival.now)
  {
    var history := Entry(admitted, client);
    if client == arrival.client {
      if Admits(limit, history, arrival.now) {
        OrderlyAppend(history, limit, arrival.now);
      } else {
        assert history + [] == history;
      }
    }
  }

  lemma {:induction false} AdmissionsAreOrderly(limit: int, arrivals: seq<Arrival>, client: string)
    requires ClockAdvances(arrivals) && arrivals != []
    ensures Orderly(Entry(Admissions(limit, arrivals), client), limit, arrivals[|arrivals| - 1].now)
  {
    var n := |arrivals| - 1;
    if n == 0 {
    } else {
      AdmissionsAreOrderly(limit, arrivals[..n], client);
      assert arrivals[..n][n - 1].now <= arrivals[n].now;
    }
    OrderlyArrival(limit, Admissions(limit, arrivals[..n]), arrivals[n], client);
  }

  /** Over every history with a non-decreasing clock, every closed 60-second window holds at most `limit` admissions
      of a client. */
  lemma NoWindowExceedsTheLimit(limit: int, arrivals: seq<Arrival>, client: string, start: real)
    requires ClockAdvances(arrivals)
    ensures |Within(Entry(Admissions(limit, arrivals), client), start, start + 60.0)| <= Capacity(limit)
  {
    if arrivals != [] {
      AdmissionsAreOrderly(limit, arrivals, client);
      EveryWindowIsBounded(Entry(Admissions(limit, arrivals), client), Capacity(limit), start);
    }
  }

  /** An arrival is rejected exactly when its trailing window already holds `limit` admissions, no more. */
  lemma RejectedExactlyWhenFull(limit: int, arrivals: seq<Arrival>, next: Arrival)
    requires ClockAdvances(arrivals + [next])
    ensures var history := Entry(Admissions(limit, arrivals), next.client);
            && (!Admits(limit, history, next.now) <==>
                |Within(history, next.now - 60.0, next.now)| == if limit < 0 then 0 else limit)
            && Entry(Admissions(limit, arrivals + [next]), next.client) ==
               history + (if |Within(history, next.now - 60.0, next.now)| < limit then [next.now] else [])
            && forall other :: other != next.client ==>
                 Entry(Admissions(limit, arrivals + [next]), other) == Entry(Admissions(limit, arrivals), other)
  {
    assert (arrivals + [next])[..|arrivals|] == arrivals;
    NoWindowExceedsTheLimit(limit, arrivals, next.client, next.now - WINDOW_SECONDS);
  }

  class RateLimiter {
    const limit: int
    var hits: map<string, seq<real>>

    /** Every admission ever, by client, and the latest clock reading. */
    ghost var admitted: map<string, seq<real>>
    ghost var clock: real

    ghost predicate Valid()
      reads this
    {
      AllKept(admitted, hits, Capacity(limit), clock)
    }

    /** `requests_per_minute or settings.rate_limit_per_minute`: zero counts as not given. */
    constructor (requestsPerMinute: Option<int>, configured: int, ghost start: real)
      ensures Valid() && admitted == map[] && hits == map[] && clock == start
      ensures requestsPerMinute == Some(limit) || limit == configured
      ensures limit == 0 ==> configured == 0
      ensures requestsPerMinute.Some? && requestsPerMinute.value != 0 ==> requestsPerMinute == Some(limit)
    {
      limit := if requestsPerMinute.Some? && requestsPerMinute.value != 0 then requestsPerMinute.value
               else configured;
      hits := map[];
      admitted := map[];
      clock := start;
    }

    /** The eviction loop. */
    method Evict(deque: seq<real>, now: real, ghost history: seq<real>, ghost capacity: nat)
      returns (queue: seq<real>)
      requires Keeps(history, deque, capacity, now)
      ensures Keeps(history, queue, capacity, now)
      ensures queue == Trailing(history, now)
    {
      queue := deque;
      while queue != [] && now - queue[0] > WINDOW_SECONDS
        invariant Keeps(history, queue, capacity, now)
      {
        KeepsDrop(history, queue, capacity, now);
        queue := queue[1..];
      }
      DequeIsWindow(history, queue, capacity, now);
    }

    /** The rest of the decision on one client's deque: evict, compare, append. */
    method Decide(deque: seq<real>, now: real, ghost history: seq<real>) returns (queue: seq<real>, ok: bool)
      requires Keeps(history, deque, Capacity(limit), now)
      ensures ok <==> Admits(limit, history, now)
      ensures queue == Trailing(history, now) + (if ok then [now] else [])
      ensures Keeps(history + (if ok then [now] else []), queue, Capacity(limit), now)
    {
      queue := Evict(deque, now, history, Capacity(limit));
      ok := |queue| < limit;
      if ok {
        KeepsAppend(history, queue, Capacity(limit), now);
        queue := queue + [now];
      } else {
        assert history + [] == history && queue + [] == queue;
      }
    }

    /** `dispatch` under a clock that does not go back. The verdict is the one the whole history gives: admit exactly
        when fewer than `limit` admissions lie in the trailing window. */
    method Dispatch(path: string, host: Option<string>, now: real) returns (ok: bool)
      requires Valid() && clock <= now
      modifies this
      ensures Valid()
      ensures path == "/health" || path == "/ready" ==> ok && admitted == old(admitted) && hits == old(hits)
      ensures path != "/health" && path != "/ready" ==>
                var client := if host.Some? then host.value else "unknown";
                && clock == now
                && (ok <==> Admits(limit, Entry(old(admitted), client), now))
                && admitted == AfterArrival(limit, old(admitted), client, now)
                && hits == old(hits)[client := Trailing(Entry(old(admitted), client), now) + (if ok then [now] else [])]
    {
      if Exempt(path) {
        return true;
      }
      var client := if host.Some? then host.value else "unknown";
      var queue := if client in hits then hits[client] else [];
      ghost var history := Entry(admitted, client);
      OtherKept(admitted, hits, Capacity(limit), clock, client, now);
      queue, ok := Decide(queue, now, history);
      history := history + (if ok then [now] else []);
      AllKeptUpdate(admitted, hits, Capacity(limit), clock, client, history, queue, now);
      hits := hits[client := queue];
      admitted := admitted[client := history];
      clock := now;
    }
  }
}
