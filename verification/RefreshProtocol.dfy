/**
 One browser and the server, interleaved step by step: requests that carry the stored access token, 401s that join or
 start the shared refresh, rotation at the server, logins, logouts, lost messages, early unsubscription and reloads.

 The main results are that a run without a hazardous step keeps a single refresh in flight and never presents a refresh
 token twice, nor a revoked one; and that a step is hazardous exactly when a run that is otherwise free of hazards can
 break this after it.
 */
module RefreshProtocol {
  import opened Common
  import opened AuthClient
  import Server = AuthService

  /** What the client will be told of a POST /auth/refresh, and at last has been told. */
  datatype Stage = Awaited | Granted(pair: nat) | Refused | Delivered(result: Option<nat>)

  /** `seen` says whether the server has been shown the token; a call the client has given up may still get there.
      `listening` is lost with the page. */
  datatype RefreshCall = RefreshCall(token: nat, stage: Stage, seen: bool, listening: bool)

  datatype Phase = Sent | Waiting(call: nat) | Retried(call: nat) | Succeeded | Failed | Cancelled

  /** An application request as the interceptor handles it. `bootstrap` marks the startup load of the current user. */
  datatype AppRequest = AppRequest(bearer: Option<nat>, phase: Phase, sends: nat, bootstrap: bool)

  datatype LoginCall = LoginCall(pair: nat, arrived: bool)

  datatype LogoutCall = LogoutCall(token: nat, finished: bool)

  /** `revoked` is the server's session table by session number. `presented` lists the refresh tokens the server has
      been shown, and `replays` counts those that were revoked when shown. */
  datatype System = System(
    browser: Browser,
    calls: seq<RefreshCall>,
    requests: seq<AppRequest>,
    logins: seq<LoginCall>,
    logouts: seq<LogoutCall>,
    revoked: seq<bool>,
    presented: seq<nat>,
    replays: nat)

  datatype Status = Ok | Unauthorized | OtherError

  datatype Step =
    | NewRequest(bootstrap: bool)
    | Reply(request: nat, status: Status)
    | ServeRefresh(call: nat, accept: bool)
    | LoseCall(call: nat)
    | DeliverRefresh(call: nat)
    | ServeLogin
    | DeliverLogin(login: nat)
    | StartLogout
    | ServeLogout(logout: nat, readable: bool)
    | FinishLogout(logout: nat)
    | Unsubscribe(subscriber: nat)
    | Reload

  const START: System := System(Browser(None, None, None), [], [], [], [], [], [], 0)

  /** The page still waits for the outcome. */
  predicate Outstanding(call: RefreshCall) {
    call.listening && !call.stage.Delivered?
  }

  /* ---------- Steps ---------- */

  predicate Enabled(s: System, step: Step) {
    match step
    case NewRequest(bootstrap) => bootstrap ==> s.browser.refreshToken.Some?
    case Reply(r, _) => r < |s.requests| && (s.requests[r].phase.Sent? || s.requests[r].phase.Retried?)
    case ServeRefresh(c, _) => c < |s.calls| && !s.calls[c].seen && s.calls[c].token < |s.revoked|
    case LoseCall(c) => c < |s.calls| && (s.calls[c].stage.Awaited? || s.calls[c].stage.Granted?)
    case DeliverRefresh(c) =>
      c < |s.calls| && s.calls[c].listening && (s.calls[c].stage.Granted? || s.calls[c].stage.Refused?)
    case ServeLogin => true
    case DeliverLogin(l) => l < |s.logins| && !s.logins[l].arrived
    case StartLogout => true
    case ServeLogout(k, _) => k < |s.logouts| && s.logouts[k].token < |s.revoked|
    case FinishLogout(k) => k < |s.logouts| && !s.logouts[k].finished
    case Unsubscribe(r) =>
      r < |s.requests| &&
      (s.requests[r].phase.Sent? || s.requests[r].phase.Waiting? || s.requests[r].phase.Retried?)
    case Reload => true
  }

  function WithPhase(s: System, r: nat, phase: Phase): System
    requires r < |s.requests|
  {
    s.(requests := s.requests[r := s.requests[r].(phase := phase)])
  }

  /** The interceptor's answer to a response of the first attempt. */
  function FirstReply(s: System, r: nat, status: Status): System
    requires r < |s.requests|
  {
    match status
    case Ok => WithPhase(s, r, Succeeded)
    case OtherError => Fail(s, r, s.requests[r].bootstrap)
    case Unauthorized =>
      var (browser, outcome) := RefreshRequested(s.browser, |s.calls|);
      match outcome
      case Join(call) => WithPhase(s, r, Waiting(call))
      case Start(call, token) =>
        var calls := s.calls + [RefreshCall(token, Awaited, false, true)];
        WithPhase(s.(browser := browser, calls := calls), r, Waiting(call))
      case NoToken => Fail(s, r, true)
  }

  /** The inner `catchError` sits behind the retry too, so any failure of the retried request expires the session. */
  function RetryReply(s: System, r: nat, status: Status): System
    requires r < |s.requests|
  {
    if status == Ok then WithPhase(s, r, Succeeded) else Fail(s, r, true)
  }

  function Fail(s: System, r: nat, clear: bool): System
    requires r < |s.requests|
  {
    WithPhase(if clear then s.(browser := ClearedSession(s.browser)) else s, r, Failed)
  }

  /** The call once the server has answered; the answer is for nothing if the client has given the call up. */
  function Answered(call: RefreshCall, answer: Stage): RefreshCall {
    call.(seen := true, stage := if call.stage.Awaited? then answer else call.stage)
  }

  /** The server rotates a live session, or refuses. `accept` stands for the checks on expiry and on the user. */
  function Serve(s: System, c: nat, accept: bool): System
    requires c < |s.calls| && s.calls[c].token < |s.revoked|
  {
    var token := s.calls[c].token;
    var shown := s.(presented := s.presented + [token]);
    if s.revoked[token] then
      shown.(replays := s.replays + 1, calls := s.calls[c := Answered(s.calls[c], Refused)])
    else if !accept then
      shown.(calls := s.calls[c := Answered(s.calls[c], Refused)])
    else
      shown.(revoked := s.revoked[token := true] + [false],
             calls := s.calls[c := Answered(s.calls[c], Granted(|s.revoked|))])
  }

  predicate HasSubscriber(s: System, c: nat) {
    exists r :: 0 <= r < |s.requests| && s.requests[r].phase == Waiting(c)
  }

  /** The request after its shared refresh ended: retried with the new token, or failed. */
  function AfterRefresh(request: AppRequest, c: nat, result: Option<nat>): AppRequest {
    if request.phase != Waiting(c) then request
    else if result.Some? then request.(bearer := result, phase := Retried(c), sends := request.sends + 1)
    else request.(phase := Failed)
  }

  /** The outcome reaches the client: the store happens once, upstream of the sharing; retry, forced expiry and
      `finalize` happen per subscriber. */
  function Deliver(s: System, c: nat): System
    requires c < |s.calls| && (s.calls[c].stage.Granted? || s.calls[c].stage.Refused?)
  {
    var result := if s.calls[c].stage.Granted? then Some(s.calls[c].stage.pair) else None;
    var stored :=
      if result.Some? then StoredTokens(s.browser, result.value)
      else if HasSubscriber(s, c) then ClearedSession(s.browser)
      else s.browser;
    s.(browser := if HasSubscriber(s, c) then stored.(inFlight := None) else stored,
       calls := s.calls[c := s.calls[c].(stage := Delivered(result))],
       requests := seq(|s.requests|, r requires 0 <= r < |s.requests| => AfterRefresh(s.requests[r], c, result)))
  }

  function Next(s: System, step: Step): System
    requires Enabled(s, step)
  {
    match step
    case NewRequest(bootstrap) =>
      s.(requests := s.requests + [AppRequest(s.browser.accessToken, Sent, 1, bootstrap)])
    case Reply(r, status) =>
      if s.requests[r].phase.Sent? then FirstReply(s, r, status) else RetryReply(s, r, status)
    case ServeRefresh(c, accept) => Serve(s, c, accept)
    case LoseCall(c) => s.(calls := s.calls[c := s.calls[c].(stage := Refused)])
    case DeliverRefresh(c) => Deliver(s, c)
    case ServeLogin =>
      s.(revoked := s.revoked + [false], logins := s.logins + [LoginCall(|s.revoked|, false)])
    case DeliverLogin(l) =>
      s.(browser := StoredTokens(s.browser, s.logins[l].pair), logins := s.logins[l := s.logins[l].(arrived := true)])
    case StartLogout =>
      var (browser, token) := LogoutRequested(s.browser);
      s.(browser := browser,
         logouts := if token.Some? then s.logouts + [LogoutCall(token.value, false)] else s.logouts)
    case ServeLogout(k, readable) =>
      if readable then s.(revoked := s.revoked[s.logouts[k].token := true]) else s
    case FinishLogout(k) =>
      s.(browser := ClearedSession(s.browser), logouts := s.logouts[k := s.logouts[k].(finished := true)])
    case Unsubscribe(r) =>
      var t := WithPhase(s, r, Cancelled);
      if s.requests[r].phase.Waiting? then t.(browser := t.browser.(inFlight := None)) else t
    case Reload =>
      s.(browser := s.browser.(inFlight := None),
         calls := seq(|s.calls|, c requires 0 <= c < |s.calls| => s.calls[c].(listening := false)),
         requests := seq(|s.requests|, r requires 0 <= r < |s.requests| => Abandoned(s.requests[r])),
         logins := seq(|s.logins|, l requires 0 <= l < |s.logins| => s.logins[l].(arrived := true)),
         logouts := seq(|s.logouts|, k requires 0 <= k < |s.logouts| => s.logouts[k].(finished := true)))
  }

  function Abandoned(request: AppRequest): AppRequest {
    if request.phase.Succeeded? || request.phase.Failed? then request else request.(phase := Cancelled)
  }

  /* ---------- Hazards ---------- */

  ghost predicate RefreshingWith(s: System, token: nat) {
    exists c :: 0 <= c < |s.calls| && Outstanding(s.calls[c]) && s.calls[c].token == token
  }

  ghost predicate LoggingOut(s: System, token: nat) {
    exists k :: 0 <= k < |s.logouts| && !s.logouts[k].finished && s.logouts[k].token == token
  }

  ghost predicate OnTheWay(s: System, token: nat) {
    exists c :: 0 <= c < |s.calls| && !s.calls[c].seen && s.calls[c].token == token
  }

  /** The steps excluded by the protocol's hypotheses: leaving the shared refresh early, reloading the page while a
      refresh or a logout with the stored token is outstanding, and overlapping a logout with a refresh that has yet to
      show the server the same token. */
  ghost predicate Hazard(s: System, step: Step) {
    match step
    case Unsubscribe(r) => r < |s.requests| && s.requests[r].phase.Waiting?
    case Reload =>
      && s.browser.refreshToken.Some?
      && (RefreshingWith(s, s.browser.refreshToken.value) || LoggingOut(s, s.browser.refreshToken.value))
    case StartLogout => s.browser.refreshToken.Some? && OnTheWay(s, s.browser.refreshToken.value)
    case Reply(r, status) =>
      && r < |s.requests| && s.requests[r].phase.Sent? && status == Unauthorized
      && s.browser.inFlight == None && s.browser.refreshToken.Some?
      && LoggingOut(s, s.browser.refreshToken.value)
    case _ => false
  }

  /** The state after some steps, if each was enabled when taken. */
  function Run(steps: seq<Step>): Option<System> {
    if steps == [] then Some(START)
    else
      match Run(steps[..|steps| - 1])
      case None => None
      case Some(s) => if Enabled(s, steps[|steps| - 1]) then Some(Next(s, steps[|steps| - 1])) else None
  }

  /** No step at position `from` or later was hazardous when taken. */
  ghost predicate HazardFreeFrom(steps: seq<Step>, from: nat) {
    from < |steps| ==>
      && HazardFreeFrom(steps[..|steps| - 1], from)
      && (Run(steps[..|steps| - 1]).Some? ==> !Hazard(Run(steps[..|steps| - 1]).value, steps[|steps| - 1]))
  }

  ghost predicate HazardFree(steps: seq<Step>) {
    HazardFreeFrom(steps, 0)
  }

  /* ---------- The invariant ---------- */

  /** At most one refresh is outstanding; the browser shares exactly that one and its subscribers await exactly it. */
  ghost predicate SingleFlight(s: System) {
    && (forall c :: 0 <= c < |s.calls| && Outstanding(s.calls[c]) ==>
                      s.browser.inFlight == Some(c) && s.calls[c].listening)
    && (s.browser.inFlight.Some? ==>
          && s.browser.inFlight.value < |s.calls|
          && Outstanding(s.calls[s.browser.inFlight.value])
          && HasSubscriber(s, s.browser.inFlight.value))
    && (forall r :: 0 <= r < |s.requests| && s.requests[r].phase.Waiting? ==>
                      s.browser.inFlight == Some(s.requests[r].phase.call))
  }

  /** A request is sent once before its refresh, and once more after it with the refreshed token. */
  ghost predicate SentAtMostTwice(s: System) {
    forall r :: 0 <= r < |s.requests| ==>
      && 1 <= s.requests[r].sends <= 2
      && (s.requests[r].phase.Sent? || s.requests[r].phase.Waiting? ==> s.requests[r].sends == 1)
      && (s.requests[r].phase.Retried? ==>
            && s.requests[r].sends == 2
            && s.requests[r].phase.call < |s.calls|
            && s.requests[r].bearer.Some?
            && s.calls[s.requests[r].phase.call].stage == Delivered(s.requests[r].bearer))
  }

  /** A token nobody has shown to the server yet, whose session lives, and that no login response still carries. */
  ghost predicate Unused(s: System, token: nat) {
    && token < |s.revoked| && !s.revoked[token]
    && token !in s.presented
    && forall k :: 0 <= k < |s.logouts| ==> s.logouts[k].token != token
  }

  ghost predicate Arriving(s: System, token: nat) {
    exists l :: 0 <= l < |s.logins| && !s.logins[l].arrived && s.logins[l].pair == token
  }

  /** Tokens on their way to the client are unused, and distinct from one another and from the stored one. */
  ghost predicate InTransit(s: System) {
    && (forall l :: 0 <= l < |s.logins| && !s.logins[l].arrived ==> Unused(s, s.logins[l].pair))
    && (forall l, m :: 0 <= l < m < |s.logins| && !s.logins[l].arrived && !s.logins[m].arrived ==>
                         s.logins[l].pair != s.logins[m].pair)
    && (forall c :: 0 <= c < |s.calls| && Outstanding(s.calls[c]) ==>
          && s.calls[c].token < |s.revoked|
          && !Arriving(s, s.calls[c].token)
          && (s.calls[c].stage.Granted? ==>
                && Unused(s, s.calls[c].stage.pair)
                && !Arriving(s, s.calls[c].stage.pair)
                && !OnTheWay(s, s.calls[c].stage.pair)
                && s.browser.refreshToken != Some(s.calls[c].stage.pair)))
  }

  /** Tokens on their way to the server are unused and each on its way once; only one the page still waits for is
      stored. */
  ghost predicate ShownOnce(s: System) {
    && (forall c :: 0 <= c < |s.calls| && s.calls[c].stage.Awaited? ==> !s.calls[c].seen)
    && (forall c :: 0 <= c < |s.calls| && s.calls[c].seen ==> s.calls[c].token in s.presented)
    && (forall c :: 0 <= c < |s.calls| && !s.calls[c].seen ==>
          && Unused(s, s.calls[c].token)
          && !Arriving(s, s.calls[c].token)
          && (s.browser.refreshToken == Some(s.calls[c].token) ==> Outstanding(s.calls[c])))
    && (forall c, d :: 0 <= c < d < |s.calls| && !s.calls[c].seen && !s.calls[d].seen ==>
                         s.calls[c].token != s.calls[d].token)
  }

  /** The stored token is the one being refreshed, or the one being logged out, or unused. */
  ghost predicate StoredIsFresh(s: System) {
    && s.browser.accessToken == s.browser.refreshToken
    && (s.browser.refreshToken.Some? ==>
          var token := s.browser.refreshToken.value;
          && token < |s.revoked|
          && (RefreshingWith(s, token)
              || (&& token !in s.presented
                  && !Arriving(s, token)
                  && (LoggingOut(s, token) || Unused(s, token)))))
  }

  ghost predicate NoReplay(s: System) {
    && s.replays == 0
    && (forall i :: 0 <= i < |s.presented| ==> s.presented[i] < |s.revoked|)
    && (forall i, j :: 0 <= i < j < |s.presented| ==> s.presented[i] != s.presented[j])
    && (forall k :: 0 <= k < |s.logouts| ==> s.logouts[k].token < |s.revoked|)
  }

  /** Requests and calls fit together. */
  ghost predicate Flight(s: System) {
    SingleFlight(s) && SentAtMostTwice(s)
  }

  /** Every refresh token is where it should be. */
  ghost predicate Custody(s: System) {
    InTransit(s) && ShownOnce(s) && StoredIsFresh(s) && NoReplay(s)
  }

  ghost predicate Inv(s: System) {
    Flight(s) && Custody(s)
  }

  /* ---------- Every safe step keeps the invariant ---------- */

  /** Changing one request that is not a subscriber, or stays one, leaves a call its subscriber. */
  lemma SubscriberStays(s: System, t: System, c: nat, r: nat)
    requires r < |s.requests| && |t.requests| == |s.requests|
    requires forall i :: 0 <= i < |s.requests| && i != r ==> t.requests[i] == s.requests[i]
    requires s.requests[r].phase == Waiting(c) ==> t.requests[r].phase == Waiting(c)
    ensures HasSubscriber(s, c) || t.requests[r].phase == Waiting(c) ==> HasSubscriber(t, c)
  {
    if i :| 0 <= i < |s.requests| && s.requests[i].phase == Waiting(c) {
      assert t.requests[i].phase == Waiting(c);
    }
    assert t.requests[r].phase == Waiting(c) ==> HasSubscriber(t, c);
  }

  /** The flight is about requests, calls and what is shared. */
  lemma SameFlight(s: System, t: System)
    requires Flight(s)
    requires t.calls == s.calls && t.requests == s.requests && t.browser.inFlight == s.browser.inFlight
    ensures Flight(t)
  {
    assert forall c :: HasSubscriber(s, c) ==> HasSubscriber(t, c);
  }

  /** Custody is not about requests. */
  lemma SameCustody(s: System, t: System)
    requires Custody(s)
    requires t == s.(requests := t.requests, browser := t.browser)
    requires t.browser == s.browser.(inFlight := t.browser.inFlight)
    ensures Custody(t)
  {
    forall token: nat
      ensures Arriving(t, token) <==> Arriving(s, token)
      ensures OnTheWay(t, token) <==> OnTheWay(s, token)
      ensures RefreshingWith(t, token) <==> RefreshingWith(s, token)
      ensures LoggingOut(t, token) <==> LoggingOut(s, token)
      ensures Unused(t, token) <==> Unused(s, token)
    {
    }
  }

  lemma KeptByNewRequest(s: System, bootstrap: bool)
    requires Inv(s) && Enabled(s, NewRequest(bootstrap))
    ensures Inv(Next(s, NewRequest(bootstrap)))
  {
    FlightOfNewRequest(s, bootstrap);
    SameCustody(s, Next(s, NewRequest(bootstrap)));
  }

  lemma FlightOfNewRequest(s: System, bootstrap: bool)
    requires Flight(s) && Enabled(s, NewRequest(bootstrap))
    ensures Flight(Next(s, NewRequest(bootstrap)))
  {
    var t := Next(s, NewRequest(bootstrap));
    if s.browser.inFlight.Some? {
      var r :| 0 <= r < |s.requests| && s.requests[r].phase == Waiting(s.browser.inFlight.value);
      assert t.requests[r].phase == Waiting(t.browser.inFlight.value);
    }
  }

  lemma KeptByClearing(s: System)
    requires Inv(s)
    ensures Inv(s.(browser := ClearedSession(s.browser)))
  {
    SameFlight(s, s.(browser := ClearedSession(s.browser)));
    CustodyOfClearing(s);
  }

  lemma CustodyOfClearing(s: System)
    requires Custody(s)
    ensures Custody(s.(browser := ClearedSession(s.browser)))
  {
    var t := s.(browser := ClearedSession(s.browser));
    forall token: nat
      ensures Arriving(t, token) <==> Arriving(s, token)
      ensures OnTheWay(t, token) <==> OnTheWay(s, token)
      ensures Unused(t, token) <==> Unused(s, token)
    {
    }
  }

  /** A request that is not waiting ends, perhaps taking the stored tokens with it. */
  lemma KeptByEnding(s: System, r: nat, phase: Phase, clear: bool)
    requires Inv(s) && r < |s.requests| && !s.requests[r].phase.Waiting?
    requires phase.Succeeded? || phase.Failed? || phase.Cancelled?
    ensures Inv(WithPhase(if clear then s.(browser := ClearedSession(s.browser)) else s, r, phase))
  {
    var u := if clear then s.(browser := ClearedSession(s.browser)) else s;
    if clear {
      KeptByClearing(s);
    }
    FlightOfEnding(u, r, phase);
    SameCustody(u, WithPhase(u, r, phase));
  }

  lemma FlightOfEnding(s: System, r: nat, phase: Phase)
    requires Flight(s) && r < |s.requests| && !s.requests[r].phase.Waiting?
    requires phase.Succeeded? || phase.Failed? || phase.Cancelled?
    ensures Flight(WithPhase(s, r, phase))
  {
    var t := WithPhase(s, r, phase);
    if t.browser.inFlight.Some? {
      SubscriberStays(s, t, t.browser.inFlight.value, r);
    }
  }

  lemma KeptByJoining(s: System, r: nat, call: nat)
    requires Inv(s) && r < |s.requests| && s.requests[r].phase.Sent? && s.browser.inFlight == Some(call)
    ensures Inv(WithPhase(s, r, Waiting(call)))
  {
    FlightOfJoining(s, r, call);
    SameCustody(s, WithPhase(s, r, Waiting(call)));
  }

  lemma FlightOfJoining(s: System, r: nat, call: nat)
    requires Flight(s) && r < |s.requests| && s.requests[r].phase.Sent? && s.browser.inFlight == Some(call)
    ensures Flight(WithPhase(s, r, Waiting(call)))
  {
    SubscriberStays(s, WithPhase(s, r, Waiting(call)), call, r);
  }

  lemma KeptByStarting(s: System, r: nat)
    requires Inv(s) && r < |s.requests| && s.requests[r].phase.Sent?
    requires s.browser.inFlight == None && s.browser.refreshToken.Some?
    requires !LoggingOut(s, s.browser.refreshToken.value)
    ensures Inv(FirstReply(s, r, Unauthorized))
  {
    FlightOfStarting(s, r);
    CustodyOfStarting(s, r);
  }

  lemma FlightOfStarting(s: System, r: nat)
    requires Flight(s) && r < |s.requests| && s.requests[r].phase.Sent?
    requires s.browser.inFlight == None && s.browser.refreshToken.Some?
    ensures Flight(FirstReply(s, r, Unauthorized))
  {
    assert FirstReply(s, r, Unauthorized).requests[r].phase == Waiting(|s.calls|);
  }

  lemma CustodyOfStarting(s: System, r: nat)
    requires Custody(s) && SingleFlight(s) && r < |s.requests|
    requires s.browser.inFlight == None && s.browser.refreshToken.Some?
    requires !LoggingOut(s, s.browser.refreshToken.value)
    ensures Custody(FirstReply(s, r, Unauthorized))
  {
    StoredIsIdle(s);
    StartedTransit(s, r);
    StartedShownOnce(s, r);
    var t := FirstReply(s, r, Unauthorized);
    assert t.calls[|s.calls|] == RefreshCall(s.browser.refreshToken.value, Awaited, false, true);
    assert RefreshingWith(t, s.browser.refreshToken.value);
  }

  /** With nothing in flight and no logout under way, the stored token is unused and nowhere else. */
  lemma StoredIsIdle(s: System)
    requires Custody(s) && SingleFlight(s)
    requires s.browser.inFlight == None && s.browser.refreshToken.Some?
    requires !LoggingOut(s, s.browser.refreshToken.value)
    ensures var token := s.browser.refreshToken.value;
            Unused(s, token) && !Arriving(s, token) && !OnTheWay(s, token)
  {
    assert !RefreshingWith(s, s.browser.refreshToken.value);
  }

  lemma StartedTransit(s: System, r: nat)
    requires InTransit(s) && SingleFlight(s) && r < |s.requests|
    requires s.browser.inFlight == None && s.browser.refreshToken.Some?
    requires Unused(s, s.browser.refreshToken.value) && !Arriving(s, s.browser.refreshToken.value)
    ensures InTransit(FirstReply(s, r, Unauthorized))
  {
    var t := FirstReply(s, r, Unauthorized);
    assert forall token: nat :: Arriving(t, token) <==> Arriving(s, token);
    assert forall token: nat :: Unused(t, token) <==> Unused(s, token);
  }

  lemma StartedShownOnce(s: System, r: nat)
    requires ShownOnce(s) && r < |s.requests|
    requires s.browser.inFlight == None && s.browser.refreshToken.Some?
    requires var token := s.browser.refreshToken.value;
             Unused(s, token) && !Arriving(s, token) && !OnTheWay(s, token)
    ensures ShownOnce(FirstReply(s, r, Unauthorized))
  {
    var t := FirstReply(s, r, Unauthorized);
    assert forall token: nat :: Arriving(t, token) <==> Arriving(s, token);
    assert forall token: nat :: Unused(t, token) <==> Unused(s, token);
    assert forall c :: 0 <= c < |s.calls| && !s.calls[c].seen ==> s.calls[c].token != s.browser.refreshToken.value;
  }

  lemma KeptByReply(s: System, r: nat, status: Status)
    requires Inv(s) && Enabled(s, Reply(r, status)) && !Hazard(s, Reply(r, status))
    ensures Inv(Next(s, Reply(r, status)))
  {
    if status == Ok {
      KeptByEnding(s, r, Succeeded, false);
    } else if s.requests[r].phase.Retried? {
      KeptByEnding(s, r, Failed, true);
    } else if status == OtherError {
      KeptByEnding(s, r, Failed, s.requests[r].bootstrap);
    } else if s.browser.inFlight.Some? {
      KeptByJoining(s, r, s.browser.inFlight.value);
    } else if s.browser.refreshToken == None {
      KeptByEnding(s, r, Failed, true);
    } else {
      KeptByStarting(s, r);
    }
  }

  /** The tokens a served refresh does not touch stay as they were. */
  lemma ServeKeepsOthers(s: System, c: nat, accept: bool, token: nat)
    requires Enabled(s, ServeRefresh(c, accept))
    ensures var t := Serve(s, c, accept);
            && (token != s.calls[c].token && Unused(s, token) ==> Unused(t, token))
            && (Arriving(t, token) <==> Arriving(s, token))
            && (LoggingOut(t, token) <==> LoggingOut(s, token))
            && (OnTheWay(t, token) ==> OnTheWay(s, token))
            && (RefreshingWith(s, token) ==> RefreshingWith(t, token))
  {
    var t := Serve(s, c, accept);
    if i :| 0 <= i < |s.calls| && Outstanding(s.calls[i]) && s.calls[i].token == token {
      assert Outstanding(t.calls[i]) && t.calls[i].token == token;
    }
    assert forall i :: 0 <= i < |s.presented| ==> t.presented[i] == s.presented[i];
  }

  lemma ServeKeepsFlight(s: System, c: nat, accept: bool)
    requires SingleFlight(s) && SentAtMostTwice(s) && Enabled(s, ServeRefresh(c, accept))
    ensures SingleFlight(Serve(s, c, accept)) && SentAtMostTwice(Serve(s, c, accept))
  {
  }

  lemma ServeKeepsInTransit(s: System, c: nat, accept: bool)
    requires InTransit(s) && ShownOnce(s) && StoredIsFresh(s) && NoReplay(s) && Enabled(s, ServeRefresh(c, accept))
    ensures InTransit(Serve(s, c, accept))
  {
    var t := Serve(s, c, accept);
    forall token: nat
      ensures token != s.calls[c].token && Unused(s, token) ==> Unused(t, token)
      ensures Arriving(t, token) <==> Arriving(s, token)
      ensures OnTheWay(t, token) ==> OnTheWay(s, token)
    {
      ServeKeepsOthers(s, c, accept, token);
    }
    assert OnTheWay(s, s.calls[c].token);
    forall l | 0 <= l < |t.logins| && !t.logins[l].arrived
      ensures Unused(t, t.logins[l].pair)
    {
      assert Arriving(s, s.logins[l].pair);
    }
  }

  lemma ServeKeepsShownOnce(s: System, c: nat, accept: bool)
    requires ShownOnce(s) && NoReplay(s) && Enabled(s, ServeRefresh(c, accept))
    ensures ShownOnce(Serve(s, c, accept)) && NoReplay(Serve(s, c, accept))
  {
    var t := Serve(s, c, accept);
    forall token: nat
      ensures token != s.calls[c].token && Unused(s, token) ==> Unused(t, token)
      ensures Arriving(t, token) <==> Arriving(s, token)
    {
      ServeKeepsOthers(s, c, accept, token);
    }
    assert t.presented == s.presented + [s.calls[c].token];
    assert s.calls[c].token in t.presented;
  }

  lemma KeptByServeRefresh(s: System, c: nat, accept: bool)
    requires Inv(s) && Enabled(s, ServeRefresh(c, accept))
    ensures Inv(Next(s, ServeRefresh(c, accept)))
  {
    ServeKeepsFlight(s, c, accept);
    ServeKeepsInTransit(s, c, accept);
    ServeKeepsShownOnce(s, c, accept);
    if s.browser.refreshToken.Some? {
      ServeKeepsOthers(s, c, accept, s.browser.refreshToken.value);
    }
  }

  /** Calls that change only in what the client will be told keep their tokens where they are. */
  lemma SameCallTokens(s: System, t: System, token: nat)
    requires |t.calls| == |s.calls|
    requires forall i :: 0 <= i < |s.calls| ==>
               && t.calls[i].token == s.calls[i].token && t.calls[i].seen == s.calls[i].seen
               && (Outstanding(t.calls[i]) <==> Outstanding(s.calls[i]))
    ensures OnTheWay(t, token) <==> OnTheWay(s, token)
    ensures RefreshingWith(t, token) <==> RefreshingWith(s, token)
  {
    if i :| 0 <= i < |s.calls| && !s.calls[i].seen && s.calls[i].token == token {
      assert !t.calls[i].seen && t.calls[i].token == token;
    }
    if i :| 0 <= i < |s.calls| && Outstanding(s.calls[i]) && s.calls[i].token == token {
      assert Outstanding(t.calls[i]) && t.calls[i].token == token;
    }
  }

  lemma KeptByLoseCall(s: System, c: nat)
    requires Inv(s) && Enabled(s, LoseCall(c))
    ensures Inv(Next(s, LoseCall(c)))
  {
    FlightOfLosing(s, c);
    CustodyOfLosing(s, c);
  }

  lemma FlightOfLosing(s: System, c: nat)
    requires Flight(s) && Enabled(s, LoseCall(c))
    ensures Flight(Next(s, LoseCall(c)))
  {
    assert forall i :: HasSubscriber(s, i) ==> HasSubscriber(Next(s, LoseCall(c)), i);
  }

  lemma CustodyOfLosing(s: System, c: nat)
    requires Custody(s) && Enabled(s, LoseCall(c))
    ensures Custody(Next(s, LoseCall(c)))
  {
    var t := Next(s, LoseCall(c));
    LosingTransit(s, c);
    LosingShownOnce(s, c);
    forall token: nat
      ensures RefreshingWith(t, token) <==> RefreshingWith(s, token)
      ensures Arriving(t, token) <==> Arriving(s, token)
      ensures LoggingOut(t, token) <==> LoggingOut(s, token)
      ensures Unused(t, token) <==> Unused(s, token)
    {
      SameCallTokens(s, t, token);
    }
  }

  lemma LosingTransit(s: System, c: nat)
    requires InTransit(s) && Enabled(s, LoseCall(c))
    ensures InTransit(Next(s, LoseCall(c)))
  {
    var t := Next(s, LoseCall(c));
    forall token: nat
      ensures OnTheWay(t, token) <==> OnTheWay(s, token)
      ensures Arriving(t, token) <==> Arriving(s, token)
      ensures Unused(t, token) <==> Unused(s, token)
    {
      SameCallTokens(s, t, token);
    }
  }

  lemma LosingShownOnce(s: System, c: nat)
    requires ShownOnce(s) && Enabled(s, LoseCall(c))
    ensures ShownOnce(Next(s, LoseCall(c)))
  {
    var t := Next(s, LoseCall(c));
    assert forall token: nat :: Arriving(t, token) <==> Arriving(s, token);
    assert forall token: nat :: Unused(t, token) <==> Unused(s, token);
  }

  lemma KeptByDeliverRefresh(s: System, c: nat)
    requires Inv(s) && Enabled(s, DeliverRefresh(c))
    ensures Inv(Next(s, DeliverRefresh(c)))
  {
    FlightOfDelivery(s, c);
    CustodyOfDelivery(s, c);
  }

  lemma FlightOfDelivery(s: System, c: nat)
    requires Flight(s) && Enabled(s, DeliverRefresh(c))
    ensures Flight(Next(s, DeliverRefresh(c)))
  {
  }

  /** Once it is delivered nothing is awaited; what it leaves stored is its pair, unused, or nothing. */
  lemma CustodyOfDelivery(s: System, c: nat)
    requires Custody(s) && SingleFlight(s) && Enabled(s, DeliverRefresh(c))
    ensures Custody(Next(s, DeliverRefresh(c)))
  {
    DeliveredIsStored(s, c);
    DeliveredShownOnce(s, c);
    DeliveredTransit(s, c);
  }

  lemma DeliveredBrowser(s: System, c: nat)
    requires SingleFlight(s) && Enabled(s, DeliverRefresh(c))
    ensures var t := Next(s, DeliverRefresh(c));
            && t.browser.accessToken == t.browser.refreshToken
            && t.browser.refreshToken == (if s.calls[c].stage.Granted? then Some(s.calls[c].stage.pair) else None)
            && (forall d :: 0 <= d < |t.calls| ==> !Outstanding(t.calls[d]))
  {
    assert Outstanding(s.calls[c]) && HasSubscriber(s, c);
  }

  lemma DeliveredIsStored(s: System, c: nat)
    requires Custody(s) && SingleFlight(s) && Enabled(s, DeliverRefresh(c))
    ensures StoredIsFresh(Next(s, DeliverRefresh(c))) && NoReplay(Next(s, DeliverRefresh(c)))
  {
    var t := Next(s, DeliverRefresh(c));
    DeliveredBrowser(s, c);
    assert Outstanding(s.calls[c]);
    assert forall token: nat :: Arriving(t, token) <==> Arriving(s, token);
  }

  lemma DeliveredShownOnce(s: System, c: nat)
    requires Custody(s) && SingleFlight(s) && Enabled(s, DeliverRefresh(c))
    ensures ShownOnce(Next(s, DeliverRefresh(c)))
  {
    var t := Next(s, DeliverRefresh(c));
    DeliveredBrowser(s, c);
    assert Outstanding(s.calls[c]);
    assert forall token: nat :: Arriving(t, token) <==> Arriving(s, token);
    assert forall token: nat :: Unused(t, token) <==> Unused(s, token);
    forall d | 0 <= d < |t.calls| && !t.calls[d].seen
      ensures t.browser.refreshToken != Some(t.calls[d].token)
    {
      assert OnTheWay(s, s.calls[d].token);
    }
  }

  lemma DeliveredTransit(s: System, c: nat)
    requires Custody(s) && SingleFlight(s) && Enabled(s, DeliverRefresh(c))
    ensures InTransit(Next(s, DeliverRefresh(c)))
  {
    var t := Next(s, DeliverRefresh(c));
    DeliveredBrowser(s, c);
    assert forall token: nat :: Unused(t, token) <==> Unused(s, token);
  }

  lemma KeptByServeLogin(s: System)
    requires Inv(s)
    ensures Inv(Next(s, ServeLogin))
  {
    SameFlight(s, Next(s, ServeLogin));
    CustodyOfServedLogin(s);
  }

  lemma CustodyOfServedLogin(s: System)
    requires Custody(s)
    ensures Custody(Next(s, ServeLogin))
  {
    var t := Next(s, ServeLogin);
    ServedLoginTransit(s);
    forall token: nat
      ensures OnTheWay(t, token) <==> OnTheWay(s, token)
      ensures RefreshingWith(t, token) <==> RefreshingWith(s, token)
      ensures Arriving(t, token) <==> Arriving(s, token) || token == |s.revoked|
      ensures LoggingOut(t, token) <==> LoggingOut(s, token)
      ensures Unused(s, token) ==> Unused(t, token)
    {
      ServedLoginArrives(s, token);
    }
  }

  lemma ServedLoginTransit(s: System)
    requires InTransit(s) && ShownOnce(s) && NoReplay(s) && StoredIsFresh(s)
    ensures InTransit(Next(s, ServeLogin))
  {
    var t := Next(s, ServeLogin);
    forall token: nat
      ensures Arriving(t, token) <==> Arriving(s, token) || token == |s.revoked|
      ensures Unused(s, token) ==> Unused(t, token)
    {
      ServedLoginArrives(s, token);
    }
  }

  lemma ServedLoginArrives(s: System, token: nat)
    ensures Arriving(Next(s, ServeLogin), token) <==> Arriving(s, token) || token == |s.revoked|
  {
    var t := Next(s, ServeLogin);
    assert t.logins[|s.logins|].pair == |s.revoked|;
    if l :| 0 <= l < |s.logins| && !s.logins[l].arrived && s.logins[l].pair == token {
      assert !t.logins[l].arrived && t.logins[l].pair == token;
    }
  }

  lemma KeptByDeliverLogin(s: System, l: nat)
    requires Inv(s) && Enabled(s, DeliverLogin(l))
    ensures Inv(Next(s, DeliverLogin(l)))
  {
    SameFlight(s, Next(s, DeliverLogin(l)));
    CustodyOfDeliveredLogin(s, l);
  }

  lemma CustodyOfDeliveredLogin(s: System, l: nat)
    requires Custody(s) && Enabled(s, DeliverLogin(l))
    ensures Custody(Next(s, DeliverLogin(l)))
  {
    var t := Next(s, DeliverLogin(l));
    assert Arriving(s, s.logins[l].pair) && !Arriving(t, s.logins[l].pair);
    forall token: nat
      ensures OnTheWay(t, token) <==> OnTheWay(s, token)
      ensures Arriving(t, token) ==> Arriving(s, token)
      ensures Unused(t, token) <==> Unused(s, token)
    {
    }
  }

  lemma KeptByStartLogout(s: System)
    requires Inv(s) && !Hazard(s, StartLogout)
    ensures Inv(Next(s, StartLogout))
  {
    if s.browser.refreshToken == None {
      KeptByClearing(s);
      assert Next(s, StartLogout) == s.(browser := ClearedSession(s.browser));
    } else {
      SameFlight(s, Next(s, StartLogout));
      CustodyOfStartedLogout(s);
    }
  }

  lemma CustodyOfStartedLogout(s: System)
    requires Custody(s) && s.browser.refreshToken.Some? && !OnTheWay(s, s.browser.refreshToken.value)
    ensures Custody(Next(s, StartLogout))
  {
    var t := Next(s, StartLogout);
    var stored := s.browser.refreshToken.value;
    assert !Arriving(s, stored);
    StartedLogoutTransit(s);
    StartedLogoutShownOnce(s);
    forall token: nat
      ensures RefreshingWith(t, token) <==> RefreshingWith(s, token)
      ensures Arriving(t, token) <==> Arriving(s, token)
    {
    }
    assert LoggingOut(t, stored) by {
      assert t.logouts[|s.logouts|] == LogoutCall(stored, false);
    }
  }

  lemma StartedLogoutTransit(s: System)
    requires InTransit(s) && s.browser.refreshToken.Some? && !Arriving(s, s.browser.refreshToken.value)
    ensures InTransit(Next(s, StartLogout))
  {
    var t := Next(s, StartLogout);
    forall token: nat
      ensures OnTheWay(t, token) <==> OnTheWay(s, token)
      ensures Arriving(t, token) <==> Arriving(s, token)
      ensures Unused(t, token) <==> Unused(s, token) && token != s.browser.refreshToken.value
    {
      StoredIsLoggedOut(s, token);
    }
    assert forall l :: 0 <= l < |s.logins| && !s.logins[l].arrived ==> Arriving(s, s.logins[l].pair);
  }

  lemma StartedLogoutShownOnce(s: System)
    requires ShownOnce(s) && s.browser.refreshToken.Some? && !OnTheWay(s, s.browser.refreshToken.value)
    ensures ShownOnce(Next(s, StartLogout))
  {
    var t := Next(s, StartLogout);
    forall token: nat
      ensures Arriving(t, token) <==> Arriving(s, token)
      ensures Unused(t, token) <==> Unused(s, token) && token != s.browser.refreshToken.value
    {
      StoredIsLoggedOut(s, token);
    }
    assert forall c :: 0 <= c < |s.calls| && !s.calls[c].seen ==> OnTheWay(s, s.calls[c].token);
  }

  lemma StoredIsLoggedOut(s: System, token: nat)
    requires s.browser.refreshToken.Some?
    ensures Unused(Next(s, StartLogout), token) <==> Unused(s, token) && token != s.browser.refreshToken.value
  {
    var t := Next(s, StartLogout);
    assert t.logouts[|s.logouts|].token == s.browser.refreshToken.value;
    assert forall k :: 0 <= k < |s.logouts| ==> t.logouts[k] == s.logouts[k];
  }

  lemma KeptByServeLogout(s: System, k: nat, readable: bool)
    requires Inv(s) && Enabled(s, ServeLogout(k, readable))
    ensures Inv(Next(s, ServeLogout(k, readable)))
  {
    SameFlight(s, Next(s, ServeLogout(k, readable)));
    CustodyOfServedLogout(s, k, readable);
  }

  lemma CustodyOfServedLogout(s: System, k: nat, readable: bool)
    requires Custody(s) && Enabled(s, ServeLogout(k, readable))
    ensures Custody(Next(s, ServeLogout(k, readable)))
  {
    var t := Next(s, ServeLogout(k, readable));
    forall token: nat
      ensures OnTheWay(t, token) <==> OnTheWay(s, token)
      ensures RefreshingWith(t, token) <==> RefreshingWith(s, token)
      ensures Arriving(t, token) <==> Arriving(s, token)
      ensures LoggingOut(t, token) <==> LoggingOut(s, token)
      ensures Unused(t, token) <==> Unused(s, token)
    {
    }
  }

  lemma KeptByFinishLogout(s: System, k: nat)
    requires Inv(s) && Enabled(s, FinishLogout(k))
    ensures Inv(Next(s, FinishLogout(k)))
  {
    SameFlight(s, Next(s, FinishLogout(k)));
    CustodyOfFinishedLogout(s, k);
  }

  lemma CustodyOfFinishedLogout(s: System, k: nat)
    requires Custody(s) && Enabled(s, FinishLogout(k))
    ensures Custody(Next(s, FinishLogout(k)))
  {
    var t := Next(s, FinishLogout(k));
    assert forall i :: 0 <= i < |t.logouts| ==> t.logouts[i].token == s.logouts[i].token;
    forall token: nat
      ensures OnTheWay(t, token) <==> OnTheWay(s, token)
      ensures Arriving(t, token) <==> Arriving(s, token)
      ensures Unused(t, token) <==> Unused(s, token)
    {
    }
  }

  lemma KeptByLeaving(s: System, step: Step)
    requires step.Unsubscribe? || step.Reload?
    requires Inv(s) && Enabled(s, step) && !Hazard(s, step)
    ensures Inv(Next(s, step))
  {
    if step.Unsubscribe? {
      KeptByEnding(s, step.subscriber, Cancelled, false);
    } else {
      FlightOfReload(s);
      CustodyOfReload(s);
    }
  }

  lemma FlightOfReload(s: System)
    requires Flight(s)
    ensures Flight(Next(s, Reload))
  {
  }

  lemma CustodyOfReload(s: System)
    requires Custody(s) && !Hazard(s, Reload)
    ensures Custody(Next(s, Reload))
  {
    var t := Next(s, Reload);
    assert forall k :: 0 <= k < |t.logouts| ==> t.logouts[k].token == s.logouts[k].token;
    assert forall c :: 0 <= c < |t.calls| ==> t.calls[c] == s.calls[c].(listening := false);
    forall token: nat
      ensures !Arriving(t, token)
      ensures Unused(t, token) <==> Unused(s, token)
    {
    }
    if s.browser.refreshToken.Some? {
      assert !RefreshingWith(s, s.browser.refreshToken.value);
    }
  }

  lemma StepKeepsInv(s: System, step: Step)
    requires Inv(s) && Enabled(s, step) && !Hazard(s, step)
    ensures Inv(Next(s, step))
  {
    match step
    case NewRequest(bootstrap) => KeptByNewRequest(s, bootstrap);
    case Reply(r, status) => KeptByReply(s, r, status);
    case ServeRefresh(c, accept) => KeptByServeRefresh(s, c, accept);
    case LoseCall(c) => KeptByLoseCall(s, c);
    case DeliverRefresh(c) => KeptByDeliverRefresh(s, c);
    case ServeLogin => KeptByServeLogin(s);
    case DeliverLogin(l) => KeptByDeliverLogin(s, l);
    case StartLogout => KeptByStartLogout(s);
    case ServeLogout(k, readable) => KeptByServeLogout(s, k, readable);
    case FinishLogout(k) => KeptByFinishLogout(s, k);
    case Unsubscribe(_) => KeptByLeaving(s, step);
    case Reload => KeptByLeaving(s, step);
  }

  lemma {:induction false} RunKeepsInv(steps: seq<Step>)
    requires HazardFree(steps) && Run(steps).Some?
    ensures Inv(Run(steps).value)
  {
    if steps == [] {
    } else {
      RunKeepsInv(steps[..|steps| - 1]);
      StepKeepsInv(Run(steps[..|steps| - 1]).value, steps[|steps| - 1]);
    }
  }

  /* ---------- Main results ---------- */

  /** The protocol's promise is broken: two refreshes outstanding, a token shown twice, or shown after its
      revocation. */
  ghost predicate Broken(s: System) {
    || s.replays > 0
    || (exists i, j :: 0 <= i < j < |s.presented| && s.presented[i] == s.presented[j])
    || (exists c, d :: 0 <= c < d < |s.calls| && Outstanding(s.calls[c]) && Outstanding(s.calls[d]))
  }

  /** Every hazard-free run: one refresh outstanding at most, no refresh token presented twice or after its
      revocation, no request sent more than twice, and, when nothing is outstanding, a stored token that is live. */
  lemma HazardFreeRunsAreSafe(steps: seq<Step>)
    requires HazardFree(steps) && Run(steps).Some?
    ensures var s := Run(steps).value;
            && !Broken(s)
            && (forall r :: 0 <= r < |s.requests| ==> s.requests[r].sends <= 2)
            && s.browser.accessToken == s.browser.refreshToken
            && (&& s.browser.refreshToken.Some?
                && (forall c :: 0 <= c < |s.calls| ==> !Outstanding(s.calls[c]))
                && (forall k :: 0 <= k < |s.logouts| ==> s.logouts[k].finished)
                ==> Unused(s, s.browser.refreshToken.value))
  {
    RunKeepsInv(steps);
  }

  /** Whatever the server is shown next in a hazard-free run is a live session's token. */
  lemma PresentedTokenIsLive(steps: seq<Step>, call: nat, accept: bool)
    requires HazardFree(steps) && Run(steps).Some? && Enabled(Run(steps).value, ServeRefresh(call, accept))
    ensures !Run(steps).value.revoked[Run(steps).value.calls[call].token]
    ensures var s := Run(steps).value;
            && Next(s, ServeRefresh(call, true)).revoked == s.revoked[s.calls[call].token := true] + [false]
            && (s.calls[call].stage.Awaited? ==>
                Next(s, ServeRefresh(call, true)).calls[call].stage == Granted(|s.revoked|))
  {
    RunKeepsInv(steps);
  }

  /** The run `steps + [step] + more` breaks the promise, and none of `more` was hazardous when taken. */
  ghost predicate BreaksAfter(steps: seq<Step>, step: Step, more: seq<Step>) {
    && Run(steps + [step] + more).Some? && Broken(Run(steps + [step] + more).value)
    && HazardFreeFrom(steps + [step] + more, |steps| + 1)
  }

  lemma Take(steps: seq<Step>, s: System, step: Step, from: nat) returns (steps': seq<Step>, s': System)
    requires Run(steps) == Some(s) && Enabled(s, step)
    ensures steps' == steps + [step] && s' == Next(s, step) && Run(steps') == Some(s')
    ensures |steps| < from || (HazardFreeFrom(steps, from) && !Hazard(s, step)) ==> HazardFreeFrom(steps', from)
  {
    steps', s' := steps + [step], Next(s, step);
    assert (steps + [step])[..|steps|] == steps;
  }

  /** Exactness: after a hazard-free run, a step is hazardous if and only if the promise can be broken after it without
      any further hazard. */
  lemma HazardIff(steps: seq<Step>, step: Step)
    requires HazardFree(steps) && Run(steps).Some? && Enabled(Run(steps).value, step)
    ensures Hazard(Run(steps).value, step) <==> exists more :: BreaksAfter(steps, step, more)
  {
    if Hazard(Run(steps).value, step) {
      var more := HazardCanBreak(steps, step);
    } else if more :| BreaksAfter(steps, step, more) {
      SafeStepCannotBreak(steps, step, more);
    }
  }

  lemma HazardCanBreak(steps: seq<Step>, step: Step) returns (more: seq<Step>)
    requires HazardFree(steps) && Run(steps).Some? && Enabled(Run(steps).value, step)
    requires Hazard(Run(steps).value, step)
    ensures BreaksAfter(steps, step, more)
  {
    RunKeepsInv(steps);
    var all, t := Take(steps, Run(steps).value, step, |steps| + 1);
    assert Extends(steps, step, all, t);
    more := HazardBreaks(steps, Run(steps).value, step, all, t);
  }

  lemma SafeStepCannotBreak(steps: seq<Step>, step: Step, more: seq<Step>)
    requires HazardFree(steps) && Run(steps).Some? && !Hazard(Run(steps).value, step)
    ensures !BreaksAfter(steps, step, more)
  {
    var all := steps + [step] + more;
    if Run(all).Some? && HazardFreeFrom(all, |steps| + 1) {
      assert all[..|steps|] == steps && all[|steps|] == step;
      HazardFreeThroughout(all, |steps|);
      HazardFreeRunsAreSafe(all);
    }
  }

  /** A run that is free of hazards before position `n`, at it and after it is free of hazards. */
  lemma {:induction false} HazardFreeThroughout(all: seq<Step>, n: nat)
    requires n < |all| && HazardFree(all[..n]) && HazardFreeFrom(all, n + 1)
    requires Run(all[..n]).Some? && !Hazard(Run(all[..n]).value, all[n])
    ensures HazardFree(all)
  {
    var m := |all| - 1;
    if n == m {
      assert all[..n] == all[..m];
    } else {
      assert all[..m][..n] == all[..n];
      HazardFreeThroughout(all[..m], n);
    }
  }

  /** `all`, ending in `t`, extends the run whose last step was hazardous. */
  ghost predicate Extends(steps: seq<Step>, step: Step, all: seq<Step>, t: System) {
    && steps + [step] <= all && Run(all) == Some(t) && HazardFreeFrom(all, |steps| + 1)
  }

  lemma Extend(steps: seq<Step>, step: Step, all: seq<Step>, t: System, next: Step)
    returns (all': seq<Step>, t': System)
    requires Extends(steps, step, all, t) && Enabled(t, next) && !Hazard(t, next)
    ensures Extends(steps, step, all', t') && t' == Next(t, next)
  {
    all', t' := Take(all, t, next, |steps| + 1);
  }

  lemma Conclude(steps: seq<Step>, step: Step, all: seq<Step>, t: System) returns (more: seq<Step>)
    requires Extends(steps, step, all, t) && Broken(t)
    ensures BreaksAfter(steps, step, more)
  {
    more := all[|steps| + 1..];
    assert steps + [step] + more == all;
  }

  lemma HazardBreaks(steps: seq<Step>, s: System, step: Step, all: seq<Step>, t: System) returns (more: seq<Step>)
    requires Run(steps) == Some(s) && Inv(s) && Enabled(s, step) && Hazard(s, step)
    requires t == Next(s, step) && all == steps + [step] && Extends(steps, step, all, t)
    ensures BreaksAfter(steps, step, more)
  {
    match step
    case Unsubscribe(r) =>
      var c := s.requests[r].phase.call;
      more := SecondFlightBreaks(steps, step, all, t, c);
    case StartLogout =>
      var c: nat :| c < |s.calls| && !s.calls[c].seen && s.calls[c].token == s.browser.refreshToken.value;
      more := LogoutThenRefreshBreaks(steps, step, all, t, |s.logouts|, c);
    case Reply(r, _) =>
      var k: nat :|
        k < |s.logouts| && !s.logouts[k].finished && s.logouts[k].token == s.browser.refreshToken.value;
      more := LogoutThenRefreshBreaks(steps, step, all, t, k, |s.calls|);
    case Reload =>
      more := ReloadBreaks(steps, s, all, t);
  }

  lemma ReloadBreaks(steps: seq<Step>, s: System, all: seq<Step>, t: System) returns (more: seq<Step>)
    requires Custody(s) && Hazard(s, Reload) && t == Next(s, Reload) && Extends(steps, Reload, all, t)
    ensures BreaksAfter(steps, Reload, more)
  {
    var token := s.browser.refreshToken.value;
    if RefreshingWith(s, token) {
      var c: nat :| c < |s.calls| && Outstanding(s.calls[c]) && s.calls[c].token == token;
      more := ReloadedRefreshBreaks(steps, Reload, all, t, token, c);
    } else {
      var k: nat :| k < |s.logouts| && !s.logouts[k].finished && s.logouts[k].token == token;
      more := ReloadedLogoutBreaks(steps, Reload, all, t, token, k);
    }
  }

  /** With the shared refresh forgotten but still awaited, a new login's first 401 starts a second one. */
  lemma SecondFlightBreaks(steps: seq<Step>, step: Step, all: seq<Step>, t: System, c: nat) returns (more: seq<Step>)
    requires Extends(steps, step, all, t)
    requires t.browser.inFlight == None && c < |t.calls| && Outstanding(t.calls[c])
    requires forall k :: 0 <= k < |t.logouts| ==> t.logouts[k].token < |t.revoked|
    ensures BreaksAfter(steps, step, more)
  {
    var all', u := Extend(steps, step, all, t, ServeLogin);
    all', u := Extend(steps, step, all', u, DeliverLogin(|t.logins|));
    assert u.browser.refreshToken == Some(|t.revoked|) && u.logouts == t.logouts;
    all', u := NextRefresh(steps, step, all', u);
    assert Outstanding(u.calls[c]) && Outstanding(u.calls[|t.calls|]);
    more := Conclude(steps, step, all', u);
  }

  /** A fresh request and its 401 start a refresh with the stored token. */
  lemma NextRefresh(steps: seq<Step>, step: Step, all: seq<Step>, t: System) returns (all': seq<Step>, u: System)
    requires Extends(steps, step, all, t)
    requires t.browser.inFlight == None && t.browser.refreshToken.Some?
    requires !LoggingOut(t, t.browser.refreshToken.value)
    ensures Extends(steps, step, all', u)
    ensures u.calls == t.calls + [RefreshCall(t.browser.refreshToken.value, Awaited, false, true)]
    ensures u.revoked == t.revoked && u.presented == t.presented && u.logouts == t.logouts
  {
    all', u := Extend(steps, step, all, t, NewRequest(false));
    all', u := Extend(steps, step, all', u, Reply(|t.requests|, Unauthorized));
  }

  /** The server handles the logout first and then sees the refresh. */
  lemma LogoutThenRefreshBreaks(steps: seq<Step>, step: Step, all: seq<Step>, t: System, k: nat, c: nat)
    returns (more: seq<Step>)
    requires Extends(steps, step, all, t)
    requires k < |t.logouts| && c < |t.calls| && !t.calls[c].seen
    requires t.logouts[k].token == t.calls[c].token < |t.revoked|
    ensures BreaksAfter(steps, step, more)
  {
    var all', u := Extend(steps, step, all, t, ServeLogout(k, true));
    all', u := Extend(steps, step, all', u, ServeRefresh(c, true));
    more := Conclude(steps, step, all', u);
  }

  /** The reloaded page refreshes with the token that the forgotten refresh uses, too. */
  lemma ReloadedRefreshBreaks(steps: seq<Step>, step: Step, all: seq<Step>, t: System, token: nat, c: nat)
    returns (more: seq<Step>)
    requires Extends(steps, step, all, t)
    requires t.browser == Browser(t.browser.accessToken, Some(token), None) && token < |t.revoked|
    requires c < |t.calls| && t.calls[c].token == token && (t.calls[c].seen ==> token in t.presented)
    requires forall k :: 0 <= k < |t.logouts| ==> t.logouts[k].finished
    ensures BreaksAfter(steps, step, more)
  {
    var all', u := NextRefresh(steps, step, all, t);
    var d := |t.calls|;
    if !t.calls[c].seen {
      all', u := Extend(steps, step, all', u, ServeRefresh(c, true));
      assert u.presented[|t.presented|] == token;
    }
    assert token in u.presented && u.calls[d].token == token && !u.calls[d].seen;
    var i :| 0 <= i < |u.presented| && u.presented[i] == token;
    var n := |u.presented|;
    all', u := Extend(steps, step, all', u, ServeRefresh(d, true));
    assert u.presented[i] == u.presented[n];
    more := Conclude(steps, step, all', u);
  }

  /** The reloaded page still stores the token whose logout it has forgotten. */
  lemma ReloadedLogoutBreaks(steps: seq<Step>, step: Step, all: seq<Step>, t: System, token: nat, k: nat)
    returns (more: seq<Step>)
    requires Extends(steps, step, all, t)
    requires t.browser == Browser(t.browser.accessToken, Some(token), None) && token < |t.revoked|
    requires k < |t.logouts| && t.logouts[k].token == token
    requires forall k :: 0 <= k < |t.logouts| ==> t.logouts[k].finished
    ensures BreaksAfter(steps, step, more)
  {
    var all', u := NextRefresh(steps, step, all, t);
    more := LogoutThenRefreshBreaks(steps, step, all', u, k, |t.calls|);
  }

  /** The run replays a revoked token, and the step at `i` is its one hazardous step. */
  ghost predicate ReplaysDueTo(steps: seq<Step>, i: nat) {
    && i < |steps|
    && Run(steps).Some? && Run(steps).value.replays > 0
    && HazardFree(steps[..i])
    && Run(steps[..i]).Some? && Hazard(Run(steps[..i]).value, steps[i])
    && HazardFreeFrom(steps, i + 1)
  }

  /** A browser signed in with session 0 whose first request is under way. */
  lemma SignedIn() returns (steps: seq<Step>, s: System)
    ensures |steps| == 3 && Run(steps) == Some(s) && HazardFree(steps)
    ensures s.browser == Browser(Some(0), Some(0), None) && s.calls == [] && s.logouts == []
    ensures s.requests == [AppRequest(Some(0), Sent, 1, false)]
    ensures s.logins == [LoginCall(0, true)] && s.revoked == [false] && s.presented == [] && s.replays == 0
  {
    steps, s := Take([], START, ServeLogin, 0);
    steps, s := Take(steps, s, DeliverLogin(0), 0);
    steps, s := Take(steps, s, NewRequest(false), 0);
  }

  /** ... and that request has come back with a 401 and started the refresh. */
  lemma Refreshing() returns (steps: seq<Step>, s: System)
    ensures |steps| == 4 && Run(steps) == Some(s) && HazardFree(steps)
    ensures s.browser == Browser(Some(0), Some(0), Some(0)) && s.logouts == []
    ensures s.calls == [RefreshCall(0, Awaited, false, true)]
    ensures s.requests == [AppRequest(Some(0), Waiting(0), 1, false)]
    ensures s.logins == [LoginCall(0, true)] && s.revoked == [false] && s.presented == [] && s.replays == 0
  {
    steps, s := SignedIn();
    steps, s := Take(steps, s, Reply(0, Unauthorized), 0);
  }

  /** A browser that has forgotten its refresh and stores a revoked token presents it at the next 401. */
  lemma StoredReplays(steps: seq<Step>, s: System, from: nat) returns (steps': seq<Step>, s': System)
    requires Run(steps) == Some(s) && from <= |steps| && HazardFreeFrom(steps, from)
    requires s.browser.inFlight == None && s.browser.refreshToken.Some?
    requires s.browser.refreshToken.value < |s.revoked| && s.revoked[s.browser.refreshToken.value]
    requires forall k :: 0 <= k < |s.logouts| ==> s.logouts[k].finished
    ensures steps <= steps' && Run(steps') == Some(s') && HazardFreeFrom(steps', from)
    ensures s'.replays == s.replays + 1
  {
    steps', s' := Take(steps, s, NewRequest(false), from);
    steps', s' := Take(steps', s', Reply(|s.requests|, Unauthorized), from);
    assert s'.calls == s.calls + [RefreshCall(s.browser.refreshToken.value, Awaited, false, true)];
    steps', s' := Take(steps', s', ServeRefresh(|s.calls|, true), from);
  }

  /** `finalize` sits downstream of the sharing, so a subscriber that leaves lets a second refresh start. */
  lemma EarlyUnsubscribeReplays() returns (steps: seq<Step>)
    ensures ReplaysDueTo(steps, 4) && steps[4].Unsubscribe?
  {
    var before, s := Refreshing();
    steps, s := Take(before, s, Unsubscribe(0), 5);
    steps, s := Take(steps, s, ServeRefresh(0, true), 5);
    steps, s := StoredReplays(steps, s, 5);
    assert steps[..4] == before;
  }

  lemma LogoutDuringRefreshReplays() returns (steps: seq<Step>)
    ensures ReplaysDueTo(steps, 4) && steps[4].StartLogout?
  {
    var before, s := Refreshing();
    assert RefreshingWith(s, 0) by {
      assert s.calls[0].token == 0;
    }
    steps, s := Take(before, s, StartLogout, 5);
    steps, s := Take(steps, s, ServeLogout(0, true), 5);
    steps, s := Take(steps, s, ServeRefresh(0, true), 5);
    assert steps[..4] == before;
  }

  lemma RefreshDuringLogoutReplays() returns (steps: seq<Step>)
    ensures ReplaysDueTo(steps, 5) && steps[5].Reply?
  {
    var before, s := SignedIn();
    before, s := Take(before, s, StartLogout, 0);
    before, s := Take(before, s, ServeLogout(0, true), 0);
    assert s.browser == Browser(Some(0), Some(0), None) && s.calls == [] && s.revoked == [true];
    assert LoggingOut(s, 0) by {
      assert s.logouts[0].token == 0;
    }
    steps, s := Take(before, s, Reply(0, Unauthorized), 6);
    assert s.calls == [RefreshCall(0, Awaited, false, true)] && s.revoked == [true] && s.replays == 0;
    steps, s := Take(steps, s, ServeRefresh(0, true), 6);
    assert steps[..5] == before;
  }

  /** A page reload forgets the outstanding refresh but keeps the token it is using up. */
  lemma ReloadDuringRefreshReplays() returns (steps: seq<Step>)
    ensures ReplaysDueTo(steps, 4) && steps[4].Reload?
  {
    var before, s := Refreshing();
    steps, s := Take(before, s, Reload, 5);
    steps, s := Take(steps, s, ServeRefresh(0, true), 5);
    steps, s := StoredReplays(steps, s, 5);
    assert steps[..4] == before;
  }

  /** A page reload forgets the outstanding logout but keeps the token it is revoking. */
  lemma ReloadDuringLogoutReplays() returns (steps: seq<Step>)
    ensures ReplaysDueTo(steps, 4) && steps[4].Reload?
  {
    var before, s := SignedIn();
    before, s := Take(before, s, StartLogout, 0);
    assert LoggingOut(s, 0) by {
      assert s.logouts[0].token == 0;
    }
    steps, s := Take(before, s, Reload, 5);
    steps, s := Take(steps, s, ServeLogout(0, true), 5);
    steps, s := StoredReplays(steps, s, 5);
    assert steps[..4] == before;
  }

  /* ---------- Forced expiry ---------- */

  /** The steps that take the stored tokens away. */
  predicate DropsTokens(s: System, step: Step) {
    match step
    case Reply(r, status) =>
      && r < |s.requests| && status != Ok
      && (s.requests[r].phase.Retried? || (status == OtherError && s.requests[r].bootstrap))
    case FinishLogout(_) => true
    case DeliverRefresh(c) => c < |s.calls| && s.calls[c].stage.Refused?
    case _ => false
  }

  /** In every hazard-free run, a signed-in browser loses its tokens at exactly these steps: the end of a logout, a
      failed refresh, a failed startup load, and -- undocumented -- any failure of a retried request. The session of an
      unused token lives on at the server. */
  lemma TokensDroppedIff(steps: seq<Step>, step: Step)
    requires HazardFree(steps) && Run(steps).Some? && Enabled(Run(steps).value, step)
    requires Run(steps).value.browser.refreshToken.Some?
    ensures var s := Run(steps).value;
            var t := Next(s, step);
            && (t.browser.refreshToken == None <==> DropsTokens(s, step))
            && (DropsTokens(s, step) && Unused(s, s.browser.refreshToken.value) ==>
                Unused(t, s.browser.refreshToken.value))
  {
    RunKeepsInv(steps);
    var s := Run(steps).value;
    if step.DeliverRefresh? {
      assert Outstanding(s.calls[step.call]);
    }
  }

  /** The session is not forced out by failed refreshes only: a server error on the retried request also clears the
      stored tokens, although the refresh succeeded and the new session stays live at the server. */
  lemma RetryFailureDropsLiveSession() returns (steps: seq<Step>)
    ensures HazardFree(steps) && Run(steps).Some? && |steps| == 7
    ensures steps[6] == Reply(0, OtherError)
    ensures var s := Run(steps).value;
            s.browser.refreshToken == None && s.requests[0].phase == Failed && Unused(s, 1)
  {
    var s;
    steps, s := Refreshing();
    steps, s := Take(steps, s, ServeRefresh(0, true), 0);
    steps, s := Take(steps, s, DeliverRefresh(0), 0);
    steps, s := Take(steps, s, Reply(0, OtherError), 0);
  }

  /** No token pair is on its way to a browser without one. */
  ghost predicate Quiet(s: System) {
    && (forall l :: 0 <= l < |s.logins| ==> s.logins[l].arrived)
    && (forall c :: 0 <= c < |s.calls| && s.calls[c].listening ==>
                      !s.calls[c].stage.Awaited? && !s.calls[c].stage.Granted?)
  }

  lemma QuietStaysSignedOut(s: System, step: Step)
    requires Quiet(s) && s.browser.refreshToken == None && Enabled(s, step) && step != ServeLogin
    ensures Quiet(Next(s, step)) && Next(s, step).browser.refreshToken == None
  {
  }

  /** After a forced expiry or a logout the tokens can come back without a login: exactly when a login response or an
      unrefused refresh was still outstanding. */
  lemma SignedOutCanRevertIff(steps: seq<Step>)
    requires HazardFree(steps) && Run(steps).Some? && Run(steps).value.browser.refreshToken == None
    ensures (exists more :: Reverts(steps, more)) <==> !Quiet(Run(steps).value)
  {
    var s := Run(steps).value;
    if more :| Reverts(steps, more) && Quiet(s) {
      QuietRunStaysSignedOut(steps, more);
    }
    if !Quiet(s) {
      if l :| 0 <= l < |s.logins| && !s.logins[l].arrived {
        ArrivingLoginReverts(steps, l);
      } else {
        var c :| 0 <= c < |s.calls| && s.calls[c].listening && (s.calls[c].stage.Awaited? || s.calls[c].stage.Granted?);
        if s.calls[c].stage.Awaited? {
          AwaitedRefreshReverts(steps, c);
        } else {
          GrantedRefreshReverts(steps, c);
        }
      }
    }
  }

  lemma ArrivingLoginReverts(steps: seq<Step>, l: nat)
    requires Run(steps).Some? && Enabled(Run(steps).value, DeliverLogin(l))
    ensures Reverts(steps, [DeliverLogin(l)])
  {
    var _, _ := Take(steps, Run(steps).value, DeliverLogin(l), 0);
  }

  lemma GrantedRefreshReverts(steps: seq<Step>, c: nat)
    requires Run(steps).Some? && c < |Run(steps).value.calls|
    requires Run(steps).value.calls[c].listening && Run(steps).value.calls[c].stage.Granted?
    ensures Reverts(steps, [DeliverRefresh(c)])
  {
    var _, _ := Take(steps, Run(steps).value, DeliverRefresh(c), 0);
  }

  lemma AwaitedRefreshReverts(steps: seq<Step>, c: nat)
    requires HazardFree(steps) && Run(steps).Some? && c < |Run(steps).value.calls|
    requires Run(steps).value.calls[c].listening && Run(steps).value.calls[c].stage.Awaited?
    ensures Reverts(steps, [ServeRefresh(c, true), DeliverRefresh(c)])
  {
    RunKeepsInv(steps);
    var steps', _ := Take(steps, Run(steps).value, ServeRefresh(c, true), 0);
    GrantedRefreshReverts(steps', c);
    assert steps + [ServeRefresh(c, true), DeliverRefresh(c)] == steps' + [DeliverRefresh(c)];
  }

  /** `more` steps without a login put a refresh token back into the browser. */
  ghost predicate Reverts(steps: seq<Step>, more: seq<Step>) {
    && ServeLogin !in more
    && Run(steps + more).Some?
    && Run(steps + more).value.browser.refreshToken.Some?
  }

  lemma {:induction false} QuietRunStaysSignedOut(steps: seq<Step>, more: seq<Step>)
    requires Run(steps).Some? && Quiet(Run(steps).value) && Run(steps).value.browser.refreshToken == None
    requires ServeLogin !in more && Run(steps + more).Some?
    ensures Quiet(Run(steps + more).value) && Run(steps + more).value.browser.refreshToken == None
    decreases |more|
  {
    if more == [] {
      assert steps + more == steps;
    } else {
      var n := |more| - 1;
      assert (steps + more)[..|steps + more| - 1] == steps + more[..n];
      QuietRunStaysSignedOut(steps, more[..n]);
      assert more[n] in more;
      QuietStaysSignedOut(Run(steps + more[..n]).value, more[n]);
    }
  }

  /* ---------- What requests carry and how they end ---------- */

  /** The pair the browser is signed in with, by the messages that reached it: that of the last delivered login or
      refresh, unless the tokens were dropped since. */
  function SignedInWith(steps: seq<Step>): Option<nat>
    requires Run(steps).Some?
  {
    if steps == [] then None
    else
      var n := |steps| - 1;
      var s := Run(steps[..n]).value;
      match steps[n]
      case DeliverLogin(l) => Some(s.logins[l].pair)
      case DeliverRefresh(c) => if s.calls[c].stage.Granted? then Some(s.calls[c].stage.pair) else None
      case _ => if DropsTokens(s, steps[n]) then None else SignedInWith(steps[..n])
  }

  lemma {:induction false} StoredIsSignedInWith(steps: seq<Step>)
    requires HazardFree(steps) && Run(steps).Some?
    ensures Run(steps).value.browser.accessToken == SignedInWith(steps)
    ensures Run(steps).value.browser.refreshToken == SignedInWith(steps)
  {
    if steps == [] {
    } else {
      var n := |steps| - 1;
      StoredIsSignedInWith(steps[..n]);
      RunKeepsInv(steps[..n]);
      StoredAfterStep(Run(steps[..n]).value, steps[n]);
    }
  }

  lemma StoredAfterStep(s: System, step: Step)
    requires Inv(s) && Enabled(s, step)
    ensures var t := Next(s, step);
            && t.browser.accessToken == t.browser.refreshToken
            && t.browser.refreshToken ==
               match step
               case DeliverLogin(l) => Some(s.logins[l].pair)
               case DeliverRefresh(c) => if s.calls[c].stage.Granted? then Some(s.calls[c].stage.pair) else None
               case _ => if DropsTokens(s, step) then None else s.browser.refreshToken
  {
    if step.DeliverRefresh? {
      DeliveredBrowser(s, step.call);
    }
  }

  /** In every hazard-free run, a new request -- the startup load like any other -- is sent once, with the access token
      the browser is signed in with; and no other request changes. */
  lemma RequestsCarryTheSignedInToken(steps: seq<Step>, bootstrap: bool)
    requires HazardFree(steps) && Run(steps).Some? && Enabled(Run(steps).value, NewRequest(bootstrap))
    ensures var s := Run(steps).value;
            Next(s, NewRequest(bootstrap)) ==
            s.(requests := s.requests + [AppRequest(SignedInWith(steps), Sent, 1, bootstrap)])
  {
    StoredIsSignedInWith(steps);
  }

  /** Which steps can be taken. A startup load needs a stored token, any other request nothing; a request can be
      answered while it is at the server and left while it has no outcome; a login, a logout and a reload can start at
      any time; and every message that is under way can arrive or end, once. */
  lemma PossibleIff(s: System, i: nat, status: Status)
    ensures Enabled(s, NewRequest(false)) && Enabled(s, ServeLogin) && Enabled(s, StartLogout) && Enabled(s, Reload)
    ensures Enabled(s, NewRequest(true)) <==> s.browser.refreshToken.Some?
    ensures i < |s.requests| ==>
              var phase := s.requests[i].phase;
              && (Enabled(s, Unsubscribe(i)) <==> !phase.Succeeded? && !phase.Failed? && !phase.Cancelled?)
              && (Enabled(s, Reply(i, status)) <==> Enabled(s, Unsubscribe(i)) && !phase.Waiting?)
    ensures i < |s.logins| ==> (Enabled(s, DeliverLogin(i)) <==> !s.logins[i].arrived)
    ensures i < |s.logouts| ==> (Enabled(s, FinishLogout(i)) <==> !s.logouts[i].finished)
    ensures i < |s.calls| ==>
              (Enabled(s, DeliverRefresh(i)) <==> Outstanding(s.calls[i]) && !s.calls[i].stage.Awaited?)
  {
  }

  /** The pair was issued to this browser: by one of its logins, or by a refresh delivered to it. */
  ghost predicate IssuedHere(s: System, pair: nat) {
    || (exists l :: 0 <= l < |s.logins| && s.logins[l].pair == pair)
    || (exists c :: 0 <= c < |s.calls| && s.calls[c].stage == Delivered(Some(pair)))
  }

  ghost predicate TokensAreIssuedHere(s: System) {
    && (s.browser.accessToken.Some? ==> IssuedHere(s, s.browser.accessToken.value))
    && (forall r :: 0 <= r < |s.requests| && s.requests[r].bearer.Some? ==> IssuedHere(s, s.requests[r].bearer.value))
    && PairsAreInTable(s)
  }

  /** Pairs name sessions the server knows. */
  ghost predicate PairsAreInTable(s: System) {
    && (forall l :: 0 <= l < |s.logins| ==> s.logins[l].pair < |s.revoked|)
    && (forall c :: 0 <= c < |s.calls| && s.calls[c].stage.Granted? ==> s.calls[c].stage.pair < |s.revoked|)
    && (forall c :: 0 <= c < |s.calls| && s.calls[c].stage.Delivered? && s.calls[c].stage.result.Some? ==>
                      s.calls[c].stage.result.value < |s.revoked|)
  }

  lemma IssuedHereStays(s: System, step: Step, pair: nat)
    requires Enabled(s, step) && IssuedHere(s, pair)
    ensures IssuedHere(Next(s, step), pair)
  {
    var t := Next(s, step);
    if l :| 0 <= l < |s.logins| && s.logins[l].pair == pair {
      assert t.logins[l].pair == pair;
    } else {
      var c :| 0 <= c < |s.calls| && s.calls[c].stage == Delivered(Some(pair));
      assert t.calls[c].stage == Delivered(Some(pair));
    }
  }

  lemma TokensStayIssuedHere(s: System, step: Step)
    requires Enabled(s, step) && TokensAreIssuedHere(s)
    ensures TokensAreIssuedHere(Next(s, step))
  {
    var t := Next(s, step);
    PairsStayInTable(s, step);
    NewTokensAreIssuedHere(s, step);
    forall r | 0 <= r < |t.requests| && t.requests[r].bearer.Some?
      ensures IssuedHere(t, t.requests[r].bearer.value)
    {
      BearerSince(s, step, r);
      if IssuedHere(s, t.requests[r].bearer.value) {
        IssuedHereStays(s, step, t.requests[r].bearer.value);
      }
    }
    if t.browser.accessToken.Some? && IssuedHere(s, t.browser.accessToken.value) {
      IssuedHereStays(s, step, t.browser.accessToken.value);
    }
  }

  /** A token that reaches the browser in this step is one of its login's or its refresh's. */
  lemma NewTokensAreIssuedHere(s: System, step: Step)
    requires Enabled(s, step)
    ensures var t := Next(s, step);
            && (t.browser.accessToken != s.browser.accessToken && t.browser.accessToken.Some? ==>
                IssuedHere(t, t.browser.accessToken.value))
            && (step.DeliverRefresh? && s.calls[step.call].stage.Granted? ==>
                IssuedHere(t, s.calls[step.call].stage.pair))
  {
    var t := Next(s, step);
    if step.DeliverLogin? {
      assert t.logins[step.login].pair == s.logins[step.login].pair;
    }
    if step.DeliverRefresh? && s.calls[step.call].stage.Granted? {
      assert t.calls[step.call].stage == Delivered(Some(s.calls[step.call].stage.pair));
    }
  }

  /** A request's bearer is its old one, the stored one, or the delivered one. */
  lemma BearerSince(s: System, step: Step, r: nat)
    requires Enabled(s, step) && r < |Next(s, step).requests|
    ensures var bearer := Next(s, step).requests[r].bearer;
            || (r < |s.requests| && bearer == s.requests[r].bearer)
            || bearer == s.browser.accessToken
            || (step.DeliverRefresh? && s.calls[step.call].stage.Granted?
                && bearer == Some(s.calls[step.call].stage.pair))
  {
  }

  lemma PairsStayInTable(s: System, step: Step)
    requires Enabled(s, step) && PairsAreInTable(s)
    ensures PairsAreInTable(Next(s, step))
  {
  }

  /** In every run, hazards included, every access token a request ever carried was issued to this browser, for a
      session the server knows. */
  lemma {:induction false} BearersAreIssuedHere(steps: seq<Step>)
    requires Run(steps).Some?
    ensures TokensAreIssuedHere(Run(steps).value)
    ensures var s := Run(steps).value;
            forall r :: 0 <= r < |s.requests| && s.requests[r].bearer.Some? ==>
              IssuedHere(s, s.requests[r].bearer.value) && s.requests[r].bearer.value < |s.revoked|
  {
    if steps == [] {
    } else {
      var n := |steps| - 1;
      BearersAreIssuedHere(steps[..n]);
      TokensStayIssuedHere(Run(steps[..n]).value, steps[n]);
    }
  }

  /** What a step makes of a request: it succeeds exactly on a good response; it fails exactly on a
      bad one that starts or joins no refresh, or with the refresh it waits for; and it is sent again, the second time,
      exactly when that refresh brings a token, with that token. */
  ghost predicate IsFate(s: System, step: Step, r: nat, now: AppRequest)
    requires r < |s.requests| && Enabled(s, step)
  {
    var was := s.requests[r];
    && now.bootstrap == was.bootstrap
    && (now.phase.Succeeded? <==> was.phase.Succeeded? || step == Reply(r, Ok))
    && (now.phase.Failed? <==>
        || was.phase.Failed?
        || (&& step.Reply? && step.request == r && step.status != Ok
            && (was.phase.Retried? || step.status == OtherError
                || (s.browser.inFlight == None && s.browser.refreshToken == None)))
        || (&& step.DeliverRefresh? && was.phase == Waiting(step.call) && s.calls[step.call].stage.Refused?))
    && (now.phase.Cancelled? <==>
        || was.phase.Cancelled? || step == Unsubscribe(r)
        || (step == Reload && !was.phase.Succeeded? && !was.phase.Failed?))
    && (if step.DeliverRefresh? && was.phase == Waiting(step.call) && s.calls[step.call].stage.Granted? then
          now == AppRequest(Some(s.calls[step.call].stage.pair), Retried(step.call), 2, was.bootstrap)
        else
          now.bearer == was.bearer && now.sends == was.sends)
  }

  lemma RequestFate(s: System, step: Step, r: nat)
    requires SentAtMostTwice(s) && Enabled(s, step) && r < |s.requests|
    ensures |s.requests| <= |Next(s, step).requests| && IsFate(s, step, r, Next(s, step).requests[r])
  {
    match step
    case Reply(i, status) => FateOfReply(s, i, status, r);
    case DeliverRefresh(c) => FateOfDelivery(s, c, r);
    case Reload =>
      assert Next(s, Reload).requests[r] == Abandoned(s.requests[r]);
    case _ =>
  }

  lemma FateOfReply(s: System, i: nat, status: Status, r: nat)
    requires Enabled(s, Reply(i, status)) && r < |s.requests|
    ensures |s.requests| == |Next(s, Reply(i, status)).requests|
    ensures IsFate(s, Reply(i, status), r, Next(s, Reply(i, status)).requests[r])
  {
  }

  lemma FateOfDelivery(s: System, c: nat, r: nat)
    requires SentAtMostTwice(s) && Enabled(s, DeliverRefresh(c)) && r < |s.requests|
    ensures |s.requests| == |Next(s, DeliverRefresh(c)).requests|
    ensures IsFate(s, DeliverRefresh(c), r, Next(s, DeliverRefresh(c)).requests[r])
  {
    var result := if s.calls[c].stage.Granted? then Some(s.calls[c].stage.pair) else None;
    assert Next(s, DeliverRefresh(c)).requests[r] == AfterRefresh(s.requests[r], c, result);
  }

  /** In every hazard-free run, a request has succeeded exactly if it was answered well, and was sent twice only if it
      was first answered 401. */
  lemma {:induction false} SucceededIff(steps: seq<Step>, r: nat)
    requires HazardFree(steps) && Run(steps).Some? && r < |Run(steps).value.requests|
    ensures Run(steps).value.requests[r].phase.Succeeded? <==> Reply(r, Ok) in steps
    ensures Run(steps).value.requests[r].phase.Waiting? || Run(steps).value.requests[r].sends == 2 ==>
              Reply(r, Unauthorized) in steps
  {
    var n := |steps| - 1;
    var s := Run(steps[..n]).value;
    assert steps == steps[..n] + [steps[n]];
    SendsKept(steps[..n]);
    if r < |s.requests| {
      SucceededIff(steps[..n], r);
      RequestFate(s, steps[n], r);
      WaitingSince(s, steps[n], r);
    } else {
      NoReplyYet(steps[..n], r, Ok);
      NewIsSentOnce(s, steps[n]);
    }
  }

  lemma SendsKept(steps: seq<Step>)
    requires HazardFree(steps) && Run(steps).Some?
    ensures SentAtMostTwice(Run(steps).value)
  {
    RunKeepsInv(steps);
  }

  lemma NewIsSentOnce(s: System, step: Step)
    requires Enabled(s, step) && |Next(s, step).requests| > |s.requests|
    ensures step.NewRequest? && |Next(s, step).requests| == |s.requests| + 1
    ensures var request := Next(s, step).requests[|s.requests|]; request.phase.Sent? && request.sends == 1
  {
  }

  lemma WaitingSince(s: System, step: Step, r: nat)
    requires Enabled(s, step) && r < |s.requests|
    ensures r < |Next(s, step).requests|
    ensures Next(s, step).requests[r].phase.Waiting? ==>
              s.requests[r].phase.Waiting? || step == Reply(r, Unauthorized)
    ensures Next(s, step).requests[r].sends == 2 ==> s.requests[r].sends == 2 || s.requests[r].phase.Waiting?
  {
    if step.DeliverRefresh? {
      var c := step.call;
      var result := if s.calls[c].stage.Granted? then Some(s.calls[c].stage.pair) else None;
      assert Next(s, step).requests[r] == AfterRefresh(s.requests[r], c, result);
    }
  }

  /** Nothing is answered before it is asked. */
  lemma {:induction false} NoReplyYet(steps: seq<Step>, r: nat, status: Status)
    requires Run(steps).Some? && r >= |Run(steps).value.requests|
    ensures Reply(r, status) !in steps
  {
    if steps == [] {
    } else {
      var n := |steps| - 1;
      assert steps == steps[..n] + [steps[n]];
      NoReplyYet(steps[..n], r, status);
    }
  }

  /** A refresh whose response is lost, or that times out, fails for the client and is over for the client only:
      a message that had not reached the server can still get there, and then uses the token up without telling
      anybody. */
  lemma LostCallIsOverForTheClientOnly(s: System, c: nat, accept: bool)
    requires c < |s.calls| && (s.calls[c].stage.Awaited? || s.calls[c].stage.Granted?)
    ensures Enabled(s, LoseCall(c))
    ensures var t := Next(s, LoseCall(c));
            && t == s.(calls := t.calls) && t.calls == s.calls[c := s.calls[c].(stage := Refused)]
            && (!s.calls[c].seen && s.calls[c].token < |s.revoked| ==>
                && Enabled(t, ServeRefresh(c, accept))
                && var u := Next(t, ServeRefresh(c, accept));
                   && u.calls[c].stage == Refused && u.presented == s.presented + [s.calls[c].token]
                   && u.browser == s.browser && u.requests == s.requests)
  {
  }

  /** A logout posts the stored token and takes nothing away until it ends; its end, good or bad, takes both tokens away
      and happens once. Without a stored token there is nothing to post. Only the server revokes. */
  lemma LogoutSteps(s: System, k: nat)
    ensures var t := Next(s, StartLogout);
            if s.browser.refreshToken.Some? then
              t == s.(logouts := s.logouts + [LogoutCall(s.browser.refreshToken.value, false)])
            else
              t == s.(browser := s.browser.(accessToken := None, refreshToken := None))
    ensures Enabled(s, FinishLogout(k)) ==>
              var t := Next(s, FinishLogout(k));
              && t == s.(browser := s.browser.(accessToken := None, refreshToken := None), logouts := t.logouts)
              && |t.logouts| == |s.logouts| && t.logouts[k] == LogoutCall(s.logouts[k].token, true)
              && (forall j :: 0 <= j < |s.logouts| && j != k ==> t.logouts[j] == s.logouts[j])
              && !Enabled(t, FinishLogout(k))
  {
  }

  /** What a delivered outcome does to the browser, in any state: a new pair is stored whether or not anybody still
      waits, while forgetting the shared refresh and, after a failure, the tokens is up to those who do. */
  lemma DeliveryReachesBrowser(s: System, c: nat)
    requires Enabled(s, DeliverRefresh(c))
    ensures var b, b' := s.browser, Next(s, DeliverRefresh(c)).browser;
            var heard := exists r :: 0 <= r < |s.requests| && s.requests[r].phase == Waiting(c);
            && (s.calls[c].stage.Granted? ==>
                b'.accessToken == b'.refreshToken == Some(s.calls[c].stage.pair))
            && (s.calls[c].stage.Refused? && heard ==> b'.accessToken == b'.refreshToken == None)
            && (s.calls[c].stage.Refused? && !heard ==>
                b'.accessToken == b.accessToken && b'.refreshToken == b.refreshToken)
            && b'.inFlight == (if heard then None else b.inFlight)
  {
    assert HasSubscriber(s, c) <==> exists r :: 0 <= r < |s.requests| && s.requests[r].phase == Waiting(c);
  }

  /** A reload keeps the stored tokens and nothing else of the page: nobody waits for a refresh, a login, a logout or a
      response any more. */
  lemma ReloadKeepsTokensOnly(s: System)
    ensures var t := Next(s, Reload);
            && t.browser == Browser(s.browser.accessToken, s.browser.refreshToken, None)
            && |t.calls| == |s.calls| && (forall c :: 0 <= c < |t.calls| ==>
                 !Outstanding(t.calls[c]) && t.calls[c].token == s.calls[c].token && t.calls[c].seen == s.calls[c].seen)
            && |t.logins| == |s.logins| && (forall l :: 0 <= l < |t.logins| ==> t.logins[l].arrived)
            && |t.logouts| == |s.logouts| && (forall k :: 0 <= k < |t.logouts| ==>
                 t.logouts[k].finished && t.logouts[k].token == s.logouts[k].token)
            && |t.requests| == |s.requests| && (forall r :: 0 <= r < |t.requests| ==>
                 t.requests[r].phase.Succeeded? || t.requests[r].phase.Failed? || t.requests[r].phase.Cancelled?)
            && t.revoked == s.revoked && t.presented == s.presented && t.replays == s.replays
  {
  }

  /* ---------- The server of the protocol is the authentication service ---------- */

  function RevokedFlags(sessions: seq<Server.Session>): seq<bool> {
    seq(|sessions|, j requires 0 <= j < |sessions| => sessions[j].revoked)
  }

  /** Serving a refresh, with the expiry and user checks as `accept`, is what `refresh` does to the session table. */
  lemma ServeIsRefresh(s: System, c: nat, t: Server.Tables, decodedAt: int, checkedAt: int, issuedAt: int)
    requires s.revoked == RevokedFlags(t.sessions)
    requires c < |s.calls| && s.calls[c].token < |s.revoked|
    ensures var token := Server.Minted(s.calls[c].token);
            var accept :=
              && Server.Decodes(t, token, decodedAt) && checkedAt <= t.sessions[token.jti].expiresAt
              && t.sessions[token.jti].user in t.users
              && t.users[t.sessions[token.jti].user].status == Server.Active;
            var (t', event) := Server.RefreshEffect(t, token, decodedAt, checkedAt, issuedAt);
            var s' := Serve(s, c, accept);
            && s'.revoked == RevokedFlags(t'.sessions)
            && (s.calls[c].stage.Awaited? ==>
                && (forall j :: s'.calls[c].stage == Granted(j) <==> event == Server.Rotated(token.jti, j))
                && (s'.calls[c].stage == Refused <==> event == Server.RefreshRejected))
  {
  }

  lemma ServeLoginIsLogin(s: System, t: Server.Tables, email: string, password: string, now: int)
    requires s.revoked == RevokedFlags(t.sessions)
    ensures var (t', event) := Server.LoginEffect(t, email, password, now);
            var s' := Next(s, ServeLogin);
            if event.LoginSucceeded? then
              s'.revoked == RevokedFlags(t'.sessions) && s'.logins[|s.logins|].pair == event.jti
            else
              s.revoked == RevokedFlags(t'.sessions)
  {
  }

  lemma ServeLogoutIsLogout(s: System, k: nat, t: Server.Tables, now: int)
    requires s.revoked == RevokedFlags(t.sessions)
    requires k < |s.logouts| && s.logouts[k].token < |s.revoked|
    ensures var token := Server.Minted(s.logouts[k].token);
            Next(s, ServeLogout(k, Server.Decodes(t, token, now))).revoked ==
            RevokedFlags(Server.LogoutEffect(t, token, now).0.sessions)
  {
  }

  /** One user, whose every server request falls on one instant. */
  const ONE_USER: Server.Tables :=
    Server.Tables(map[0 := Server.User(Server.Hash(Server.Password("secret")), Server.Active, 0, None)],
                  map["user@example.com" := 0], [], [])

  /** The server requests behind a step. A refresh that is not accepted meets a user who is inactive at that moment. */
  function ServerCalls(s: System, step: Step): seq<Server.Call>
    requires Enabled(s, step)
  {
    match step
    case ServeRefresh(c, accept) =>
      var refresh := Server.Call(Server.Refresh(Server.Minted(s.calls[c].token), 0, 0), 0);
      if accept then [refresh]
      else [Server.Call(Server.SetStatus(0, Server.Inactive), 0), refresh,
            Server.Call(Server.SetStatus(0, Server.Active), 0)]
    case ServeLogin => [Server.Call(Server.Login("user@example.com", "secret"), 0)]
    case ServeLogout(k, readable) =>
      [Server.Call(Server.Logout(if readable then Server.Minted(s.logouts[k].token) else Server.Unreadable), 0)]
    case _ => []
  }

  function ServerRun(steps: seq<Step>): seq<Server.Call>
    requires Run(steps).Some?
  {
    if steps == [] then []
    else
      ServerRun(steps[..|steps| - 1]) + ServerCalls(Run(steps[..|steps| - 1]).value, steps[|steps| - 1])
  }

  /** What the one user's server looks like when the protocol's session table is `revoked`. */
  ghost predicate Matches(t: Server.Tables, revoked: seq<bool>) {
    && t.users.Keys == {0} && t.users[0].status == Server.Active
    && t.users[0].passwordHash == Server.Hash(Server.Password("secret"))
    && t.emails == ONE_USER.emails
    && RevokedFlags(t.sessions) == revoked
    && forall j :: 0 <= j < |t.sessions| ==>
         t.sessions[j].user == 0 && t.sessions[j].expiresAt == Server.REFRESH_LIFETIME
  }

  lemma OneCall(init: Server.Tables, calls: seq<Server.Call>, call: Server.Call)
    ensures Server.Run(init, calls + [call]).0 ==
            Server.Effect(Server.Run(init, calls).0, call.request, call.now).0
  {
    assert (calls + [call])[..|calls|] == calls;
  }

  /** Every run of the protocol, hazards and lost messages included, has behind it a run of the authentication service
      from initial tables with the very same sessions; so whatever holds of the service's runs holds of the protocol's
      server. */
  lemma {:induction false} RunIsServerRun(steps: seq<Step>)
    requires Run(steps).Some?
    ensures Server.Initial(ONE_USER)
    ensures Matches(Server.Run(ONE_USER, ServerRun(steps)).0, Run(steps).value.revoked)
  {
    if steps == [] {
    } else {
      var n := |steps| - 1;
      RunIsServerRun(steps[..n]);
      StepIsServerStep(Run(steps[..n]).value, steps[n], ServerRun(steps[..n]));
    }
  }

  lemma StepIsServerStep(s: System, step: Step, calls: seq<Server.Call>)
    requires Enabled(s, step) && Matches(Server.Run(ONE_USER, calls).0, s.revoked)
    ensures Matches(Server.Run(ONE_USER, calls + ServerCalls(s, step)).0, Next(s, step).revoked)
  {
    match step
    case ServeRefresh(c, accept) =>
      ServedRefreshMatches(s, c, accept, calls);
    case ServeLogin =>
      OneCall(ONE_USER, calls, ServerCalls(s, step)[0]);
    case ServeLogout(k, _) =>
      OneCall(ONE_USER, calls, ServerCalls(s, step)[0]);
    case _ =>
      assert calls + [] == calls;
  }

  /** Inactive for the instant of one refresh, the user ends up as before and so does everything else. */
  lemma RefusedWhileInactive(t: Server.Tables, jti: nat)
    requires 0 in t.users && t.users[0].status == Server.Active
    requires forall j :: 0 <= j < |t.sessions| ==> t.sessions[j].user == 0
    ensures var t1 := Server.SetStatusEffect(t, 0, Server.Inactive).0;
            var t2 := Server.RefreshEffect(t1, Server.Minted(jti), 0, 0, 0).0;
            Server.SetStatusEffect(t2, 0, Server.Active).0 == t
  {
    var t1 := Server.SetStatusEffect(t, 0, Server.Inactive).0;
    assert Server.RefreshEffect(t1, Server.Minted(jti), 0, 0, 0).0 == t1;
    assert t1.users[0 := t1.users[0].(status := Server.Active)] == t.users;
  }

  lemma AcceptedRefreshMatches(s: System, c: nat, t: Server.Tables)
    requires Enabled(s, ServeRefresh(c, true)) && Matches(t, s.revoked)
    ensures Matches(Server.RefreshEffect(t, Server.Minted(s.calls[c].token), 0, 0, 0).0, Serve(s, c, true).revoked)
  {
    ServeIsRefresh(s, c, t, 0, 0, 0);
  }

  lemma ServedRefreshMatches(s: System, c: nat, accept: bool, calls: seq<Server.Call>)
    requires Enabled(s, ServeRefresh(c, accept)) && Matches(Server.Run(ONE_USER, calls).0, s.revoked)
    ensures Matches(Server.Run(ONE_USER, calls + ServerCalls(s, ServeRefresh(c, accept))).0,
                    Serve(s, c, accept).revoked)
  {
    var requests := ServerCalls(s, ServeRefresh(c, accept));
    var t := Server.Run(ONE_USER, calls).0;
    OneCall(ONE_USER, calls, requests[0]);
    if accept {
      AcceptedRefreshMatches(s, c, t);
      assert calls + requests == calls + [requests[0]];
    } else {
      RefusedWhileInactive(t, s.calls[c].token);
      OneCall(ONE_USER, calls + [requests[0]], requests[1]);
      OneCall(ONE_USER, calls + [requests[0]] + [requests[1]], requests[2]);
      assert calls + requests == calls + [requests[0]] + [requests[1]] + [requests[2]];
    }
  }
}
