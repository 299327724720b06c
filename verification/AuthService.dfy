/** Login with lockout, refresh-token rotation, logout and password reset, over whole runs of atomic requests. */
module AuthService {
  import opened Common

  const MAX_FAILED_ATTEMPTS: nat := 10
  const REFRESH_LIFETIME: nat := 7 * 24 * 3600
  const RESET_LIFETIME: nat := 3600

  datatype UserStatus = Active | Inactive | Locked

  /** What is hashed: a password, or the raw reset token whose row has the given index. Raw tokens are random, so
      two rows never share one and no password is one. */
  datatype Secret = Password(text: string) | ResetSecret(row: nat)

  /** An abstract collision-free password hash. */
  datatype Hash = Hash(secret: Secret)

  predicate Verify(secret: Secret, hash: Hash) {
    hash.secret == secret
  }

  datatype User = User(passwordHash: Hash, status: UserStatus, failedLoginAttempts: nat, lastLoginAt: Option<int>)

  /** A refresh session; its position in the table stands for its random `jti` claim (section 4.1.7 of RFC 7519). */
  datatype Session = Session(user: Uuid, revoked: bool, expiresAt: int)

  datatype ResetToken = ResetToken(user: Uuid, tokenHash: Hash, expiresAt: int, usedAt: Option<int>)

  /** The committed tables. `emails` is the unique index on the lower-case email, by which requests name users. */
  datatype Tables = Tables(
    users: map<Uuid, User>,
    emails: map<string, Uuid>,
    sessions: seq<Session>,
    resets: seq<ResetToken>)

  /** A refresh token as presented: unreadable (bad signature, wrong type), or the one minted for a session. */
  datatype Credential = Unreadable | Minted(jti: nat)

  /** What one request did; the sequence of these is the history a run is judged by. */
  datatype Event =
    | LoginSucceeded(user: Uuid, jti: nat)
    | WrongPassword(user: Uuid)
    | NotActive(user: Uuid)
    | UnknownEmail
    | Rotated(used: nat, issued: nat)
    | RefreshRejected
    | LoggedOut(jti: nat)
    | LogoutIgnored
    | ResetIssued(row: nat, at: int)
    | ResetNotIssued
    | PasswordReset(row: nat, at: int)
    | ResetRejected
    | StatusSet(user: Uuid, status: UserStatus)
    | UserNotFound

  datatype Request =
    | Login(email: string, password: string)
    | Refresh(token: Credential, checkedAt: int, issuedAt: int)
    | Logout(token: Credential)
    | RequestReset(email: string)
    | ResetPassword(raw: Secret, newPassword: string)
    | SetStatus(user: Uuid, status: UserStatus)

  /* ---------- The effect of each request on the tables ---------- */

  function FindByEmail(t: Tables, email: string): Option<Uuid> {
    if email in t.emails && t.emails[email] in t.users then Some(t.emails[email]) else None
  }

  /** `decode_token`: the signature is genuine and the `exp` claim (section 4.1.4 of RFC 7519) is in the future. */
  predicate Decodes(t: Tables, token: Credential, now: int) {
    token.Minted? && token.jti < |t.sessions| && now < t.sessions[token.jti].expiresAt
  }

  function Issued(sessions: seq<Session>, user: Uuid, now: int): seq<Session> {
    sessions + [Session(user, false, now + REFRESH_LIFETIME)]
  }

  function Revoked(sessions: seq<Session>, jti: nat): seq<Session>
    requires jti < |sessions|
  {
    sessions[jti := sessions[jti].(revoked := true)]
  }

  function AfterWrongPassword(user: User): User {
    var failed := user.failedLoginAttempts + 1;
    user.(failedLoginAttempts := failed, status := if failed >= MAX_FAILED_ATTEMPTS then Locked else user.status)
  }

  function LoginEffect(t: Tables, email: string, password: string, now: int): (Tables, Event) {
    match FindByEmail(t, email)
    case None => (t, UnknownEmail)
    case Some(id) =>
      var user := t.users[id];
      if !Verify(Password(password), user.passwordHash) then
        (t.(users := t.users[id := AfterWrongPassword(user)]), WrongPassword(id))
      else if user.status != Active then
        (t, NotActive(id))
      else
        (t.(users := t.users[id := user.(failedLoginAttempts := 0, lastLoginAt := Some(now))],
            sessions := Issued(t.sessions, id, now)),
         LoginSucceeded(id, |t.sessions|))
  }

  /** The session lives and its user may use it. */
  predicate IsUsable(t: Tables, jti: nat) {
    && jti < |t.sessions|
    && !t.sessions[jti].revoked
    && t.sessions[jti].user in t.users
    && t.users[t.sessions[jti].user].status == Active
  }

  /** A refresh reads the clock once to decode the token and again, after a query, to check the session's expiry. */
  predicate Refreshable(t: Tables, token: Credential, decodedAt: int, checkedAt: int) {
    Decodes(t, token, decodedAt) && IsUsable(t, token.jti) && checkedAt <= t.sessions[token.jti].expiresAt
  }

  function RefreshEffect(t: Tables, token: Credential, decodedAt: int, checkedAt: int, issuedAt: int): (Tables, Event) {
    if Refreshable(t, token, decodedAt, checkedAt) then
      (t.(sessions := Issued(Revoked(t.sessions, token.jti), t.sessions[token.jti].user, issuedAt)),
       Rotated(token.jti, |t.sessions|))
    else
      (t, RefreshRejected)
  }

  function LogoutEffect(t: Tables, token: Credential, now: int): (Tables, Event) {
    if Decodes(t, token, now) then
      (t.(sessions := Revoked(t.sessions, token.jti)), LoggedOut(token.jti))
    else
      (t, LogoutIgnored)
  }

  function RequestResetEffect(t: Tables, email: string, now: int): (Tables, Event) {
    match FindByEmail(t, email)
    case None => (t, ResetNotIssued)
    case Some(id) =>
      if t.users[id].status != Active then (t, ResetNotIssued)
      else
        var row := |t.resets|;
        (t.(resets := t.resets + [ResetToken(id, Hash(ResetSecret(row)), now + RESET_LIFETIME, None)]),
         ResetIssued(row, now))
  }

  /** The raw secret opens row `k`, and the row is unused, unexpired and names an existing user. */
  predicate Redeemable(t: Tables, raw: Secret, k: nat, now: int) {
    && k < |t.resets|
    && t.resets[k].usedAt == None
    && Verify(raw, t.resets[k].tokenHash)
    && now <= t.resets[k].expiresAt
    && t.resets[k].user in t.users
  }

  function ResetPasswordEffect(t: Tables, raw: Secret, newPassword: string, now: int): (Tables, Event) {
    if raw.ResetSecret? && Redeemable(t, raw, raw.row, now) then
      var token := t.resets[raw.row];
      (t.(users := t.users[token.user := t.users[token.user].(passwordHash := Hash(Password(newPassword)))],
          resets := t.resets[raw.row := token.(usedAt := Some(now))]),
       PasswordReset(raw.row, now))
    else
      (t, ResetRejected)
  }

  function SetStatusEffect(t: Tables, user: Uuid, status: UserStatus): (Tables, Event) {
    if user in t.users then
      (t.(users := t.users[user := t.users[user].(status := status)]), StatusSet(user, status))
    else
      (t, UserNotFound)
  }

  function Effect(t: Tables, request: Request, now: int): (Tables, Event) {
    match request
    case Login(email, password) => LoginEffect(t, email, password, now)
    case Refresh(token, checkedAt, issuedAt) => RefreshEffect(t, token, now, checkedAt, issuedAt)
    case Logout(token) => LogoutEffect(t, token, now)
    case RequestReset(email) => RequestResetEffect(t, email, now)
    case ResetPassword(raw, newPassword) => ResetPasswordEffect(t, raw, newPassword, now)
    case SetStatus(user, status) => SetStatusEffect(t, user, status)
  }

  /** Every reset row holds the hash of its own raw token. */
  ghost predicate ResetRowsOwnSecrets(t: Tables) {
    forall k :: 0 <= k < |t.resets| ==> t.resets[k].tokenHash == Hash(ResetSecret(k))
  }

  /* ---------- The service ---------- */

  class Service {
    var users: map<Uuid, User>
    var emails: map<string, Uuid>
    var sessions: seq<Session>
    var resets: seq<ResetToken>

    function State(): Tables
      reads this
    {
      Tables(users, emails, sessions, resets)
    }

    method IssueTokenPair(userId: Uuid, now: int) returns (jti: nat)
      modifies this`sessions
      ensures jti == |old(sessions)| && sessions == Issued(old(sessions), userId, now)
    {
      jti := |sessions|;
      sessions := sessions + [Session(userId, false, now + REFRESH_LIFETIME)];
    }

    method Login(email: string, password: string, now: int) returns (event: Event)
      modifies this`users, this`sessions
      ensures (State(), event) == LoginEffect(old(State()), email, password, now)
    {
      if email !in emails || emails[email] !in users {
        return UnknownEmail;
      }
      var id := emails[email];
      var user := users[id];
      if !Verify(Password(password), user.passwordHash) {
        user := user.(failedLoginAttempts := user.failedLoginAttempts + 1);
        if user.failedLoginAttempts >= MAX_FAILED_ATTEMPTS {
          user := user.(status := Locked);
        }
        users := users[id := user];
        return WrongPassword(id);
      }
      if user.status != Active {
        return NotActive(id);
      }
      user := user.(failedLoginAttempts := 0);
      user := user.(lastLoginAt := Some(now));
      users := users[id := user];
      var jti := IssueTokenPair(id, now);
      return LoginSucceeded(id, jti);
    }

    method Refresh(token: Credential, decodedAt: int, checkedAt: int, issuedAt: int) returns (event: Event)
      modifies this`sessions
      ensures (State(), event) == RefreshEffect(old(State()), token, decodedAt, checkedAt, issuedAt)
    {
      if !Decodes(State(), token, decodedAt) {
        return RefreshRejected;
      }
      var session := sessions[token.jti];
      if session.revoked {
        return RefreshRejected;
      }
      if session.expiresAt < checkedAt {
        return RefreshRejected;
      }
      if session.user !in users || users[session.user].status != Active {
        return RefreshRejected;
      }
      sessions := sessions[token.jti := session.(revoked := true)];
      var jti := IssueTokenPair(session.user, issuedAt);
      return Rotated(token.jti, jti);
    }

    method Logout(token: Credential, now: int) returns (event: Event)
      modifies this`sessions
      ensures (State(), event) == LogoutEffect(old(State()), token, now)
    {
      if !Decodes(State(), token, now) {
        return LogoutIgnored;
      }
      sessions := sessions[token.jti := sessions[token.jti].(revoked := true)];
      return LoggedOut(token.jti);
    }

    /** The caller is told nothing either way. */
    method RequestPasswordReset(email: string, now: int) returns (ghost event: Event)
      modifies this`resets
      ensures (State(), event) == RequestResetEffect(old(State()), email, now)
    {
      if email !in emails || emails[email] !in users || users[emails[email]].status != Active {
        return ResetNotIssued;
      }
      var row := |resets|;
      resets := resets + [ResetToken(emails[email], Hash(ResetSecret(row)), now + RESET_LIFETIME, None)];
      return ResetIssued(row, now);
    }

    /** The scan over the unused rows, in whatever order the query returned them: `candidates` lists their
        positions. The verdict does not depend on that order. */
    method ResetPassword(raw: Secret, newPassword: string, now: int, candidates: seq<nat>) returns (event: Event)
      requires ResetRowsOwnSecrets(State())
      requires forall k: nat :: k in candidates <==> k < |resets| && resets[k].usedAt == None
      modifies this`users, this`resets
      ensures (State(), event) == ResetPasswordEffect(old(State()), raw, newPassword, now)
    {
      var matched: Option<nat> := None;
      var i := 0;
      while i < |candidates|
        invariant i <= |candidates|
        invariant matched == None
        invariant forall j :: 0 <= j < i ==> candidates[j] < |resets| && !Verify(raw, resets[candidates[j]].tokenHash)
      {
        assert candidates[i] in candidates;
        if Verify(raw, resets[candidates[i]].tokenHash) {
          matched := Some(candidates[i]);
          break;
        }
        i := i + 1;
      }
      if matched == None || resets[matched.value].expiresAt < now {
        return ResetRejected;
      }
      var row := matched.value;
      var userId := resets[row].user;
      if userId !in users {
        return ResetRejected;
      }
      users := users[userId := users[userId].(passwordHash := Hash(Password(newPassword)))];
      resets := resets[row := resets[row].(usedAt := Some(now))];
      return PasswordReset(row, now);
    }

    /** `update_user` with a status, and `deactivate_user`. */
    method SetStatus(userId: Uuid, status: UserStatus) returns (event: Event)
      modifies this`users
      ensures (State(), event) == SetStatusEffect(old(State()), userId, status)
    {
      if userId !in users {
        return UserNotFound;
      }
      users := users[userId := users[userId].(status := status)];
      return StatusSet(userId, status);
    }
  }

  /* ---------- Runs ---------- */

  datatype Call = Call(request: Request, now: int) {
    /** When a session issued by this call was issued. */
    function IssuedAt(): int {
      if request.Refresh? then request.issuedAt else now
    }
  }

  /** Nobody has failed a login, and no session or reset token exists yet. */
  ghost predicate Initial(t: Tables) {
    && t.sessions == [] && t.resets == []
    && forall u :: u in t.users ==> t.users[u].failedLoginAttempts == 0
  }

  /** The tables and the history after a sequence of calls, whatever the clock showed at each. */
  function Run(init: Tables, calls: seq<Call>): (Tables, seq<Event>) {
    if calls == [] then (init, [])
    else
      var (t, history) := Run(init, calls[..|calls| - 1]);
      var last := calls[|calls| - 1];
      var (t', event) := Effect(t, last.request, last.now);
      (t', history + [event])
  }

  /** Wrong-password logins of `u` since its last successful one. */
  function WrongSince(history: seq<Event>, u: Uuid): nat {
    if history == [] then 0
    else
      var event := history[|history| - 1];
      var before := history[..|history| - 1];
      if event.LoginSucceeded? && event.user == u then 0
      else if event == WrongPassword(u) then WrongSince(before, u) + 1
      else WrongSince(before, u)
  }

  /** An administrator set `u` to active after the last wrong password of `u`. */
  predicate ReactivatedSinceWrong(history: seq<Event>, u: Uuid) {
    history != [] &&
    var event := history[|history| - 1];
    event != WrongPassword(u) &&
    (event == StatusSet(u, Active) || ReactivatedSinceWrong(history[..|history| - 1], u))
  }

  /** For each session, in order of issue, the session it was rotated from. */
  function Lineage(history: seq<Event>): seq<Option<nat>> {
    if history == [] then []
    else
      var event := history[|history| - 1];
      Lineage(history[..|history| - 1]) +
      (match event
       case LoginSucceeded(_, _) => [None]
       case Rotated(used, _) => [Some(used)]
       case _ => [])
  }

  /** When each reset row was issued. */
  function IssueTimes(history: seq<Event>): seq<int> {
    if history == [] then []
    else
      var event := history[|history| - 1];
      IssueTimes(history[..|history| - 1]) + (if event.ResetIssued? then [event.at] else [])
  }

  /** The attempt counter is the history's count, and a user who is active despite ten failures was reactivated. */
  ghost predicate Counted(users: map<Uuid, User>, history: seq<Event>) {
    forall u :: u in users ==>
      && users[u].failedLoginAttempts == WrongSince(history, u)
      && (users[u].status == Active && users[u].failedLoginAttempts >= MAX_FAILED_ATTEMPTS ==>
            ReactivatedSinceWrong(history, u))
  }

  /** The lineage is a forest of chains: sessions are rotated from earlier, revoked sessions of the same user, and
      no session is rotated twice. */
  ghost predicate Rotations(sessions: seq<Session>, lineage: seq<Option<nat>>) {
    && |lineage| == |sessions|
    && (forall j :: 0 <= j < |lineage| && lineage[j].Some? ==>
          && lineage[j].value < j
          && sessions[lineage[j].value].revoked
          && sessions[lineage[j].value].user == sessions[j].user)
    && (forall i, j :: 0 <= i < j < |lineage| && lineage[i].Some? ==> lineage[i] != lineage[j])
  }

  ghost predicate Resets(resets: seq<ResetToken>, history: seq<Event>) {
    ExpireAfter(resets, IssueTimes(history)) && RowsRedeemedOnce(resets, history)
  }

  ghost predicate ExpireAfter(resets: seq<ResetToken>, issued: seq<int>) {
    && |issued| == |resets|
    && forall k :: 0 <= k < |resets| ==> resets[k].expiresAt == issued[k] + RESET_LIFETIME
  }

  ghost predicate RowsRedeemedOnce(resets: seq<ResetToken>, history: seq<Event>) {
    && (forall i :: 0 <= i < |history| && history[i].PasswordReset? ==>
          && history[i].row < |resets|
          && resets[history[i].row].usedAt.Some?
          && history[i].at <= resets[history[i].row].expiresAt)
    && (forall i, j :: 0 <= i < j < |history| && history[i].PasswordReset? && history[j].PasswordReset? ==>
          history[i].row != history[j].row)
  }

  /** How one more event changes the functions of the history. */
  lemma OneMoreEvent(history: seq<Event>, event: Event)
    ensures Lineage(history + [event]) ==
            Lineage(history) +
            (match event
             case LoginSucceeded(_, _) => [None]
             case Rotated(used, _) => [Some(used)]
             case _ => [])
    ensures IssueTimes(history + [event]) == IssueTimes(history) + (if event.ResetIssued? then [event.at] else [])
  {
    assert (history + [event])[..|history|] == history;
  }

  lemma OneMoreEventOf(history: seq<Event>, event: Event, u: Uuid)
    ensures WrongSince(history + [event], u) ==
            if event.LoginSucceeded? && event.user == u then 0
            else if event == WrongPassword(u) then WrongSince(history, u) + 1
            else WrongSince(history, u)
    ensures ReactivatedSinceWrong(history + [event], u) ==
            (event != WrongPassword(u) && (event == StatusSet(u, Active) || ReactivatedSinceWrong(history, u)))
  {
    assert (history + [event])[..|history|] == history;
  }

  /** What a request can do to a user's counter and status. */
  lemma UserStep(t: Tables, request: Request, now: int, u: Uuid)
    ensures var (t', event) := Effect(t, request, now);
            && (u in t'.users <==> u in t.users)
            && (u in t.users ==>
                && t'.users[u].failedLoginAttempts ==
                   (if event.LoginSucceeded? && event.user == u then 0
                    else t.users[u].failedLoginAttempts + if event == WrongPassword(u) then 1 else 0)
                && (t'.users[u].status == Active ==>
                    || event == StatusSet(u, Active)
                    || (t.users[u].status == Active &&
                        !(event == WrongPassword(u) && t'.users[u].failedLoginAttempts >= MAX_FAILED_ATTEMPTS))))
  {
  }

  lemma CountedStep(t: Tables, request: Request, now: int, history: seq<Event>)
    requires Counted(t.users, history)
    ensures var (t', event) := Effect(t, request, now); Counted(t'.users, history + [event])
  {
    var (t', event) := Effect(t, request, now);
    forall u | u in t'.users
      ensures t'.users[u].failedLoginAttempts == WrongSince(history + [event], u)
      ensures t'.users[u].status == Active && t'.users[u].failedLoginAttempts >= MAX_FAILED_ATTEMPTS ==>
            ReactivatedSinceWrong(history + [event], u)
    {
      UserStep(t, request, now, u);
      OneMoreEventOf(history, event, u);
    }
  }

  lemma RotationsRevoke(sessions: seq<Session>, lineage: seq<Option<nat>>, jti: nat)
    requires Rotations(sessions, lineage) && jti < |sessions|
    ensures Rotations(Revoked(sessions, jti), lineage)
  {
  }

  lemma RotationsIssue(sessions: seq<Session>, lineage: seq<Option<nat>>, parent: Option<nat>, session: Session)
    requires Rotations(sessions, lineage) && parent !in (set p | p in lineage && p.Some?)
    requires parent.Some? ==>
               parent.value < |sessions| && sessions[parent.value].revoked &&
               sessions[parent.value].user == session.user
    ensures Rotations(sessions + [session], lineage + [parent])
  {
  }

  lemma RotationsStep(t: Tables, request: Request, now: int, history: seq<Event>)
    requires Rotations(t.sessions, Lineage(history))
    ensures var (t', event) := Effect(t, request, now); Rotations(t'.sessions, Lineage(history + [event]))
  {
    var (t', event) := Effect(t, request, now);
    var lineage := Lineage(history);
    OneMoreEvent(history, event);
    match event
    case LoginSucceeded(u, _) =>
      assert t'.sessions == t.sessions + [t'.sessions[|t.sessions|]];
      RotationsIssue(t.sessions, lineage, None, t'.sessions[|t.sessions|]);
    case Rotated(used, _) =>
      assert t'.sessions == Revoked(t.sessions, used) + [t'.sessions[|t.sessions|]];
      RotationsRevoke(t.sessions, lineage, used);
      RotationsIssue(Revoked(t.sessions, used), lineage, Some(used), t'.sessions[|t.sessions|]);
    case LoggedOut(jti) =>
      assert t'.sessions == Revoked(t.sessions, jti);
      RotationsRevoke(t.sessions, lineage, jti);
    case _ =>
      assert t'.sessions == t.sessions && lineage + [] == lineage;
  }

  lemma ResetsQuiet(resets: seq<ResetToken>, history: seq<Event>, event: Event)
    requires Resets(resets, history) && !event.ResetIssued? && !event.PasswordReset?
    ensures Resets(resets, history + [event])
  {
    OneMoreEvent(history, event);
    RowsRedeemedOnceKept(resets, [], history, event);
    assert resets + [] == resets;
    assert IssueTimes(history + [event]) == IssueTimes(history);
  }

  lemma RowsRedeemedOnceKept(resets: seq<ResetToken>, more: seq<ResetToken>, history: seq<Event>, event: Event)
    requires RowsRedeemedOnce(resets, history) && !event.PasswordReset?
    ensures RowsRedeemedOnce(resets + more, history + [event])
  {
    var history' := history + [event];
    assert !history'[|history|].PasswordReset?;
    assert forall i :: 0 <= i < |history| ==> history'[i] == history[i];
    assert forall k :: 0 <= k < |resets| ==> (resets + more)[k] == resets[k];
  }

  lemma ResetsIssued(resets: seq<ResetToken>, history: seq<Event>, token: ResetToken, row: nat, at: int)
    requires Resets(resets, history) && token.expiresAt == at + RESET_LIFETIME
    ensures Resets(resets + [token], history + [ResetIssued(row, at)])
  {
    OneMoreEvent(history, ResetIssued(row, at));
    RowsRedeemedOnceKept(resets, [token], history, ResetIssued(row, at));
  }

  lemma ResetsRedeemed(resets: seq<ResetToken>, history: seq<Event>, row: nat, at: int)
    requires Resets(resets, history)
    requires row < |resets| && resets[row].usedAt == None && at <= resets[row].expiresAt
    ensures Resets(resets[row := resets[row].(usedAt := Some(at))], history + [PasswordReset(row, at)])
  {
    OneMoreEvent(history, PasswordReset(row, at));
    assert IssueTimes(history + [PasswordReset(row, at)]) == IssueTimes(history);
  }

  lemma ResetsStep(t: Tables, request: Request, now: int, history: seq<Event>)
    requires ResetRowsOwnSecrets(t) && Resets(t.resets, history)
    ensures var (t', event) := Effect(t, request, now);
            ResetRowsOwnSecrets(t') && Resets(t'.resets, history + [event])
  {
    var (t', event) := Effect(t, request, now);
    match event
    case ResetIssued(row, at) =>
      assert t'.resets == t.resets + [t'.resets[row]];
      ResetsIssued(t.resets, history, t'.resets[row], row, at);
    case PasswordReset(row, at) =>
      assert t'.resets == t.resets[row := t.resets[row].(usedAt := Some(at))];
      ResetsRedeemed(t.resets, history, row, at);
    case _ =>
      assert t'.resets == t.resets;
      ResetsQuiet(t.resets, history, event);
  }

  /* ---------- Main results, for every run ---------- */

  lemma {:induction false} RunKeeps(init: Tables, calls: seq<Call>)
    requires Initial(init)
    ensures var (t, history) := Run(init, calls);
            && |history| == |calls|
            && Counted(t.users, history)
            && Rotations(t.sessions, Lineage(history))
            && ResetRowsOwnSecrets(t)
            && Resets(t.resets, history)
  {
    if calls == [] {
    } else {
      var n := |calls| - 1;
      RunKeeps(init, calls[..n]);
      var (t, history) := Run(init, calls[..n]);
      CountedStep(t, calls[n].request, calls[n].now, history);
      RotationsStep(t, calls[n].request, calls[n].now, history);
      ResetsStep(t, calls[n].request, calls[n].now, history);
    }
  }

  /** The history of a prefix of the calls is a prefix of the history. */
  lemma {:induction false} RunPrefix(init: Tables, calls: seq<Call>, n: nat)
    requires n <= |calls|
    ensures |Run(init, calls).1| == |calls|
    ensures Run(init, calls[..n]).1 == Run(init, calls).1[..n]
    ensures n < |calls| ==>
              Effect(Run(init, calls[..n]).0, calls[n].request, calls[n].now).1 == Run(init, calls).1[n]
  {
    if calls == [] {
    } else if n == |calls| {
      assert calls[..n] == calls;
      RunPrefix(init, calls[..n - 1], n - 1);
    } else {
      var m := |calls| - 1;
      RunPrefix(init, calls[..m], n);
      assert calls[..m][..n] == calls[..n];
      if n == m {
        assert calls[..n + 1] == calls;
      }
    }
  }

  /** Lockout: a login that succeeds had fewer than ten wrong passwords since the previous success, or an
      administrator reactivated the user after the last of them. */
  lemma SuccessfulLoginWasNotLockedOut(init: Tables, calls: seq<Call>, i: nat, u: Uuid, jti: nat)
    requires Initial(init) && i < |calls| && |Run(init, calls).1| == |calls|
    requires Run(init, calls).1[i] == LoginSucceeded(u, jti)
    ensures var before := Run(init, calls).1[..i];
            WrongSince(before, u) < 10 || ReactivatedSinceWrong(before, u)
  {
    RunPrefix(init, calls, i);
    RunKeeps(init, calls[..i]);
    SuccessMeansActive(Run(init, calls[..i]).0, calls[i].request, calls[i].now);
  }

  lemma SuccessMeansActive(t: Tables, request: Request, now: int)
    ensures var event := Effect(t, request, now).1;
            event.LoginSucceeded? ==> event.user in t.users && t.users[event.user].status == Active
  {
  }

  /** A wrong password locks the account exactly from the tenth one since the last success on; reactivation does not
      restart that count, so the next wrong password locks the account again. */
  lemma LockedExactlyFromTheTenth(init: Tables, calls: seq<Call>, email: string, password: string, now: int)
    requires Initial(init)
    ensures var (t, history) := Run(init, calls);
            var (t', event) := LoginEffect(t, email, password, now);
            event.WrongPassword? ==>
              var u := event.user;
              (t'.users[u].status == Locked <==>
                 t.users[u].status == Locked || WrongSince(history, u) + 1 >= 10)
  {
    RunKeeps(init, calls);
  }

  /** The sessions rotated, in any number of steps, from `root`. */
  predicate Descends(lineage: seq<Option<nat>>, root: nat, jti: nat) {
    && jti < |lineage|
    && (jti == root
        || (lineage[jti].Some? && lineage[jti].value < jti && Descends(lineage, root, lineage[jti].value)))
  }

  /** A proper descendant lies beyond some child. */
  lemma {:induction false} ChildToward(sessions: seq<Session>, lineage: seq<Option<nat>>, root: nat, jti: nat)
    returns (child: nat)
    requires Rotations(sessions, lineage) && Descends(lineage, root, jti) && jti != root
    ensures root < child <= jti && lineage[child] == Some(root) && Descends(lineage, child, jti)
  {
    var parent := lineage[jti].value;
    if parent == root {
      child := jti;
    } else {
      child := ChildToward(sessions, lineage, root, parent);
    }
  }

  /** The descendants of one login form a chain. */
  lemma {:induction false} FamilyIsChain(sessions: seq<Session>, lineage: seq<Option<nat>>, root: nat, a: nat, b: nat)
    requires Rotations(sessions, lineage)
    requires Descends(lineage, root, a) && Descends(lineage, root, b) && a <= b
    ensures Descends(lineage, a, b)
    decreases b
  {
    if a == b {
    } else {
      if b == root {
        var _ := ChildToward(sessions, lineage, root, a);
        assert false;
      }
      var parent := lineage[b].value;
      if a <= parent {
        FamilyIsChain(sessions, lineage, root, a, parent);
      } else {
        FamilyIsChain(sessions, lineage, root, parent, a);
        var child := ChildToward(sessions, lineage, parent, a);
        assert false;
      }
    }
  }

  lemma {:induction false} FamilyHasOneUser(sessions: seq<Session>, lineage: seq<Option<nat>>, root: nat, jti: nat)
    requires Rotations(sessions, lineage) && Descends(lineage, root, jti)
    ensures root <= jti && sessions[root].user == sessions[jti].user
  {
    if jti == root {
    } else {
      FamilyHasOneUser(sessions, lineage, root, lineage[jti].value);
    }
  }

  /** In every run, two sessions of one family are ordered by descent, all but the last are revoked, and all belong
      to one user. */
  lemma OnlyTheLastOfAFamilyLives(init: Tables, calls: seq<Call>, root: nat, a: nat, b: nat)
    requires Initial(init)
    requires var lineage := Lineage(Run(init, calls).1);
             Descends(lineage, root, a) && Descends(lineage, root, b) && a < b
    ensures var (t, history) := Run(init, calls);
            && Descends(Lineage(history), a, b)
            && b < |t.sessions|
            && t.sessions[a].revoked
            && t.sessions[a].user == t.sessions[b].user
  {
    RunKeeps(init, calls);
    var (t, history) := Run(init, calls);
    FamilyIsChain(t.sessions, Lineage(history), root, a, b);
    FamilyHasOneUser(t.sessions, Lineage(history), a, b);
    var child := ChildToward(t.sessions, Lineage(history), a, b);
  }

  /** Sessions never disappear, change owner or come back to life. */
  lemma EffectKeepsSessions(t: Tables, request: Request, now: int)
    ensures var t' := Effect(t, request, now).0;
            && |t.sessions| <= |t'.sessions|
            && forall j :: 0 <= j < |t.sessions| ==>
                 && (t.sessions[j].revoked ==> t'.sessions[j].revoked)
                 && t'.sessions[j].user == t.sessions[j].user
                 && t'.sessions[j].expiresAt == t.sessions[j].expiresAt
  {
  }

  lemma {:induction false} RevocationIsPermanent(init: Tables, calls: seq<Call>, n: nat, jti: nat)
    requires n <= |calls|
    requires jti < |Run(init, calls[..n]).0.sessions| && Run(init, calls[..n]).0.sessions[jti].revoked
    ensures jti < |Run(init, calls).0.sessions| && Run(init, calls).0.sessions[jti].revoked
  {
    if n == |calls| {
      assert calls[..n] == calls;
    } else {
      var m := |calls| - 1;
      assert calls[..m][..n] == calls[..n];
      RevocationIsPermanent(init, calls[..m], n, jti);
      EffectKeepsSessions(Run(init, calls[..m]).0, calls[m].request, calls[m].now);
    }
  }

  /** A redemption of the token or a logout with it. */
  predicate UsesUp(event: Event, jti: nat) {
    (event.Rotated? && event.used == jti) || event == LoggedOut(jti)
  }

  /** Each refresh token is redeemed at most once, and never after a logout with it. */
  lemma RedeemedAtMostOnce(init: Tables, calls: seq<Call>, i: nat, k: nat, jti: nat, issued: nat)
    requires i < k < |calls| && |Run(init, calls).1| == |calls|
    requires var history := Run(init, calls).1;
             UsesUp(history[i], jti)
    ensures Run(init, calls).1[k] != Rotated(jti, issued)
  {
    RunPrefix(init, calls, i);
    RunPrefix(init, calls, k);
    assert calls[..i + 1][..i] == calls[..i];
    assert calls[..k][..i + 1] == calls[..i + 1];
    UsedUp(Run(init, calls[..i]).0, calls[i].request, calls[i].now, jti);
    RevocationIsPermanent(init, calls[..k], i + 1, jti);
    RevokedIsRejected(Run(init, calls[..k]).0, calls[k].request, calls[k].now, jti);
  }

  /** A new session is live and lasts seven days. */
  lemma IssuedForSevenDays(t: Tables, request: Request, now: int, jti: nat)
    ensures var (t', event) := Effect(t, request, now);
            (event.LoginSucceeded? && event.jti == jti) || (event.Rotated? && event.issued == jti) ==>
              && jti == |t.sessions| && |t'.sessions| == jti + 1
              && !t'.sessions[jti].revoked
              && t'.sessions[jti].expiresAt == Call(request, now).IssuedAt() + REFRESH_LIFETIME
  {
  }

  lemma {:induction false} SessionsStay(init: Tables, calls: seq<Call>, n: nat, jti: nat)
    requires n <= |calls| && jti < |Run(init, calls[..n]).0.sessions|
    ensures var t, t' := Run(init, calls[..n]).0, Run(init, calls).0;
            && jti < |t'.sessions|
            && t'.sessions[jti].user == t.sessions[jti].user
            && t'.sessions[jti].expiresAt == t.sessions[jti].expiresAt
  {
    if n == |calls| {
      assert calls[..n] == calls;
    } else {
      var m := |calls| - 1;
      assert calls[..m][..n] == calls[..n];
      SessionsStay(init, calls[..m], n, jti);
      EffectKeepsSessions(Run(init, calls[..m]).0, calls[m].request, calls[m].now);
    }
  }

  /** A refresh token redeemed after its issue is decoded within seven days of it, and still good at the later check. */
  lemma RedeemedWithinSevenDays(init: Tables, calls: seq<Call>, i: nat, k: nat, jti: nat, issued: nat)
    requires i < k < |calls| && |Run(init, calls).1| == |calls|
    requires var event := Run(init, calls).1[i];
             (event.LoginSucceeded? && event.jti == jti) || (event.Rotated? && event.issued == jti)
    requires Run(init, calls).1[k] == Rotated(jti, issued)
    ensures calls[k].request.Refresh?
    ensures calls[k].now < calls[i].IssuedAt() + 7 * 24 * 60 * 60
    ensures calls[k].request.checkedAt <= calls[i].IssuedAt() + 7 * 24 * 60 * 60
  {
    RunPrefix(init, calls, i);
    RunPrefix(init, calls, k);
    assert calls[..i + 1][..i] == calls[..i];
    assert calls[..k][..i + 1] == calls[..i + 1];
    IssuedForSevenDays(Run(init, calls[..i]).0, calls[i].request, calls[i].now, jti);
    SessionsStay(init, calls[..k], i + 1, jti);
    RotatedIsUnexpired(Run(init, calls[..k]).0, calls[k].request, calls[k].now);
  }

  lemma RotatedIsUnexpired(t: Tables, request: Request, now: int)
    ensures var event := Effect(t, request, now).1;
            event.Rotated? ==>
              && event.used < |t.sessions| && now < t.sessions[event.used].expiresAt
              && request.Refresh? && request.checkedAt <= t.sessions[event.used].expiresAt
  {
  }

  /** The check after decoding decides a refresh exactly when the token runs out between the two clock readings. */
  lemma SecondCheckDecidesIff(t: Tables, token: Credential, decodedAt: int, checkedAt: int, issuedAt: int)
    ensures Decodes(t, token, decodedAt) && IsUsable(t, token.jti)
            && RefreshEffect(t, token, decodedAt, checkedAt, issuedAt).1 == RefreshRejected
            <==>
            && token.Minted? && IsUsable(t, token.jti)
            && decodedAt < t.sessions[token.jti].expiresAt < checkedAt
  {
  }

  /** A redemption or a logout leaves its session revoked. */
  lemma UsedUp(t: Tables, request: Request, now: int, jti: nat)
    ensures var (t', event) := Effect(t, request, now);
            UsesUp(event, jti) ==>
              jti < |t'.sessions| && t'.sessions[jti].revoked
  {
  }

  lemma RevokedIsRejected(t: Tables, request: Request, now: int, jti: nat)
    requires jti < |t.sessions| && t.sessions[jti].revoked
    ensures var event := Effect(t, request, now).1; event.Rotated? ==> event.used != jti
  {
  }

  /* ---------- A refresh that commits late ---------- */

  /** Requests are atomic above. This is the commit of a refresh decided on an earlier state: it notices nothing of what
      happened to the session since. */
  function LateRefresh(t: Tables, jti: nat, user: Uuid, issuedAt: int): Tables
    requires jti < |t.sessions|
  {
    t.(sessions := Issued(Revoked(t.sessions, jti), user, issuedAt))
  }

  /** The late commit is an atomic refresh of the table as it is by then exactly when that table would still allow
      one. */
  lemma LateRefreshIsAtomicIff(
    init: Tables, calls: seq<Call>, n: nat, token: Credential, decodedAt: int, checkedAt: int, issuedAt: int)
    requires n <= |calls| && Refreshable(Run(init, calls[..n]).0, token, decodedAt, checkedAt)
    ensures var t := Run(init, calls).0;
            && token.jti < |t.sessions|
            && var user := Run(init, calls[..n]).0.sessions[token.jti].user;
               ((LateRefresh(t, token.jti, user, issuedAt), Rotated(token.jti, |t.sessions|)) ==
                RefreshEffect(t, token, decodedAt, checkedAt, issuedAt)
                <==> Refreshable(t, token, decodedAt, checkedAt))
  {
    SessionsStay(init, calls, n, token.jti);
  }

  /** No token is redeemed after it was redeemed or logged out. */
  ghost predicate RedeemedOnce(history: seq<Event>) {
    forall i, k :: 0 <= i < k < |history| && history[k].Rotated? ==> !UsesUp(history[i], history[k].used)
  }

  /** A late refresh redeems a token once and before its logout exactly when nothing used the token up in between, which
      is when its session is still live at the commit. */
  lemma LateRefreshRedeemsOnceIff(
    init: Tables, calls: seq<Call>, n: nat, token: Credential, decodedAt: int, checkedAt: int)
    requires n <= |calls| && |Run(init, calls).1| == |calls|
    requires Refreshable(Run(init, calls[..n]).0, token, decodedAt, checkedAt)
    ensures var (t, history) := Run(init, calls);
            && (RedeemedOnce(history + [Rotated(token.jti, |t.sessions|)]) <==>
                forall i :: n <= i < |calls| ==> !UsesUp(history[i], token.jti))
            && token.jti < |t.sessions|
            && (t.sessions[token.jti].revoked <==> exists i :: n <= i < |calls| && UsesUp(history[i], token.jti))
  {
    var (t, history) := Run(init, calls);
    var jti := token.jti;
    SessionsStay(init, calls, n, jti);
    forall i | 0 <= i < |calls| && UsesUp(history[i], jti)
      ensures n <= i && t.sessions[jti].revoked
    {
      UsedUpStaysRevoked(init, calls, i, n, jti);
    }
    if t.sessions[jti].revoked {
      var _ := SomebodyUsedItUp(init, calls, n, jti);
    }
    var late := history + [Rotated(jti, |t.sessions|)];
    forall i, k | 0 <= i < k < |calls| && history[k].Rotated?
      ensures !UsesUp(late[i], late[k].used)
    {
      if UsesUp(history[i], history[k].used) {
        RedeemedAtMostOnce(init, calls, i, k, history[k].used, history[k].issued);
      }
    }
    if forall i :: n <= i < |calls| ==> !UsesUp(history[i], jti) {
      assert RedeemedOnce(late);
    } else {
      var i :| n <= i < |calls| && UsesUp(history[i], jti);
      assert UsesUp(late[i], late[|calls|].used);
    }
  }

  /** What was used up is revoked from then on: also at the end, and not while it was still live. */
  lemma UsedUpStaysRevoked(init: Tables, calls: seq<Call>, i: nat, n: nat, jti: nat)
    requires i < |calls| && n <= |calls| && |Run(init, calls).1| == |calls| && UsesUp(Run(init, calls).1[i], jti)
    ensures jti < |Run(init, calls).0.sessions| && Run(init, calls).0.sessions[jti].revoked
    ensures i < n ==> jti < |Run(init, calls[..n]).0.sessions| && Run(init, calls[..n]).0.sessions[jti].revoked
  {
    UsedUpAtOnce(init, calls, i, jti);
    RevocationIsPermanent(init, calls, i + 1, jti);
    if i < n {
      assert calls[..n][..i + 1] == calls[..i + 1];
      RevocationIsPermanent(init, calls[..n], i + 1, jti);
    }
  }

  lemma UsedUpAtOnce(init: Tables, calls: seq<Call>, i: nat, jti: nat)
    requires i < |calls| && |Run(init, calls).1| == |calls| && UsesUp(Run(init, calls).1[i], jti)
    ensures var t := Run(init, calls[..i + 1]).0; jti < |t.sessions| && t.sessions[jti].revoked
  {
    RunPrefix(init, calls, i);
    assert calls[..i + 1][..i] == calls[..i];
    UsedUp(Run(init, calls[..i]).0, calls[i].request, calls[i].now, jti);
  }

  lemma {:induction false} SomebodyUsedItUp(init: Tables, calls: seq<Call>, n: nat, jti: nat) returns (i: nat)
    requires n <= |calls| && |Run(init, calls).1| == |calls|
    requires jti < |Run(init, calls[..n]).0.sessions| && !Run(init, calls[..n]).0.sessions[jti].revoked
    requires jti < |Run(init, calls).0.sessions| && Run(init, calls).0.sessions[jti].revoked
    ensures n <= i < |calls| && UsesUp(Run(init, calls).1[i], jti)
  {
    assert calls[..|calls|] == calls;
    var m := |calls| - 1;
    assert calls[..m][..n] == calls[..n];
    SessionsStay(init, calls[..m], n, jti);
    if Run(init, calls[..m]).0.sessions[jti].revoked {
      i := SomebodyUsedItUp(init, calls[..m], n, jti);
    } else {
      RevokedBy(Run(init, calls[..m]).0, calls[m].request, calls[m].now, jti);
      i := m;
    }
  }

  lemma RevokedBy(t: Tables, request: Request, now: int, jti: nat)
    requires jti < |t.sessions| && !t.sessions[jti].revoked
    ensures var (t', event) := Effect(t, request, now);
            jti < |t'.sessions| && (t'.sessions[jti].revoked <==> UsesUp(event, jti))
  {
  }

  /** After a late refresh the family is still a chain exactly when no other refresh rotated the session in between;
      otherwise it forks. Either way the session it issued is live, even if the user logged out in between. */
  lemma LateRefreshForksIff(
    init: Tables, calls: seq<Call>, n: nat, token: Credential, decodedAt: int, checkedAt: int, issuedAt: int)
    requires Initial(init) && n <= |calls| && |Run(init, calls).1| == |calls|
    requires Refreshable(Run(init, calls[..n]).0, token, decodedAt, checkedAt)
    ensures var (t, history) := Run(init, calls);
            && token.jti < |t.sessions|
            && var after := LateRefresh(t, token.jti, Run(init, calls[..n]).0.sessions[token.jti].user, issuedAt);
               && (Rotations(after.sessions, Lineage(history + [Rotated(token.jti, |t.sessions|)])) <==>
                   forall i :: n <= i < |calls| ==> !(history[i].Rotated? && history[i].used == token.jti))
               && !after.sessions[|t.sessions|].revoked
  {
    var (t, history) := Run(init, calls);
    var jti := token.jti;
    RunKeeps(init, calls);
    SessionsStay(init, calls, n, jti);
    OneMoreEvent(history, Rotated(jti, |t.sessions|));
    RotatedInLineage(history, jti);
    forall i | 0 <= i < |calls| && UsesUp(history[i], jti)
      ensures n <= i
    {
      UsedUpStaysRevoked(init, calls, i, n, jti);
    }
    LateRotationChainsIff(t.sessions, Lineage(history), jti, t.sessions[jti].user, issuedAt);
  }

  lemma LateRotationChainsIff(
    sessions: seq<Session>, lineage: seq<Option<nat>>, jti: nat, user: Uuid, issuedAt: int)
    requires Rotations(sessions, lineage) && jti < |sessions| && sessions[jti].user == user
    ensures Rotations(Issued(Revoked(sessions, jti), user, issuedAt), lineage + [Some(jti)]) <==> Some(jti) !in lineage
  {
    var after := Issued(Revoked(sessions, jti), user, issuedAt);
    var lineage' := lineage + [Some(jti)];
    if Some(jti) !in lineage {
      RotationsRevoke(sessions, lineage, jti);
      RotationsIssue(Revoked(sessions, jti), lineage, Some(jti), after[|sessions|]);
    } else {
      var j :| 0 <= j < |lineage| && lineage[j] == Some(jti);
      assert lineage'[j] == lineage'[|lineage|];
    }
  }

  lemma {:induction false} RotatedInLineage(history: seq<Event>, jti: nat)
    ensures Some(jti) in Lineage(history) <==>
            exists i :: 0 <= i < |history| && history[i].Rotated? && history[i].used == jti
  {
    if history == [] {
    } else {
      var n := |history| - 1;
      RotatedInLineage(history[..n], jti);
      assert history == history[..n] + [history[n]];
      if i :| 0 <= i < n && history[i].Rotated? && history[i].used == jti {
        assert history[..n][i] == history[i];
      }
    }
  }

  /** How many sessions are not revoked. */
  function LiveCount(sessions: seq<Session>): nat {
    if sessions == [] then 0
    else LiveCount(sessions[..|sessions| - 1]) + (if sessions[|sessions| - 1].revoked then 0 else 1)
  }

  lemma {:induction false} LiveCountRevoke(sessions: seq<Session>, jti: nat)
    requires jti < |sessions|
    ensures LiveCount(Revoked(sessions, jti)) == LiveCount(sessions) - (if sessions[jti].revoked then 0 else 1)
  {
    var n := |sessions| - 1;
    if jti < n {
      LiveCountRevoke(sessions[..n], jti);
      assert Revoked(sessions, jti)[..n] == Revoked(sessions[..n], jti);
    } else {
      assert Revoked(sessions, jti)[..n] == sessions[..n];
    }
  }

  lemma LiveCountIssue(sessions: seq<Session>, user: Uuid, issuedAt: int)
    ensures LiveCount(Issued(sessions, user, issuedAt)) == LiveCount(sessions) + 1
  {
    assert Issued(sessions, user, issuedAt)[..|sessions|] == sessions;
  }

  lemma LiveCountRotation(t: Tables, request: Request, now: int, used: nat)
    requires Effect(t, request, now).1 == Rotated(used, |t.sessions|)
    ensures LiveCount(Effect(t, request, now).0.sessions) == LiveCount(t.sessions)
  {
    LiveCountRevoke(t.sessions, used);
    LiveCountIssue(Revoked(t.sessions, used), t.sessions[used].user, request.issuedAt);
  }

  /** A login adds one live session, a rotation none, a logout removes the presented one if it was live, and no other
      request changes how many there are. */
  lemma LiveCountAccounting(t: Tables, request: Request, now: int)
    ensures var (t', event) := Effect(t, request, now);
            LiveCount(t'.sessions) ==
            LiveCount(t.sessions) +
            match event
            case LoginSucceeded(_, _) => 1
            case LoggedOut(jti) => if jti < |t.sessions| && !t.sessions[jti].revoked then -1 else 0
            case _ => 0
  {
    var (t', event) := Effect(t, request, now);
    match event
    case LoginSucceeded(u, _) =>
      assert t'.sessions == Issued(t.sessions, u, now);
      LiveCountIssue(t.sessions, u, now);
    case Rotated(used, _) =>
      LiveCountRotation(t, request, now, used);
    case LoggedOut(jti) =>
      assert t'.sessions == Revoked(t.sessions, jti);
      LiveCountRevoke(t.sessions, jti);
    case _ =>
      assert t'.sessions == t.sessions;
  }

  lemma IssuedAtTheEnd(t: Tables, request: Request, now: int)
    ensures var event := Effect(t, request, now).1; event.ResetIssued? ==> event.row == |t.resets|
  {
  }

  lemma IssueTimesSnoc(before: seq<Event>, row: nat, at: int, history: seq<Event>)
    requires before + [ResetIssued(row, at)] <= history
    ensures |IssueTimes(before)| < |IssueTimes(history)| && IssueTimes(history)[|IssueTimes(before)|] == at
  {
    OneMoreEvent(before, ResetIssued(row, at));
    assert history[..|before| + 1] == before + [ResetIssued(row, at)];
    IssueTimesPrefix(history, |before| + 1);
  }

  lemma IssueTimePerRow(init: Tables, calls: seq<Call>)
    requires Initial(init)
    ensures var (t, history) := Run(init, calls); |IssueTimes(history)| == |t.resets|
  {
    RunKeeps(init, calls);
  }

  /** The history's issue times are listed by row. */
  lemma IssuedInItsRow(init: Tables, calls: seq<Call>, k: nat, row: nat, issuedAt: int)
    requires Initial(init) && k < |calls| && |Run(init, calls).1| == |calls|
    requires Run(init, calls).1[k] == ResetIssued(row, issuedAt)
    ensures row < |IssueTimes(Run(init, calls).1)| && IssueTimes(Run(init, calls).1)[row] == issuedAt
  {
    RunPrefix(init, calls, k);
    IssuedAtItsTime(init, calls[..k], calls[k], row, issuedAt);
    IssueTimesSnoc(Run(init, calls[..k]).1, row, issuedAt, Run(init, calls).1);
  }

  lemma IssuedAtItsTime(init: Tables, before: seq<Call>, call: Call, row: nat, issuedAt: int)
    requires Initial(init)
    requires Effect(Run(init, before).0, call.request, call.now).1 == ResetIssued(row, issuedAt)
    ensures row == |IssueTimes(Run(init, before).1)|
  {
    IssueTimePerRow(init, before);
    IssuedAtTheEnd(Run(init, before).0, call.request, call.now);
  }

  /** A reset token is redeemed at most once, and at most an hour after it was issued. */
  lemma ResetOnceWithinTheHour(init: Tables, calls: seq<Call>, k: nat, i: nat, row: nat, issuedAt: int, at: int)
    requires Initial(init) && k < |calls| && i < |calls| && |Run(init, calls).1| == |calls|
    requires Run(init, calls).1[k] == ResetIssued(row, issuedAt)
    requires Run(init, calls).1[i] == PasswordReset(row, at)
    ensures at <= issuedAt + 60 * 60
    ensures forall j, at' :: 0 <= j < |calls| && Run(init, calls).1[j] == PasswordReset(row, at') ==> j == i
  {
    RunKeeps(init, calls);
    IssuedInItsRow(init, calls, k, row, issuedAt);
  }

  lemma {:induction false} IssueTimesPrefix(history: seq<Event>, n: nat)
    requires n <= |history|
    ensures IssueTimes(history[..n]) <= IssueTimes(history)
  {
    if n == |history| {
      assert history[..n] == history;
    } else {
      var m := |history| - 1;
      assert history[..m][..n] == history[..n];
      IssueTimesPrefix(history[..m], n);
    }
  }

  /** A redemption changes one user's password and marks one row; every other outstanding token, even of the same
      user, stays exactly as redeemable as before. A rejected one changes nothing. */
  lemma RedemptionTouchesOneOfEach(t: Tables, raw: Secret, newPassword: string, now: int)
    requires ResetRowsOwnSecrets(t)
    ensures var (t', event) := ResetPasswordEffect(t, raw, newPassword, now);
            if event.PasswordReset? then
              var row := event.row;
              && Redeemable(t, raw, row, now)
              && t'.users.Keys == t.users.Keys
              && t'.users[t.resets[row].user].passwordHash == Hash(Password(newPassword))
              && (forall u :: u in t.users && u != t.resets[row].user ==> t'.users[u] == t.users[u])
              && t'.users[t.resets[row].user].status == t.users[t.resets[row].user].status
              && |t'.resets| == |t.resets|
              && t'.resets[row].usedAt == Some(now)
              && t'.sessions == t.sessions
              && (forall k, now' :: Redeemable(t', ResetSecret(k), k, now') <==>
                                    k != row && Redeemable(t, ResetSecret(k), k, now'))
            else
              t' == t && forall k :: !Redeemable(t, raw, k, now)
  {
  }

  /** After a redemption the new password opens an active account and every other password is wrong; a locked or
      inactive account stays closed, and its attempt counter is untouched. */
  lemma ResetThenLogin(
    t: Tables, raw: Secret, newPassword: string, now: int, email: string, password: string, later: int)
    requires ResetRowsOwnSecrets(t)
    requires ResetPasswordEffect(t, raw, newPassword, now).1.PasswordReset?
    requires FindByEmail(t, email) == Some(t.resets[raw.row].user)
    ensures var u := t.resets[raw.row].user;
            var event := LoginEffect(ResetPasswordEffect(t, raw, newPassword, now).0, email, password, later).1;
            && (event.LoginSucceeded? <==> password == newPassword && t.users[u].status == Active)
            && (event == WrongPassword(u) <==> password != newPassword)
  {
  }

  /* ---------- Who may do what, and who gets what ---------- */

  /** A login succeeds exactly with the password of the active user the email names. It then issues one live session, to
      that user, and records the time and the success; every other row stays. */
  lemma LoginIff(t: Tables, email: string, password: string, now: int)
    ensures var (t', event) := LoginEffect(t, email, password, now);
            && (event.LoginSucceeded? <==>
                && email in t.emails && t.emails[email] in t.users
                && t.users[t.emails[email]].passwordHash == Hash(Password(password))
                && t.users[t.emails[email]].status == Active)
            && (event.LoginSucceeded? ==>
                var u := t.emails[email];
                && event == LoginSucceeded(u, |t.sessions|)
                && |t'.sessions| == |t.sessions| + 1 && t'.sessions[..|t.sessions|] == t.sessions
                && t'.sessions[|t.sessions|] == Session(u, false, now + 7 * 24 * 60 * 60)
                && t'.users.Keys == t.users.Keys
                && t'.users[u].lastLoginAt == Some(now) && t'.users[u].failedLoginAttempts == 0
                && t'.users[u].status == Active && t'.users[u].passwordHash == t.users[u].passwordHash
                && (forall v :: v in t.users && v != u ==> t'.users[v] == t.users[v])
                && t'.resets == t.resets && t'.emails == t.emails)
  {
  }

  lemma LoggedInAs(t: Tables, request: Request, now: int)
    ensures var (t', event) := Effect(t, request, now);
            event.LoginSucceeded? ==>
              && request.Login? && request.email in t.emails && t.emails[request.email] == event.user
              && event.user in t.users && t.users[event.user].status == Active
              && t.users[event.user].passwordHash == Hash(Password(request.password))
              && event.jti == |t.sessions| && |t'.sessions| == |t.sessions| + 1
              && t'.sessions[event.jti].user == event.user
  {
    if request.Login? {
      LoginIff(t, request.email, request.password, now);
    }
  }

  /** In every run, a successful login was made with the email and the password of an active user, and the session it
      issued belongs to that user, as does every session ever rotated from it. */
  lemma LoginSessionIsItsUsers(init: Tables, calls: seq<Call>, i: nat, u: Uuid, jti: nat)
    requires Initial(init) && i < |calls| && |Run(init, calls).1| == |calls|
    requires Run(init, calls).1[i] == LoginSucceeded(u, jti)
    ensures var before := Run(init, calls[..i]).0;
            && calls[i].request.Login?
            && calls[i].request.email in before.emails && before.emails[calls[i].request.email] == u
            && u in before.users && before.users[u].status == Active
            && before.users[u].passwordHash == Hash(Password(calls[i].request.password))
    ensures var (t, history) := Run(init, calls);
            && jti < |t.sessions| && t.sessions[jti].user == u
            && forall k: nat :: Descends(Lineage(history), jti, k) ==> k < |t.sessions| && t.sessions[k].user == u
  {
    RunPrefix(init, calls, i);
    assert calls[..i + 1][..i] == calls[..i];
    LoggedInAs(Run(init, calls[..i]).0, calls[i].request, calls[i].now);
    SessionsStay(init, calls, i + 1, jti);
    RunKeeps(init, calls);
    var (t, history) := Run(init, calls);
    forall k: nat | Descends(Lineage(history), jti, k)
      ensures k < |t.sessions| && t.sessions[k].user == u
    {
      FamilyHasOneUser(t.sessions, Lineage(history), jti, k);
    }
  }

  /** In every run, a refresh token is accepted exactly for seven days after its issue, until it is redeemed or logged
      out, and while its user is active. */
  lemma RefreshAcceptedIff(
    init: Tables, calls: seq<Call>, i: nat, jti: nat, decodedAt: int, checkedAt: int, issuedAt: int)
    requires i < |calls| && |Run(init, calls).1| == |calls|
    requires var event := Run(init, calls).1[i];
             (event.LoginSucceeded? && event.jti == jti) || (event.Rotated? && event.issued == jti)
    ensures var (t, history) := Run(init, calls);
            var until := calls[i].IssuedAt() + 7 * 24 * 60 * 60;
            && jti < |t.sessions|
            && (RefreshEffect(t, Minted(jti), decodedAt, checkedAt, issuedAt).1.Rotated? <==>
                && decodedAt < until && checkedAt <= until
                && (forall k :: i < k < |calls| ==> !UsesUp(history[k], jti))
                && t.sessions[jti].user in t.users && t.users[t.sessions[jti].user].status == Active)
  {
    IssuedLive(init, calls, i, jti);
    SessionsStay(init, calls, i + 1, jti);
    RevokedIffUsedUp(init, calls, i + 1, jti);
  }

  lemma IssuedLive(init: Tables, calls: seq<Call>, i: nat, jti: nat)
    requires i < |calls| && |Run(init, calls).1| == |calls|
    requires var event := Run(init, calls).1[i];
             (event.LoginSucceeded? && event.jti == jti) || (event.Rotated? && event.issued == jti)
    ensures var t := Run(init, calls[..i + 1]).0;
            && jti < |t.sessions| && !t.sessions[jti].revoked
            && t.sessions[jti].expiresAt == calls[i].IssuedAt() + 7 * 24 * 60 * 60
  {
    RunPrefix(init, calls, i);
    assert calls[..i + 1][..i] == calls[..i];
    IssuedForSevenDays(Run(init, calls[..i]).0, calls[i].request, calls[i].now, jti);
  }

  /** A session live at some point of the run is revoked at the end exactly if something has used it up since. */
  lemma RevokedIffUsedUp(init: Tables, calls: seq<Call>, n: nat, jti: nat)
    requires n <= |calls| && |Run(init, calls).1| == |calls|
    requires jti < |Run(init, calls[..n]).0.sessions| && !Run(init, calls[..n]).0.sessions[jti].revoked
    ensures var (t, history) := Run(init, calls);
            && jti < |t.sessions|
            && (t.sessions[jti].revoked <==> exists k :: n <= k < |calls| && UsesUp(history[k], jti))
  {
    SessionsStay(init, calls, n, jti);
    var (t, history) := Run(init, calls);
    if t.sessions[jti].revoked {
      var k := SomebodyUsedItUp(init, calls, n, jti);
    }
    if k :| n <= k < |calls| && UsesUp(history[k], jti) {
      UsedUpStaysRevoked(init, calls, k, n, jti);
    }
  }

  /** Reset rows never disappear and change only by being used. */
  lemma EffectKeepsResets(t: Tables, request: Request, now: int)
    ensures var (t', event) := Effect(t, request, now);
            && t'.users.Keys == t.users.Keys
            && |t.resets| <= |t'.resets|
            && forall k :: 0 <= k < |t.resets| ==>
                 && t'.resets[k].user == t.resets[k].user
                 && t'.resets[k].expiresAt == t.resets[k].expiresAt
                 && (t'.resets[k].usedAt.Some? <==>
                     t.resets[k].usedAt.Some? || (event.PasswordReset? && event.row == k))
  {
  }

  /** A reset token is issued exactly for the active user the email names: a fresh row, unused, good for one hour. */
  lemma ResetIssuedIff(t: Tables, email: string, now: int)
    ensures var (t', event) := RequestResetEffect(t, email, now);
            && (event.ResetIssued? <==>
                && email in t.emails && t.emails[email] in t.users && t.users[t.emails[email]].status == Active)
            && (event.ResetIssued? ==>
                && event == ResetIssued(|t.resets|, now)
                && t' == t.(resets := t'.resets)
                && |t'.resets| == |t.resets| + 1 && t'.resets[..|t.resets|] == t.resets
                && t'.resets[|t.resets|].user == t.emails[email]
                && t'.resets[|t.resets|].usedAt == None
                && t'.resets[|t.resets|].expiresAt == now + 60 * 60)
            && (!event.ResetIssued? ==> t' == t)
  {
  }

  lemma IssuedOnRequest(t: Tables, request: Request, now: int)
    ensures var (t', event) := Effect(t, request, now);
            event.ResetIssued? ==>
              && request.RequestReset? && request.email in t.emails && t.emails[request.email] in t.users
              && t.users[t.emails[request.email]].status == Active
              && event.row == |t.resets| && event.at == now && |t'.resets| == event.row + 1
              && t'.resets[event.row].user == t.emails[request.email]
              && t'.resets[event.row].usedAt == None && t'.resets[event.row].expiresAt == now + 60 * 60
  {
    if request.RequestReset? {
      ResetIssuedIff(t, request.email, now);
    }
  }

  lemma {:induction false} ResetsStay(init: Tables, calls: seq<Call>, n: nat, row: nat)
    requires n <= |calls| && |Run(init, calls).1| == |calls| && row < |Run(init, calls[..n]).0.resets|
    ensures var t, t' := Run(init, calls[..n]).0, Run(init, calls).0;
            && t'.users.Keys == t.users.Keys
            && row < |t'.resets|
            && t'.resets[row].user == t.resets[row].user && t'.resets[row].expiresAt == t.resets[row].expiresAt
            && (t'.resets[row].usedAt.Some? <==>
                || t.resets[row].usedAt.Some?
                || exists k :: n <= k < |calls| && Redeems(Run(init, calls).1[k], row))
  {
    if n == |calls| {
      assert calls[..n] == calls;
    } else {
      var m := |calls| - 1;
      assert calls[..m][..n] == calls[..n];
      RunPrefix(init, calls, m);
      ResetsStay(init, calls[..m], n, row);
      EffectKeepsResets(Run(init, calls[..m]).0, calls[m].request, calls[m].now);
      var history := Run(init, calls).1;
      if k :| n <= k < m && Redeems(Run(init, calls[..m]).1[k], row) {
        assert Redeems(history[k], row);
      }
    }
  }

  predicate Redeems(event: Event, row: nat) {
    event.PasswordReset? && event.row == row
  }

  /** In every run, a reset token belongs to the active user whose email was given, and is accepted exactly for one hour
      and until it is first redeemed. */
  lemma ResetAcceptedIff(
    init: Tables, calls: seq<Call>, i: nat, row: nat, at: int, newPassword: string, now: int)
    requires Initial(init) && i < |calls| && |Run(init, calls).1| == |calls|
    requires Run(init, calls).1[i] == ResetIssued(row, at)
    ensures var before := Run(init, calls[..i]).0;
            && calls[i].request.RequestReset? && calls[i].request.email in before.emails
            && before.emails[calls[i].request.email] in before.users
            && before.users[before.emails[calls[i].request.email]].status == Active
    ensures var (t, history) := Run(init, calls);
            && row < |t.resets|
            && t.resets[row].user == Run(init, calls[..i]).0.emails[calls[i].request.email]
            && (ResetPasswordEffect(t, ResetSecret(row), newPassword, now).1 == PasswordReset(row, now) <==>
                now <= at + 60 * 60 && forall k :: i < k < |calls| ==> !Redeems(history[k], row))
  {
    IssuedUnused(init, calls, i, row, at);
    ResetsStay(init, calls, i + 1, row);
    OwnSecrets(init, calls);
  }

  lemma IssuedUnused(init: Tables, calls: seq<Call>, i: nat, row: nat, at: int)
    requires i < |calls| && |Run(init, calls).1| == |calls| && Run(init, calls).1[i] == ResetIssued(row, at)
    ensures var before, t := Run(init, calls[..i]).0, Run(init, calls[..i + 1]).0;
            && calls[i].request.RequestReset? && calls[i].request.email in before.emails
            && var u := before.emails[calls[i].request.email];
               && u in before.users && before.users[u].status == Active
               && row < |t.resets| && t.resets[row].user == u && u in t.users
               && t.resets[row].usedAt == None && t.resets[row].expiresAt == at + 60 * 60
  {
    RunPrefix(init, calls, i);
    assert calls[..i + 1][..i] == calls[..i];
    IssuedOnRequest(Run(init, calls[..i]).0, calls[i].request, calls[i].now);
    EffectKeepsResets(Run(init, calls[..i]).0, calls[i].request, calls[i].now);
  }

  lemma OwnSecrets(init: Tables, calls: seq<Call>)
    requires Initial(init)
    ensures ResetRowsOwnSecrets(Run(init, calls).0)
  {
    RunKeeps(init, calls);
  }

  /** The status the history tells: what an administrator set last, or locked by a wrong password since, the tenth or
      later without a success. */
  function StatusTold(history: seq<Event>, u: Uuid, first: UserStatus): UserStatus {
    if history == [] then first
    else
      var event := history[|history| - 1];
      if event.StatusSet? && event.user == u then event.status
      else if event == WrongPassword(u) && WrongSince(history, u) >= 10 then Locked
      else StatusTold(history[..|history| - 1], u, first)
  }

  /** In every run each user's status is the one the history tells, and administrators' writes all take effect. */
  lemma {:induction false} StatusIsTold(init: Tables, calls: seq<Call>, u: Uuid)
    requires Initial(init) && u in init.users
    ensures var (t, history) := Run(init, calls);
            u in t.users && t.users[u].status == StatusTold(history, u, init.users[u].status)
    ensures |Run(init, calls).1| == |calls|
    ensures forall i, status :: 0 <= i < |calls| && calls[i].request == SetStatus(u, status) ==>
                                Run(init, calls).1[i] == StatusSet(u, status)
  {
    if calls == [] {
    } else {
      var n := |calls| - 1;
      StatusIsTold(init, calls[..n], u);
      CountIsTold(init, calls[..n], u);
      var (t, history) := Run(init, calls[..n]);
      var (t', event) := Effect(t, calls[n].request, calls[n].now);
      assert (history + [event])[..n] == history;
      StatusStep(t, calls[n].request, calls[n].now, u);
      OneMoreEventOf(history, event, u);
    }
  }

  lemma CountIsTold(init: Tables, calls: seq<Call>, u: Uuid)
    requires Initial(init)
    ensures var (t, history) := Run(init, calls);
            u in t.users ==> t.users[u].failedLoginAttempts == WrongSince(history, u)
  {
    RunKeeps(init, calls);
  }

  lemma StatusStep(t: Tables, request: Request, now: int, u: Uuid)
    requires u in t.users
    ensures var (t', event) := Effect(t, request, now);
            && u in t'.users
            && t'.users[u].status ==
               (if event.StatusSet? && event.user == u then event.status
                else if event == WrongPassword(u) && t.users[u].failedLoginAttempts + 1 >= 10 then Locked
                else t.users[u].status)
            && forall status :: request == SetStatus(u, status) ==> event == StatusSet(u, status)
  {
  }

  /** What any request can do to a user's password and login time, and to the index: a password changes only by a
      redemption of that user's reset token, to the one given, and the login time only by that user's login. */
  lemma UserFieldsStep(t: Tables, request: Request, now: int, u: Uuid)
    requires u in t.users
    ensures var (t', event) := Effect(t, request, now);
            && u in t'.users && t'.emails == t.emails
            && t'.users[u].passwordHash ==
               (if request.ResetPassword? && event.PasswordReset? && event.row < |t.resets|
                   && t.resets[event.row].user == u
                then Hash(Password(request.newPassword)) else t.users[u].passwordHash)
            && t'.users[u].lastLoginAt ==
               (if event.LoginSucceeded? && event.user == u then Some(now) else t.users[u].lastLoginAt)
  {
  }

  /** In every run, a user none of whose reset tokens was redeemed still has the first password. */
  lemma {:induction false} PasswordsStay(init: Tables, calls: seq<Call>, u: Uuid)
    requires Initial(init) && u in init.users && |Run(init, calls).1| == |calls|
    requires var (t, history) := Run(init, calls);
             forall i :: 0 <= i < |calls| && history[i].PasswordReset? && history[i].row < |t.resets| ==>
                           t.resets[history[i].row].user != u
    ensures u in Run(init, calls).0.users
    ensures Run(init, calls).0.users[u].passwordHash == init.users[u].passwordHash
  {
    if calls == [] {
    } else {
      var n := |calls| - 1;
      RunPrefix(init, calls, n);
      var (t, history) := Run(init, calls[..n]);
      EffectKeepsResets(t, calls[n].request, calls[n].now);
      PasswordsStay(init, calls[..n], u);
      UserFieldsStep(t, calls[n].request, calls[n].now, u);
    }
  }
}
