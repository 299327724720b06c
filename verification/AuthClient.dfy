/** The browser's half of the session protocol: the stored token pair and the shared in-flight refresh. */
module AuthClient {
  import opened Common

  /** What the client keeps. A token pair is named by the session it was issued with, so both stored tokens carry
      that number; `inFlight` names the outstanding POST /auth/refresh whose observable is being shared. */
  datatype Browser = Browser(accessToken: Option<nat>, refreshToken: Option<nat>, inFlight: Option<nat>)

  /** What `refreshAccessToken` hands its caller: the shared refresh, a new one, or an error. */
  datatype RefreshOutcome = Join(call: nat) | Start(call: nat, token: nat) | NoToken

  function StoredTokens(b: Browser, pair: nat): Browser {
    b.(accessToken := Some(pair), refreshToken := Some(pair))
  }

  function ClearedSession(b: Browser): Browser {
    b.(accessToken := None, refreshToken := None)
  }

  function RefreshRequested(b: Browser, nextCall: nat): (Browser, RefreshOutcome) {
    match (b.inFlight, b.refreshToken)
    case (Some(call), _) => (b, Join(call))
    case (None, None) => (b, NoToken)
    case (None, Some(token)) => (b.(inFlight := Some(nextCall)), Start(nextCall, token))
  }

  /** `logout` up to its request: the token to post, or nothing to post and the session cleared at once. */
  function LogoutRequested(b: Browser): (Browser, Option<nat>) {
    if b.refreshToken == None then (ClearedSession(b), None) else (b, b.refreshToken)
  }

  class AuthService {
    var accessToken: Option<nat>
    var refreshToken: Option<nat>
    var refreshInFlight: Option<nat>

    function State(): Browser
      reads this
    {
      Browser(accessToken, refreshToken, refreshInFlight)
    }

    constructor ()
      ensures State() == Browser(None, None, None)
    {
      accessToken, refreshToken, refreshInFlight := None, None, None;
    }

    method StoreTokens(pair: nat)
      modifies this`accessToken, this`refreshToken
      ensures State() == StoredTokens(old(State()), pair)
    {
      accessToken := Some(pair);
      refreshToken := Some(pair);
    }

    method ClearSession()
      modifies this`accessToken, this`refreshToken
      ensures State() == ClearedSession(old(State()))
    {
      accessToken := None;
      refreshToken := None;
    }

    /** `refreshAccessToken`: `nextCall` is the request it would send. */
    method RefreshAccessToken(nextCall: nat) returns (outcome: RefreshOutcome)
      modifies this`refreshInFlight
      ensures (State(), outcome) == RefreshRequested(old(State()), nextCall)
    {
      if refreshInFlight.Some? {
        return Join(refreshInFlight.value);
      }
      var token := refreshToken;
      if token == None {
        return NoToken;
      }
      refreshInFlight := Some(nextCall);
      return Start(nextCall, token.value);
    }

    /** `logout` before its POST; whether that succeeds or fails, `ClearSession` follows it. */
    method Logout() returns (token: Option<nat>)
      modifies this`accessToken, this`refreshToken
      ensures (State(), token) == LogoutRequested(old(State()))
    {
      token := refreshToken;
      if token == None {
        ClearSession();
      }
    }

    /** The `finalize` callback, which every subscriber of the shared refresh carries. */
    method FinalizeRefresh()
      modifies this`refreshInFlight
      ensures State() == old(State()).(inFlight := None)
    {
      refreshInFlight := None;
    }
  }
}
