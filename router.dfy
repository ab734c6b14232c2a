/**
 * internal/router/router.go: which routes exist, which of them pass the
 * authentication gate first, the gate itself, and the run-mode selection.
 * The HTTP framework is reduced to the decision it acts on: run the
 * handler, or answer with a status and stop.
 */
module Router {
  import opened Model

  const StatusUnauthorized: int := 401

  /** What the gate tells the framework: continue the chain, or abort with a status. */
  datatype Gate = Next | Abort(status: int)

  /**
   * AuthMiddleWare on the result of reading the session cookie
   * (Constant.SessionCookie, "user_session"; None when
   * the cookie is missing or unreadable). Only presence is checked: no
   * store is consulted, and the decision has no other input.
   */
  function AuthMiddleWare(cookie: Option<string>): (g: Gate)
    ensures g == Next <==> cookie.Some? && cookie.value != ""
    ensures g != Next ==> g == Abort(StatusUnauthorized)
  {
    match cookie
    case Some(session) => if session != "" then Next else Abort(StatusUnauthorized)
    case None => Abort(StatusUnauthorized)
  }

  datatype Verb = GET | POST

  datatype Handler = Ping | Register | Login | Logout | Logoff | GetUserInfo | UpdateNickName | UpLoad

  /** A registered route: verb, path, whether the gate runs first, and the handler. */
  datatype Route = Route(verb: Verb, path: string, gated: bool, handler: Handler)

  /** The routes InitRouterAndServer registers (static file routes aside). */
  const Routes: seq<Route> := [
    Route(GET, "/ping", false, Ping),
    Route(POST, "/user/register", false, Register),
    Route(POST, "/user/login", false, Login),
    Route(POST, "/user/logout", true, Logout),
    Route(POST, "/user/logoff", true, Logoff),
    Route(GET, "/user/get_user_info", true, GetUserInfo),
    Route(POST, "/user/update_nick_name", true, UpdateNickName),
    Route(POST, "/user/upload", false, UpLoad)
  ]

  /** The handlers that require a session cookie. */
  predicate NeedsSession(h: Handler) {
    h == Logout || h == Logoff || h == GetUserInfo || h == UpdateNickName
  }

  /** A route runs the gate exactly when its handler needs a session. */
  predicate GatedBySession(routes: seq<Route>) {
    forall k :: 0 <= k < |routes| ==> (routes[k].gated <==> NeedsSession(routes[k].handler))
  }

  lemma RoutesGatedBySession()
    ensures GatedBySession(Routes)
  {
  }

  /** The outcome of one request. */
  datatype Served = NotFound | Rejected(status: int) | Handled(handler: Handler)

  function FindRoute(routes: seq<Route>, verb: Verb, path: string): (r: Option<nat>)
    ensures r.Some? ==> r.value < |routes| && routes[r.value].verb == verb && routes[r.value].path == path
    ensures r.Some? ==> forall k :: 0 <= k < r.value ==> !(routes[k].verb == verb && routes[k].path == path)
    ensures r.None? ==> forall k :: 0 <= k < |routes| ==> !(routes[k].verb == verb && routes[k].path == path)
  {
    if routes == [] then None
    else if routes[0].verb == verb && routes[0].path == path then Some(0)
    else match FindRoute(routes[1..], verb, path)
      case None => None
      case Some(i) => Some(i + 1)
  }

  /**
   * Route the request; a gated route runs its handler only when the gate
   * says Next. No handler that needs a session runs without a cookie, and
   * a refusal is always 401.
   */
  function Serve(verb: Verb, path: string, cookie: Option<string>): (s: Served)
    ensures s == NotFound <==> forall k :: 0 <= k < |Routes| ==> !(Routes[k].verb == verb && Routes[k].path == path)
    ensures s.Rejected? ==> s.status == StatusUnauthorized && !(cookie.Some? && cookie.value != "")
    ensures s.Handled? && NeedsSession(s.handler) ==> cookie.Some? && cookie.value != ""
  {
    match FindRoute(Routes, verb, path)
    case None => NotFound
    case Some(i) =>
      RoutesGatedBySession();
      if Routes[i].gated && AuthMiddleWare(cookie) != Next then Rejected(AuthMiddleWare(cookie).status)
      else Handled(Routes[i].handler)
  }

  /** No two routes share a path. */
  predicate DistinctPaths(routes: seq<Route>) {
    forall i, j :: 0 <= i < j < |routes| ==> routes[i].path != routes[j].path
  }

  lemma PathsDistinct()
    ensures DistinctPaths(Routes)
  {
  }

  /** With distinct paths, each route is found at its own index. */
  lemma {:induction false} FoundAtOwnIndex(routes: seq<Route>, k: nat)
    requires DistinctPaths(routes) && k < |routes|
    ensures FindRoute(routes, routes[k].verb, routes[k].path) == Some(k)
  {
    if k > 0 {
      var tail := routes[1..];
      assert routes[0].path != routes[k].path;
      assert DistinctPaths(tail) by {
        forall i, j | 0 <= i < j < |tail| ensures tail[i].path != tail[j].path {
          assert tail[i] == routes[i + 1] && tail[j] == routes[j + 1];
        }
      }
      assert tail[k - 1] == routes[k];
      FoundAtOwnIndex(tail, k - 1);
    }
  }

  /**
   * Every registered route is reached by its verb and path; its handler
   * runs exactly when it needs no session or the cookie is present and
   * non-empty, and otherwise the request is refused with 401.
   */
  lemma ServeRegisteredRoutes(k: nat, cookie: Option<string>)
    requires k < |Routes|
    ensures Routes[k].gated <==> NeedsSession(Routes[k].handler)
    ensures Serve(Routes[k].verb, Routes[k].path, cookie) ==
            if NeedsSession(Routes[k].handler) && !(cookie.Some? && cookie.value != "")
            then Rejected(StatusUnauthorized)
            else Handled(Routes[k].handler)
  {
    PathsDistinct();
    RoutesGatedBySession();
    FoundAtOwnIndex(Routes, k);
  }

  // ---------------------------------------------------------------------

  /** gin's three run modes. */
  datatype Mode = DebugMode | ReleaseMode | TestMode

  function ModeName(m: Mode): string {
    match m
    case DebugMode => "debug"
    case ReleaseMode => "release"
    case TestMode => "test"
  }

  /** The mode setAppRunMode selects for a configured run_mode; None where it panics. */
  function ParseRunMode(runMode: string): (m: Option<Mode>)
    ensures m.Some? <==> runMode == "release" || runMode == "test" || runMode == "debug"
    ensures m.Some? ==> ModeName(m.value) == runMode
  {
    if runMode == "release" then Some(ReleaseMode)
    else if runMode == "test" then Some(TestMode)
    else if runMode == "debug" then Some(DebugMode)
    else None
  }

  /** The framework's global mode setting. */
  class Engine {
    var mode: Mode

    /** gin starts in debug mode. */
    constructor ()
      ensures mode == DebugMode
    {
      mode := DebugMode;
    }

    /** setAppRunMode: set the named mode, or panic and leave the mode alone. */
    method SetAppRunMode(runMode: string) returns (panicked: bool)
      modifies this
      ensures panicked <==> ParseRunMode(runMode).None?
      ensures mode == if panicked then old(mode) else ParseRunMode(runMode).value
    {
      match ParseRunMode(runMode)
      case Some(m) =>
        mode := m;
        panicked := false;
      case None =>
        panicked := true;
    }
  }
}
