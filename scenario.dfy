/**
 * A complete account lifecycle against empty stores with no store faults:
 * register alice, log in, read the profile through the session, change the
 * nickname, log out, and watch the session stop resolving.
 */
module Scenario {
  import opened Model
  import opened Dao
  import opened Cache
  import opened Service
  import Utils

  datatype Trace = Trace(
    registered: Status,
    registeredAgain: Status,
    token: string,
    loggedIn: Status,
    profile: Result<GetUserInfoResponse>,
    renamed: Status,
    renamedProfile: Result<GetUserInfoResponse>,
    loggedOut: Status,
    afterLogout: Result<GetUserInfoResponse>,
    loggedOutAgain: Status)

  method AliceLifecycle(md5: string -> Utils.Digest, now: int) returns (t: Trace)
    ensures t.registered == Done
    ensures t.registeredAgain == Failed(AlreadyRegistered)
    ensures t.loggedIn == Done && t.token == Utils.GenerateSession(md5, "alice")
    ensures t.profile == Ok(GetUserInfoResponse("alice", 30, "female", "x", "al"))
    ensures t.renamed == Done
    ensures t.renamedProfile == Ok(GetUserInfoResponse("alice", 30, "female", "x", "ally"))
    ensures t.loggedOut == Done
    ensures t.afterLogout == Err(KeyAbsent)
    ensures t.loggedOutAgain == Failed(KeyAbsent)
  {
    var db := new UserTable();
    var cache := new KvStore();
    var svc := new AccountService(db, cache, md5);
    var req := RegisterRequest("alice", "x", 30, "female", "al");
    var registered := svc.Register(req, now, false, false);
    var registeredAgain := svc.Register(req, now, false, false);

    var token, loggedIn := svc.Login(LoginRequest("alice", "x"), false, false, false, false);
    var profile := svc.GetUserInfo(GetUserInfoRequest("alice"), token, false);

    ghost var rows1 := db.rows;
    assert ChangedCount(rows1, "alice", NickNamePatch("ally")) == 1;
    var renamed := svc.UpdateUserNickName(UpdateNickNameRequest("alice", "ally"), token,
                                          false, false, false, false, false, false, false);
    var renamedProfile := svc.GetUserInfo(GetUserInfoRequest("alice"), token, false);

    var loggedOut := svc.Logout(LogoutRequest("alice"), token, false, false);
    var afterLogout := svc.GetUserInfo(GetUserInfoRequest("alice"), token, false);
    var loggedOutAgain := svc.Logout(LogoutRequest("alice"), token, false, false);

    t := Trace(registered, registeredAgain, token, loggedIn, profile, renamed, renamedProfile,
               loggedOut, afterLogout, loggedOutAgain);
  }

  /**
   * Deregistration: after logoff the name is free again, the session no
   * longer resolves, and a new registration under the name succeeds.
   */
  method BobLogoff(md5: string -> Utils.Digest, now: int)
    returns (loggedIn: Status, loggedOff: Status, lookup: Lookup, afterLogoff: Result<GetUserInfoResponse>,
             again: Status, reregistered: Status)
    ensures loggedIn == Done && loggedOff == Done
    ensures lookup == NoRow
    ensures afterLogoff == Err(KeyAbsent)
    ensures again == Failed(NotRegistered)
    ensures reregistered == Done
  {
    var db := new UserTable();
    var cache := new KvStore();
    var svc := new AccountService(db, cache, md5);
    var req := RegisterRequest("bob", "pw", 41, "male", "");
    var registered := svc.Register(req, now, false, false);
    var token;
    token, loggedIn := svc.Login(LoginRequest("bob", "pw"), false, false, false, false);
    loggedOff := svc.Logoff(LogoffRequest("bob"), token, false, false, false, false);
    lookup := db.GetUserByName("bob", false);
    afterLogoff := svc.GetUserInfo(GetUserInfoRequest("bob"), token, false);
    again := svc.Logoff(LogoffRequest("bob"), token, false, false, false, false);
    reregistered := svc.Register(req, now, false, false);
  }
}
