/**
 * The account service of internal/service/user.go: register, login,
 * logout, logoff (account deletion), profile read and nickname update,
 * each an ordered sequence of calls into the user table and the cache.
 *
 * Every store call that can fail takes its own boolean saying whether it
 * fails this time. The session token that the HTTP layer hands over in the
 * request context is an explicit parameter. Logging is left out.
 */
module Service {
  import opened Model
  import opened Constant
  import Utils
  import opened Dao
  import opened Cache

  datatype RegisterRequest = RegisterRequest(
    userName: string, passWord: string, age: int, gender: string, nickName: string)
  datatype LoginRequest = LoginRequest(userName: string, passWord: string)
  datatype LogoutRequest = LogoutRequest(userName: string)
  datatype LogoffRequest = LogoffRequest(userName: string)
  datatype GetUserInfoRequest = GetUserInfoRequest(userName: string)
  datatype UpdateNickNameRequest = UpdateNickNameRequest(userName: string, newNickName: string)
  datatype GetUserInfoResponse = GetUserInfoResponse(
    userName: string, age: int, gender: string, passWord: string, nickName: string)

  /** The parameter check Register makes before touching the table. */
  predicate RegisterParamsValid(req: RegisterRequest) {
    && req.userName != ""
    && req.passWord != ""
    && req.age > 0
    && (req.gender == GenderMale || req.gender == GenderFemale)
  }

  /** The record Register builds: request fields, creator and modifier the user itself. */
  function NewUser(req: RegisterRequest): (u: User)
    ensures RecordOf(u, req)
    ensures u.id == 0 && u.createTime == 0 && u.modifyTime == 0
  {
    User(req.userName, 0, req.userName, 0, 0, req.userName, req.gender, req.age, req.passWord, req.nickName)
  }

  /** A stored row carries the registration request it came from. */
  predicate RecordOf(u: User, req: RegisterRequest) {
    && u.name == req.userName && u.gender == req.gender && u.age == req.age
    && u.passWord == req.passWord && u.nickName == req.nickName
    && u.creator == req.userName && u.modifier == req.userName
  }

  /** The response projection of GetUserInfo. */
  function Profile(u: User): GetUserInfoResponse {
    GetUserInfoResponse(u.name, u.age, u.gender, u.passWord, u.nickName)
  }

  /**
   * The profile sees only exported fields: the record read back from a
   * session carries the same profile as the row it was written from.
   */
  lemma ProfileOfExported(u: User, v: User)
    requires SameExported(u, v)
    ensures Profile(v) == Profile(u)
    ensures Profile(Exported(u)) == Profile(u)
  {
  }

  // ---------------------------------------------------------------------
  // Cache coherence: a snapshot, when present, is the current row.

  ghost predicate Coherent(kv: map<string, User>, rows: seq<User>) {
    forall name :: UserKey(name) in kv ==>
      exists u :: u in rows && u.name == name && kv[UserKey(name)] == u
  }

  lemma CoherentWithoutKeys(kv: map<string, User>, rows: seq<User>, keys: set<string>)
    requires Coherent(kv, rows)
    ensures Coherent(kv - keys, rows)
  {
    forall name | UserKey(name) in kv - keys
      ensures exists u :: u in rows && u.name == name && (kv - keys)[UserKey(name)] == u
    {
      assert UserKey(name) in kv;
    }
  }

  lemma CoherentWithSession(kv: map<string, User>, rows: seq<User>, token: string, u: User)
    requires Coherent(kv, rows)
    ensures Coherent(kv[SessionKey(token) := u], rows)
  {
    var kv' := kv[SessionKey(token) := u];
    forall name | UserKey(name) in kv'
      ensures exists v :: v in rows && v.name == name && kv'[UserKey(name)] == v
    {
      KeysNeverCollide(name, token);
      assert UserKey(name) in kv;
    }
  }

  lemma CoherentWithSnapshot(kv: map<string, User>, rows: seq<User>, u: User)
    requires Coherent(kv, rows)
    requires u in rows && u.modifyTime == 0
    ensures Coherent(kv[UserKey(u.name) := Exported(u)], rows)
  {
    var kv' := kv[UserKey(u.name) := Exported(u)];
    forall name | UserKey(name) in kv'
      ensures exists v :: v in rows && v.name == name && kv'[UserKey(name)] == v
    {
      KeysInjective(name, u.name);
      if name == u.name {
        assert kv'[UserKey(name)] == u;
      } else {
        assert UserKey(name) in kv;
      }
    }
  }

  /** A name without a row has no snapshot, so a new row may take it. */
  lemma CoherentAfterInsert(kv: map<string, User>, rows: seq<User>, x: User)
    requires Coherent(kv, rows)
    requires !HasName(rows, x.name)
    ensures UserKey(x.name) !in kv
    ensures Coherent(kv, rows + [x])
  {
    forall u | u in rows ensures u.name != x.name {
      var i :| 0 <= i < |rows| && rows[i] == u;
    }
    forall name | UserKey(name) in kv
      ensures exists u :: u in rows + [x] && u.name == name && kv[UserKey(name)] == u
    {
      var u :| u in rows && u.name == name && kv[UserKey(name)] == u;
      assert u in rows + [x];
    }
  }

  /** Two rows with one primary key are one row. */
  lemma SameIdSameRow(rows: seq<User>, u: User, v: User)
    requires IdsAscending(rows)
    requires u in rows && v in rows && u.id == v.id
    ensures u == v
  {
    var i :| 0 <= i < |rows| && rows[i] == u;
    var j :| 0 <= j < |rows| && rows[j] == v;
  }

  /** Deleting a user's row and snapshot leaves every other snapshot coherent. */
  lemma CoherentAfterDelete(kv: map<string, User>, rows: seq<User>, u: User, token: string)
    requires Coherent(kv, rows)
    requires IdsAscending(rows) && u in rows
    ensures Coherent(kv - {SessionKey(token), UserKey(u.name)}, WithoutId(rows, u.id))
  {
    var kv' := kv - {SessionKey(token), UserKey(u.name)};
    var rows' := WithoutId(rows, u.id);
    forall name | UserKey(name) in kv'
      ensures exists v :: v in rows' && v.name == name && kv'[UserKey(name)] == v
    {
      var v :| v in rows && v.name == name && kv[UserKey(name)] == v;
      KeysInjective(name, u.name);
      if v.id == u.id {
        SameIdSameRow(rows, u, v);
        assert false;
      }
      assert v in rows';
    }
  }

  /** A nickname update keeps every row of another name where it was. */
  lemma UnmatchedRowKept(rows: seq<User>, userName: string, nickName: string, v: User)
    requires v in rows && v.name != userName
    ensures v in UpdatedRows(rows, userName, NickNamePatch(nickName))
  {
    var j :| 0 <= j < |rows| && rows[j] == v;
    assert UpdatedRows(rows, userName, NickNamePatch(nickName))[j] == v;
  }

  // ---------------------------------------------------------------------
  // The cache-aside user lookup (getUserInfo), as functions of the state.

  /** The snapshot is used only when the read succeeds and its name is the one asked for. */
  predicate SnapshotHit(kv: map<string, User>, name: string, cacheFails: bool) {
    !cacheFails && UserKey(name) in kv && kv[UserKey(name)].name == name
  }

  /** What getUserInfo returns. */
  function Resolved(kv: map<string, User>, rows: seq<User>, name: string, cacheFails: bool, dbFails: bool)
    : (r: Result<User>)
    ensures r.Ok? ==> r.value.name == name
    ensures r.Err? ==> r.error == DbIo || r.error == NotRegistered
    ensures r == Err(NotRegistered) <==> !SnapshotHit(kv, name, cacheFails) && !dbFails && !HasName(rows, name)
  {
    if SnapshotHit(kv, name, cacheFails) then Ok(kv[UserKey(name)])
    else if dbFails then Err(DbIo)
    else match FindByName(rows, name)
      case None => Err(NotRegistered)
      case Some(i) => Ok(rows[i])
  }

  /** The cache after getUserInfo: a snapshot written only after a table hit whose write succeeds. */
  function AfterResolve(kv: map<string, User>, rows: seq<User>, name: string,
                        cacheFails: bool, dbFails: bool, writeFails: bool): (r: map<string, User>)
    ensures forall k :: k != UserKey(name) ==> (k in r <==> k in kv) && (k in r ==> r[k] == kv[k])
  {
    if !SnapshotHit(kv, name, cacheFails) && !dbFails && HasName(rows, name) && !writeFails
    then kv[UserKey(name) := Exported(rows[FindByName(rows, name).value])]
    else kv
  }

  /**
   * The cache is an optimisation only: while it is coherent with the
   * table, the lookup returns the same record whether or not the snapshot
   * read succeeds.
   */
  lemma CacheIsTransparent(kv: map<string, User>, rows: seq<User>, name: string, cacheFails: bool)
    requires Coherent(kv, rows) && UniqueNames(rows)
    ensures Resolved(kv, rows, name, cacheFails, false) == Resolved(kv, rows, name, true, false)
  {
    if SnapshotHit(kv, name, cacheFails) {
      var u :| u in rows && u.name == name && kv[UserKey(name)] == u;
      var i :| 0 <= i < |rows| && rows[i] == u;
      FindUnique(rows, name, i);
    }
  }

  /** The session rewrite after a nickname update: write it, or drop it when the write fails. */
  function RefreshedSession(kv: map<string, User>, user: User, session: string, setFails: bool, delFails: bool)
    : (r: map<string, User>)
    ensures session != "" && !setFails ==> SessionKey(session) in r && r[SessionKey(session)] == Exported(user)
    ensures session != "" && setFails && !delFails ==> SessionKey(session) !in r
    ensures session == "" || (setFails && delFails) ==> r == kv
    ensures forall k :: k != SessionKey(session) ==> (k in r <==> k in kv) && (k in r ==> r[k] == kv[k])
  {
    if session == "" then kv
    else if !setFails then kv[SessionKey(session) := Exported(user)]
    else if !delFails then kv - {SessionKey(session)}
    else kv
  }

  // ---------------------------------------------------------------------

  class AccountService {
    const db: UserTable
    const cache: KvStore
    /** The MD5 digest, used opaquely. */
    const md5: string -> Utils.Digest

    ghost predicate Valid()
      reads db, cache
    {
      db.Valid() && cache.Valid() && UniqueNames(db.rows)
    }

    constructor (db: UserTable, cache: KvStore, md5: string -> Utils.Digest)
      requires db.Valid() && cache.Valid() && UniqueNames(db.rows)
      ensures this.db == db && this.cache == cache && this.md5 == md5
      ensures Valid()
    {
      this.db := db;
      this.cache := cache;
      this.md5 := md5;
    }

    /**
     * Register: validate, look the name up, insert. Any early exit leaves
     * the table as it was; so names stay unique.
     */
    method Register(req: RegisterRequest, now: int, lookupFails: bool, insertFails: bool) returns (r: Status)
      requires Valid()
      modifies db
      ensures Valid()
      ensures !RegisterParamsValid(req) ==> r == Failed(InvalidParams)
      ensures RegisterParamsValid(req) && lookupFails ==> r == Failed(DbIo)
      ensures RegisterParamsValid(req) && !lookupFails && HasName(old(db.rows), req.userName)
              ==> r == Failed(AlreadyRegistered)
      ensures RegisterParamsValid(req) && !lookupFails && !HasName(old(db.rows), req.userName) && insertFails
              ==> r == Failed(DbIo)
      ensures r == Done <==>
              RegisterParamsValid(req) && !lookupFails && !HasName(old(db.rows), req.userName) && !insertFails
      ensures r == Done ==> db.rows == old(db.rows) + [Inserted(NewUser(req), old(db.nextId), now)]
                            && db.nextId == old(db.nextId) + 1
      ensures r == Done ==> FindByName(db.rows, req.userName) == Some(|old(db.rows)|)
                            && RecordOf(db.rows[|old(db.rows)|], req)
      ensures r != Done ==> db.rows == old(db.rows) && db.nextId == old(db.nextId)
      ensures old(Coherent(cache.kv, db.rows)) ==> Coherent(cache.kv, db.rows)
    {
      var genderOk := Utils.Contains([GenderMale, GenderFemale], req.gender);
      if req.userName == "" || req.passWord == "" || req.age <= 0 || !genderOk {
        return Failed(InvalidParams);
      }
      var existed := db.GetUserByName(req.userName, lookupFails);
      match existed
      case DbError =>
        return Failed(DbIo);
      case Row(_) =>
        return Failed(AlreadyRegistered);
      case NoRow =>
        ghost var before := db.rows;
        r := db.CreateUser(NewUser(req), now, insertFails);
        if r == Done {
          var x := Inserted(NewUser(req), old(db.nextId), now);
          FindUnique(db.rows, req.userName, |before|);
          if Coherent(cache.kv, before) {
            CoherentAfterInsert(cache.kv, before, x);
          }
        }
    }

    /**
     * getUserInfo: the snapshot when it is readable and carries the name,
     * otherwise the table row; a failed snapshot write is only logged.
     */
    method ResolveUser(userName: string, cacheReadFails: bool, dbReadFails: bool, snapshotWriteFails: bool)
      returns (r: Result<User>)
      requires Valid()
      modifies cache
      ensures Valid()
      ensures r == Resolved(old(cache.kv), db.rows, userName, cacheReadFails, dbReadFails)
      ensures cache.kv == AfterResolve(old(cache.kv), db.rows, userName, cacheReadFails, dbReadFails, snapshotWriteFails)
      ensures old(Coherent(cache.kv, db.rows)) ==> Coherent(cache.kv, db.rows)
    {
      var cached := cache.GetUserInfoFromCache(userName, cacheReadFails);
      if cached.Ok? && cached.value.name == userName {
        return cached;
      }
      var found := db.GetUserByName(userName, dbReadFails);
      match found
      case DbError =>
        r := Err(DbIo);
      case NoRow =>
        r := Err(NotRegistered);
      case Row(u) =>
        ghost var kv0 := cache.kv;
        var _ := cache.SetUserCacheInfo(u, snapshotWriteFails);
        r := Ok(u);
        if Coherent(kv0, db.rows) && !snapshotWriteFails {
          CoherentWithSnapshot(kv0, db.rows, u);
        }
    }

    /**
     * Login: resolve the user, mint the deterministic token and store the
     * session. The password check compares the request with itself and
     * never rejects.
     */
    method Login(req: LoginRequest, cacheReadFails: bool, dbReadFails: bool,
                 snapshotWriteFails: bool, sessionWriteFails: bool)
      returns (token: string, r: Status)
      requires Valid()
      modifies cache
      ensures Valid()
      ensures var found := Resolved(old(cache.kv), db.rows, req.userName, cacheReadFails, dbReadFails);
              var kv1 := AfterResolve(old(cache.kv), db.rows, req.userName, cacheReadFails, dbReadFails, snapshotWriteFails);
              && (r == Done <==> found.Ok? && !sessionWriteFails)
              && (found.Err? ==> r == Failed(found.error) && token == "" && cache.kv == kv1)
              && (found.Ok? && sessionWriteFails ==> r == Failed(CacheIo) && token == "" && cache.kv == kv1)
              && (r == Done ==> token == Utils.GenerateSession(md5, req.userName)
                                && cache.kv == kv1[SessionKey(token) := Exported(found.value)])
      ensures old(Coherent(cache.kv, db.rows)) ==> Coherent(cache.kv, db.rows)
    {
      var user := ResolveUser(req.userName, cacheReadFails, dbReadFails, snapshotWriteFails);
      if user.Err? {
        return "", Failed(user.error);
      }
      if req.passWord != req.passWord {
        return "", Failed(WrongPassword);
      }
      var session := Utils.GenerateSession(md5, user.value.name);
      ghost var kv1 := cache.kv;
      var s := cache.SetSessionInfo(user.value, session, sessionWriteFails);
      if s.Failed? {
        return "", Failed(CacheIo);
      }
      if Coherent(kv1, db.rows) {
        CoherentWithSession(kv1, db.rows, session, Exported(user.value));
      }
      return session, Done;
    }

    /** Logout: the session must resolve; then only its key is deleted. */
    method Logout(req: LogoutRequest, session: string, getFails: bool, delFails: bool) returns (r: Status)
      requires Valid()
      modifies cache
      ensures Valid()
      ensures getFails ==> r == Failed(CacheIo)
      ensures !getFails && SessionKey(session) !in old(cache.kv) ==> r == Failed(KeyAbsent)
      ensures !getFails && SessionKey(session) in old(cache.kv) && delFails ==> r == Failed(CacheIo)
      ensures r == Done <==> !getFails && SessionKey(session) in old(cache.kv) && !delFails
      ensures cache.kv == if r == Done then old(cache.kv) - {SessionKey(session)} else old(cache.kv)
      ensures old(Coherent(cache.kv, db.rows)) ==> Coherent(cache.kv, db.rows)
    {
      var found := cache.GetSessionInfo(session, getFails);
      if found.Err? {
        return Failed(found.error);
      }
      ghost var kv0 := cache.kv;
      r := cache.DelSessionInfo(session, delFails);
      if Coherent(kv0, db.rows) {
        CoherentWithoutKeys(kv0, db.rows, {SessionKey(session)});
      }
    }

    /**
     * Logoff: the user must exist; then the cookie's session, the user's
     * snapshot and the row are deleted in that order, stopping at the first
     * failure without undoing earlier steps. Nothing ties the session to
     * the user.
     */
    method Logoff(req: LogoffRequest, session: string, lookupFails: bool,
                  sessionDelFails: bool, snapshotDelFails: bool, rowDelFails: bool)
      returns (r: Status)
      requires Valid()
      modifies db, cache
      ensures Valid() && db.nextId == old(db.nextId)
      ensures lookupFails ==> r == Failed(DbIo)
      ensures !lookupFails && !HasName(old(db.rows), req.userName) ==> r == Failed(NotRegistered)
      ensures !lookupFails && HasName(old(db.rows), req.userName) ==>
              && (sessionDelFails ==> r == Failed(CacheIo) && cache.kv == old(cache.kv))
              && (!sessionDelFails && snapshotDelFails ==>
                    r == Failed(CacheIo) && cache.kv == old(cache.kv) - {SessionKey(session)})
              && (!sessionDelFails && !snapshotDelFails ==>
                    cache.kv == old(cache.kv) - {SessionKey(session), UserKey(req.userName)})
              && (!sessionDelFails && !snapshotDelFails && rowDelFails ==> r == Failed(DbIo))
      ensures lookupFails || !HasName(old(db.rows), req.userName) ==> cache.kv == old(cache.kv)
      ensures r == Done <==>
              !lookupFails && HasName(old(db.rows), req.userName) && !sessionDelFails && !snapshotDelFails && !rowDelFails
      ensures r == Done ==> db.rows == WithoutId(old(db.rows), old(db.rows)[FindByName(old(db.rows), req.userName).value].id)
      ensures r == Done ==> !HasName(db.rows, req.userName)
                            && SessionKey(session) !in cache.kv && UserKey(req.userName) !in cache.kv
      ensures r != Done ==> db.rows == old(db.rows)
      ensures old(Coherent(cache.kv, db.rows)) ==> Coherent(cache.kv, db.rows)
    {
      var existed := db.GetUserByName(req.userName, lookupFails);
      if existed.DbError? {
        return Failed(DbIo);
      }
      if existed.NoRow? {
        return Failed(NotRegistered);
      }
      var user := existed.user;
      ghost var kv0, rows0 := cache.kv, db.rows;
      r := cache.DelSessionInfo(session, sessionDelFails);
      if r.Failed? {
        return;
      }
      r := cache.DelUserCacheInfo(user, snapshotDelFails);
      if r.Failed? {
        if Coherent(kv0, rows0) {
          CoherentWithoutKeys(kv0, rows0, {SessionKey(session)});
        }
        return;
      }
      assert cache.kv == kv0 - {SessionKey(session), UserKey(req.userName)};
      if Coherent(kv0, rows0) {
        CoherentWithoutKeys(kv0, rows0, {SessionKey(session), UserKey(req.userName)});
      }
      r := db.DeleteUser(user, rowDelFails);
      if r == Done {
        WithoutIdKeepsNames(rows0, user.id);
        RowGone(rows0, FindByName(rows0, req.userName).value);
        if Coherent(kv0, rows0) {
          CoherentAfterDelete(kv0, rows0, user, session);
        }
      }
    }

    /**
     * GetUserInfo: token and name must be non-empty and the session must
     * resolve; the profile is the session's record, even when its name is
     * not the one asked for.
     */
    method GetUserInfo(req: GetUserInfoRequest, session: string, getFails: bool)
      returns (r: Result<GetUserInfoResponse>)
      requires Valid()
      ensures session == "" || req.userName == "" ==> r == Err(InvalidParams)
      ensures session != "" && req.userName != "" ==>
              && (getFails ==> r == Err(CacheIo))
              && (!getFails && SessionKey(session) !in cache.kv ==> r == Err(KeyAbsent))
              && (!getFails && SessionKey(session) in cache.kv ==> r == Ok(Profile(cache.kv[SessionKey(session)])))
    {
      if session == "" || req.userName == "" {
        return Err(InvalidParams);
      }
      var user := cache.GetSessionInfo(session, getFails);
      if user.Err? {
        return Err(user.error);
      }
      r := Ok(Profile(user.value));
    }

    /**
     * UpdateUserNickName: once the session resolves the call succeeds; the
     * nickname written is that of req.userName, whoever owns the session.
     */
    method UpdateUserNickName(req: UpdateNickNameRequest, session: string, getFails: bool, updateFails: bool,
                              rereadFails: bool, snapshotSetFails: bool, snapshotDelFails: bool,
                              sessionSetFails: bool, sessionDelFails: bool)
      returns (r: Status)
      requires Valid()
      modifies db, cache
      ensures Valid() && db.nextId == old(db.nextId)
      ensures session == "" || req.userName == "" ==> r == Failed(InvalidParams)
      ensures session != "" && req.userName != "" && getFails ==> r == Failed(CacheIo)
      ensures session != "" && req.userName != "" && !getFails && SessionKey(session) !in old(cache.kv)
              ==> r == Failed(KeyAbsent)
      ensures r == Done <==> session != "" && req.userName != "" && !getFails && SessionKey(session) in old(cache.kv)
      ensures r.Failed? || updateFails ==> db.rows == old(db.rows) && cache.kv == old(cache.kv)
      ensures r == Done && !updateFails ==> db.rows == UpdatedRows(old(db.rows), req.userName, NickNamePatch(req.newNickName))
      ensures var n := ChangedCount(old(db.rows), req.userName, NickNamePatch(req.newNickName));
              var refreshed := r == Done && !updateFails && n == 1;
              && n <= 1
              && (refreshed && !rereadFails ==>
                    HasName(db.rows, req.userName)
                    && var u := db.rows[FindByName(db.rows, req.userName).value];
                    && u.nickName == req.newNickName
                    && cache.kv == RefreshedSession(RefreshedSnapshot(old(cache.kv), u, snapshotSetFails, snapshotDelFails),
                                                    u, session, sessionSetFails, sessionDelFails))
              && (refreshed && !rereadFails && !sessionSetFails ==>
                    cache.kv[SessionKey(session)].name == req.userName
                    && cache.kv[SessionKey(session)].nickName == req.newNickName)
              && (r == Done && !refreshed ==> cache.kv == old(cache.kv))
              && (r == Done && rereadFails ==> cache.kv == old(cache.kv))
              && (n == 0 ==> db.rows == old(db.rows))
              && (old(Coherent(cache.kv, db.rows)) && !(refreshed && (rereadFails || (snapshotSetFails && snapshotDelFails)))
                  ==> Coherent(cache.kv, db.rows))
    {
      AtMostOneChanged(db.rows, req.userName, NickNamePatch(req.newNickName));
      if ChangedCount(db.rows, req.userName, NickNamePatch(req.newNickName)) == 0 {
        NoChangeNoUpdate(db.rows, req.userName, NickNamePatch(req.newNickName));
      }
      if session == "" || req.userName == "" {
        return Failed(InvalidParams);
      }
      var user := cache.GetSessionInfo(session, getFails);
      if user.Err? {
        return Failed(user.error);
      }
      r := ApplyUserUpdate(req.newNickName, req.userName, session, updateFails, rereadFails,
                           snapshotSetFails, snapshotDelFails, sessionSetFails, sessionDelFails);
    }

    /**
     * updateUserInfo, for the nickname-only record its caller builds: write
     * the table; only when exactly one row changed, re-read it, refresh the
     * snapshot and rewrite the session (dropping the session when that
     * write fails). A failing table write counts no row. Always reports
     * success.
     */
    method ApplyUserUpdate(nickName: string, userName: string, session: string, updateFails: bool,
                           rereadFails: bool, snapshotSetFails: bool, snapshotDelFails: bool,
                           sessionSetFails: bool, sessionDelFails: bool)
      returns (r: Status)
      requires Valid()
      modifies db, cache
      ensures Valid() && db.nextId == old(db.nextId)
      ensures r == Done
      ensures updateFails ==> db.rows == old(db.rows) && cache.kv == old(cache.kv)
      ensures !updateFails ==> db.rows == UpdatedRows(old(db.rows), userName, NickNamePatch(nickName))
      ensures var n := if updateFails then 0 else ChangedCount(old(db.rows), userName, NickNamePatch(nickName));
              && (n == 1 && !rereadFails ==>
                    HasName(db.rows, userName)
                    && var u := db.rows[FindByName(db.rows, userName).value];
                    && u.nickName == nickName && u.name == userName
                    && cache.kv == RefreshedSession(RefreshedSnapshot(old(cache.kv), u, snapshotSetFails, snapshotDelFails),
                                                    u, session, sessionSetFails, sessionDelFails))
              && (n != 1 || rereadFails ==> cache.kv == old(cache.kv))
              && (old(Coherent(cache.kv, db.rows)) && !(n == 1 && (rereadFails || (snapshotSetFails && snapshotDelFails)))
                  ==> Coherent(cache.kv, db.rows))
    {
      var patch := NickNamePatch(nickName);
      ghost var rows0, kv0 := db.rows, cache.kv;
      NickNameUpdateKeepsNames(rows0, userName, nickName);
      var affectedRows := db.UpdateUserInfo(userName, patch, updateFails);
      r := Done;
      if affectedRows != 1 {
        if Coherent(kv0, rows0) && !updateFails {
          AtMostOneChanged(rows0, userName, patch);
          NoChangeNoUpdate(rows0, userName, patch);
        }
        return;
      }
      ChangedRowCarriesPatch(rows0, userName, nickName);
      var found := db.GetUserByName(userName, rereadFails);
      match found
      case DbError =>
      case NoRow =>
        assert false;
      case Row(u) =>
        var _ := cache.UpdateCachedUserInfo(u, snapshotSetFails, snapshotDelFails);
        ghost var kv1 := cache.kv;
        if session != "" {
          var s := cache.SetSessionInfo(u, session, sessionSetFails);
          if s.Failed? {
            var _ := cache.DelSessionInfo(session, sessionDelFails);
          }
        }
        if Coherent(kv0, rows0) && !(snapshotSetFails && snapshotDelFails) {
          SnapshotRefreshCoherent(kv0, rows0, userName, nickName, u, snapshotSetFails, snapshotDelFails);
          if session != "" {
            if !sessionSetFails {
              CoherentWithSession(kv1, db.rows, session, Exported(u));
            } else {
              CoherentWithoutKeys(kv1, db.rows, {SessionKey(session)});
            }
          }
        }
    }
  }

  /** Deleting the row found under a name removes the name and keeps the rest unique. */
  lemma RowGone(rows: seq<User>, k: nat)
    requires UniqueNames(rows) && IdsAscending(rows) && k < |rows|
    ensures !HasName(WithoutId(rows, rows[k].id), rows[k].name)
  {
    var r := WithoutId(rows, rows[k].id);
    forall j | 0 <= j < |r| ensures r[j].name != rows[k].name {
      var i :| 0 <= i < |rows| && rows[i] == r[j];
      assert i != k;
    }
  }

  /** After a one-row nickname change, refreshing (or dropping) the snapshot restores coherence. */
  lemma SnapshotRefreshCoherent(kv: map<string, User>, rows: seq<User>, userName: string, nickName: string,
                                u: User, setFails: bool, delFails: bool)
    requires Coherent(kv, rows) && UniqueNames(rows)
    requires !(setFails && delFails)
    requires var r := UpdatedRows(rows, userName, NickNamePatch(nickName));
             u in r && u.name == userName && u.modifyTime == 0
    ensures Coherent(RefreshedSnapshot(kv, u, setFails, delFails), UpdatedRows(rows, userName, NickNamePatch(nickName)))
  {
    var r := UpdatedRows(rows, userName, NickNamePatch(nickName));
    var kv' := RefreshedSnapshot(kv, u, setFails, delFails);
    forall name | UserKey(name) in kv'
      ensures exists v :: v in r && v.name == name && kv'[UserKey(name)] == v
    {
      KeysInjective(name, userName);
      if name == userName {
        assert kv'[UserKey(name)] == u;
      } else {
        var v :| v in rows && v.name == name && kv[UserKey(name)] == v;
        UnmatchedRowKept(rows, userName, nickName, v);
      }
    }
  }
}
