/**
 * Constants of the account service (pkg/constant/const.go).
 */
module Constant {
  /** Cache key prefix of a user snapshot: "userinfo_" + name. */
  const UserInfoPrefix: string := "userinfo_"
  /** Cache key prefix of a session: "session_" + token. */
  const SessionKeyPrefix: string := "session_"

  /** The only two accepted gender values. */
  const GenderMale: string := "male"
  const GenderFemale: string := "female"

  /** Name of the cookie that carries the session token (constant.SessionKey). */
  const SessionCookie: string := "user_session"
}

/**
 * The user record (internal/model/model.go) and the error and result
 * shapes shared by the store wrappers and the account service.
 */
module Model {

  /**
   * model.User with its embedded CreateModel and ModifyModel flattened.
   * Times are integer clock readings; 0 is Go's zero time.
   * `modifyTime` is unexported in the source, so neither the ORM nor the
   * JSON encoder ever sees it.
   */
  datatype User = User(
    creator: string,
    createTime: int,
    modifier: string,
    modifyTime: int,
    id: int,
    name: string,
    gender: string,
    age: int,
    passWord: string,
    nickName: string)

  /** The two records agree on every exported field. */
  predicate SameExported(a: User, b: User) {
    && a.creator == b.creator
    && a.createTime == b.createTime
    && a.modifier == b.modifier
    && a.id == b.id
    && a.name == b.name
    && a.gender == b.gender
    && a.age == b.age
    && a.passWord == b.passWord
    && a.nickName == b.nickName
  }

  /**
   * What a JSON round trip (or an ORM write and read) keeps of a record:
   * the exported fields, with the unexported one back at its zero value.
   */
  function Exported(u: User): (e: User)
    ensures SameExported(u, e)
    ensures e.modifyTime == 0
  {
    u.(modifyTime := 0)
  }

  /** Error kinds the wrappers and the service report. */
  datatype Error =
    | InvalidParams      // request fields rejected before any store access
    | AlreadyRegistered  // a row with that name exists
    | NotRegistered      // no row with that name
    | WrongPassword      // password check of Login (never produced, see Service.Login)
    | KeyAbsent          // the cache holds no such key (redis.Nil)
    | CacheIo            // the cache call itself failed
    | DbIo               // the user table call itself failed

  datatype Option<T> = None | Some(value: T)

  /** A value or an error, as Go's (T, error) pairs. */
  datatype Result<T> = Ok(value: T) | Err(error: Error)

  /** A bare Go `error`: nil (Done) or not. */
  datatype Status = Done | Failed(error: Error)
}
