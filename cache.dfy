/**
 * The key-value cache layer of internal/cache/cache.go (Redis), modelled
 * as a map from keys to decoded user records. Values travel as JSON, so
 * what the store keeps of a record is its exported part (Model.Exported).
 * TTL expiry is not modelled; the TTL arithmetic is, as functions.
 */
module Cache {
  import opened Model
  import opened Constant

  /** Key of the snapshot of user `name`. */
  function UserKey(name: string): (k: string)
    ensures |k| == |name| + 9 && k[0] == 'u'
  {
    UserInfoPrefix + name
  }

  /** Key of session `token`. */
  function SessionKey(token: string): (k: string)
    ensures |k| == |token| + 8 && k[0] == 's'
  {
    SessionKeyPrefix + token
  }

  /** The two namespaces never meet: their prefixes differ in the first character. */
  lemma KeysNeverCollide(name: string, token: string)
    ensures UserKey(name) != SessionKey(token)
  {
    assert UserKey(name)[0] != SessionKey(token)[0];
  }

  /** Each namespace maps names (tokens) to keys one-to-one. */
  lemma KeysInjective(a: string, b: string)
    ensures UserKey(a) == UserKey(b) <==> a == b
    ensures SessionKey(a) == SessionKey(b) <==> a == b
  {
    if UserKey(a) == UserKey(b) {
      assert a == UserKey(a)[9..] && b == UserKey(b)[9..];
    }
    if SessionKey(a) == SessionKey(b) {
      assert a == SessionKey(a)[8..] && b == SessionKey(b)[8..];
    }
  }

  /** Every snapshot key holds a record of the very name in its key. */
  ghost predicate SnapshotsKeyed(kv: map<string, User>) {
    forall name :: UserKey(name) in kv ==> kv[UserKey(name)].name == name
  }

  /** UpdateCachedUserInfo's effect: write the snapshot, else try to drop it. */
  function RefreshedSnapshot(kv: map<string, User>, user: User, setFails: bool, delFails: bool)
    : (r: map<string, User>)
    ensures !setFails ==> UserKey(user.name) in r && r[UserKey(user.name)] == Exported(user)
    ensures setFails && !delFails ==> UserKey(user.name) !in r
    ensures setFails && delFails ==> r == kv
    ensures forall k :: k != UserKey(user.name) ==> (k in r <==> k in kv) && (k in r ==> r[k] == kv[k])
  {
    if !setFails then kv[UserKey(user.name) := Exported(user)]
    else if !delFails then kv - {UserKey(user.name)}
    else kv
  }

  // ---------------------------------------------------------------------
  // TTL arithmetic. Durations are Go time.Duration values: signed 64-bit
  // nanosecond counts whose multiplication wraps around.

  const TwoTo63: int := 0x8000_0000_0000_0000

  /** Two's-complement wrap-around of a 64-bit signed result. */
  function WrapInt64(x: int): (w: int)
    ensures -TwoTo63 <= w < TwoTo63
    ensures (w - x) % (2 * TwoTo63) == 0
    ensures -TwoTo63 <= x < TwoTo63 ==> w == x
  {
    (x + TwoTo63) % (2 * TwoTo63) - TwoTo63
  }

  /** Scaling by one second carries a congruence modulo 2^64 through a wrapped product. */
  lemma ScaledCongruence(a: int, x: int, d: int)
    requires (a - x) % (2 * TwoTo63) == 0
    requires (d - a * 1_000_000_000) % (2 * TwoTo63) == 0
    ensures (d - x * 1_000_000_000) % (2 * TwoTo63) == 0
  {
    var m := 2 * TwoTo63;
    var p := (a - x) / m;
    var q := (d - a * 1_000_000_000) / m;
    assert a - x == p * m;
    assert d - a * 1_000_000_000 == q * m;
    assert d - x * 1_000_000_000 == (p * 1_000_000_000 + q) * m;
  }

  /**
   * The expiry SetUserCacheInfo and SetSessionInfo hand to Redis for a
   * configured value n: `expired := time.Second * n`, then
   * `expired * time.Second`.
   */
  function ExpiryAsWritten(n: int): (d: int)
    requires -TwoTo63 <= n < TwoTo63
    ensures -TwoTo63 <= d < TwoTo63
    ensures (d - n * 1_000_000_000 * 1_000_000_000) % (2 * TwoTo63) == 0
  {
    var a := WrapInt64(1_000_000_000 * n);
    var d := WrapInt64(a * 1_000_000_000);
    ScaledCongruence(a, 1_000_000_000 * n, d);
    d
  }

  /** For n up to 9 nothing wraps, and the expiry is n * 10^9 seconds instead of n seconds. */
  lemma ExpiryAsWrittenIsBillionfold(n: int)
    requires 0 <= n <= 9
    ensures ExpiryAsWritten(n) == n * 1_000_000_000 * 1_000_000_000
  {
    assert 1_000_000_000 * n < TwoTo63;
    assert 1_000_000_000 * n * 1_000_000_000 < TwoTo63;
  }

  /** From n = 10 on the product leaves the int64 range: for 10 it wraps negative. */
  lemma ExpiryAsWrittenWrapsAtTen()
    ensures ExpiryAsWritten(10) == 10_000_000_000_000_000_000 - 2 * TwoTo63
    ensures ExpiryAsWritten(10) < 0
  {
    assert WrapInt64(10_000_000_000) == 10_000_000_000;
  }

  /** The expiry evidently meant: n seconds. */
  function IntendedExpiry(n: int): (d: int)
    requires -TwoTo63 <= n < TwoTo63
    ensures -TwoTo63 <= d < TwoTo63
    ensures (d - n * 1_000_000_000) % (2 * TwoTo63) == 0
  {
    WrapInt64(1_000_000_000 * n)
  }

  /** For every configured n that fits, the intended expiry is exactly n seconds, positive for n > 0. */
  lemma IntendedExpiryIsSeconds(n: int)
    requires 0 <= n <= 9_223_372_036
    ensures IntendedExpiry(n) == n * 1_000_000_000
    ensures n > 0 ==> IntendedExpiry(n) > 0
  {
    assert 1_000_000_000 * n < TwoTo63;
  }

  // ---------------------------------------------------------------------

  /** The Redis store, as far as this service uses it. */
  class KvStore {
    var kv: map<string, User>

    ghost predicate Valid()
      reads this
    {
      SnapshotsKeyed(kv)
    }

    constructor ()
      ensures Valid() && kv == map[]
    {
      kv := map[];
    }

    /** GET: redis.Nil when the key is absent, any other failure an I/O error. */
    method Get(key: string, fails: bool) returns (r: Result<User>)
      ensures fails ==> r == Err(CacheIo)
      ensures !fails && key !in kv ==> r == Err(KeyAbsent)
      ensures !fails && key in kv ==> r == Ok(kv[key])
    {
      if fails {
        return Err(CacheIo);
      }
      if key !in kv {
        return Err(KeyAbsent);
      }
      r := Ok(kv[key]);
    }

    /** DEL: removing an absent key is no error. */
    method Del(key: string, fails: bool) returns (s: Status)
      modifies this
      ensures s == if fails then Failed(CacheIo) else Done
      ensures kv == if fails then old(kv) else old(kv) - {key}
    {
      if fails {
        return Failed(CacheIo);
      }
      kv := kv - {key};
      s := Done;
    }

    /** GetUserInfoFromCache: the snapshot of `username`, which always carries that name. */
    method GetUserInfoFromCache(username: string, fails: bool) returns (r: Result<User>)
      requires Valid()
      ensures fails ==> r == Err(CacheIo)
      ensures !fails && UserKey(username) !in kv ==> r == Err(KeyAbsent)
      ensures !fails && UserKey(username) in kv ==> r == Ok(kv[UserKey(username)])
      ensures r.Ok? ==> r.value.name == username
    {
      r := Get(UserKey(username), fails);
    }

    /** SetUserCacheInfo: stores the record's exported fields under its name's key. */
    method SetUserCacheInfo(user: User, fails: bool) returns (s: Status)
      requires Valid()
      modifies this
      ensures Valid()
      ensures s == if fails then Failed(CacheIo) else Done
      ensures kv == if fails then old(kv) else old(kv)[UserKey(user.name) := Exported(user)]
    {
      if fails {
        return Failed(CacheIo);
      }
      kv := kv[UserKey(user.name) := Exported(user)];
      s := Done;
      forall name | UserKey(name) in kv ensures kv[UserKey(name)].name == name {
        KeysInjective(name, user.name);
      }
    }

    /** SetSessionInfo: stores the record's exported fields under the session's key. */
    method SetSessionInfo(user: User, session: string, fails: bool) returns (s: Status)
      requires Valid()
      modifies this
      ensures Valid()
      ensures s == if fails then Failed(CacheIo) else Done
      ensures kv == if fails then old(kv) else old(kv)[SessionKey(session) := Exported(user)]
    {
      if fails {
        return Failed(CacheIo);
      }
      kv := kv[SessionKey(session) := Exported(user)];
      s := Done;
      forall name | UserKey(name) in kv ensures kv[UserKey(name)].name == name {
        KeysNeverCollide(name, session);
      }
    }

    /** GetSessionInfo: the record stored for the session. */
    method GetSessionInfo(session: string, fails: bool) returns (r: Result<User>)
      ensures fails ==> r == Err(CacheIo)
      ensures !fails && SessionKey(session) !in kv ==> r == Err(KeyAbsent)
      ensures !fails && SessionKey(session) in kv ==> r == Ok(kv[SessionKey(session)])
    {
      r := Get(SessionKey(session), fails);
    }

    /** DelSessionInfo: drops the session key and nothing else. */
    method DelSessionInfo(session: string, fails: bool) returns (s: Status)
      requires Valid()
      modifies this
      ensures Valid()
      ensures s == if fails then Failed(CacheIo) else Done
      ensures kv == if fails then old(kv) else old(kv) - {SessionKey(session)}
    {
      s := Del(SessionKey(session), fails);
    }

    /** DelUserCacheInfo: drops the user's snapshot key and nothing else. */
    method DelUserCacheInfo(user: User, fails: bool) returns (s: Status)
      requires Valid()
      modifies this
      ensures Valid()
      ensures s == if fails then Failed(CacheIo) else Done
      ensures kv == if fails then old(kv) else old(kv) - {UserKey(user.name)}
    {
      s := Del(UserKey(user.name), fails);
    }

    /**
     * UpdateCachedUserInfo: overwrite the snapshot; when that fails, delete
     * it (ignoring the delete's own outcome) and report the write error.
     */
    method UpdateCachedUserInfo(user: User, setFails: bool, delFails: bool) returns (s: Status)
      requires Valid()
      modifies this
      ensures Valid()
      ensures s == if setFails then Failed(CacheIo) else Done
      ensures kv == RefreshedSnapshot(old(kv), user, setFails, delFails)
    {
      s := SetUserCacheInfo(user, setFails);
      if s.Failed? {
        var _ := Del(UserKey(user.name), delFails);
      }
    }
  }
}
