# Gous account and session core, modelled in Dafny

Gous is a user-account service. It offers registration, login, logout,
logoff (account deletion), a profile read and a nickname update over HTTP.
User records live in a MySQL table. A Redis cache holds two kinds of entry:
user snapshots under `userinfo_<name>` and sessions under `session_<token>`.
Both hold a JSON copy of the user record.

This project models that core:

- `Model` and `Constant` (`model.dfy`): the user record, the error shapes and the constants.
- `Utils` (`utils.dfy`): the gender membership check and the session-token derivation. Token derivation is an MD5 digest of `"<name>:session"`, hex-encoded.
- `Dao` (`dao.dfy`): the user table, as a class over its rows in primary-key order.
- `Cache` (`cache.dfy`): the Redis wrappers, as a class over a key-to-record map, plus the TTL arithmetic.
- `Service` (`service.dfy`): the account service, as a class holding the table, the cache and the digest function.
- `Router` (`router.dfy`): the authentication gate, the route table and run-mode selection.
- `Scenario` (`scenario.dfy`): two whole account lifecycles against fresh stores.

Every store call that can fail takes a boolean saying whether it fails on
this call, so each error path can be stated. The result of each path is
stated exactly. The service keeps these invariants:

- Names in the table stay unique (`Dao.UniqueNames`), although the insert itself checks nothing.
- Ids stay ascending, so GORM's `First` is the first match in the sequence.
- Every snapshot key holds a record of the name in its key (`Cache.SnapshotsKeyed`).

Beside them the project proves cache coherence (`Service.Coherent`): every
snapshot equals the current row of its name. Every operation preserves it
except `UpdateUserNickName` in two cases. The first is when the table write
changed a row but the re-read failed. The second is when both the snapshot
write and its compensating delete failed. The contract names exactly these
two stale cases.

Behaviour of the code that the model keeps as written:

- `Login` compares the request's password with itself (internal/service/user.go:71), so the password check never rejects. `Model.Error.WrongPassword` is therefore never produced.
- The session token depends on the user name alone: `Utils.GenerateSession` is a function of the name, so two logins of one user get the same token. Distinct names get distinct seeds, so only an MD5 collision gives two users one token (`Utils.SessionCollision`).
- `AuthMiddleWare` checks only that a non-empty `user_session` cookie is present.
- `GetUserInfo` and `UpdateUserNickName` only log a mismatch between the session's user and the requested name. The profile returned is the session's record. The nickname written is that of the requested name.
- `updateUserInfo` reports success in every case, including when no row changed and when the table write itself failed. A failing UPDATE writes nothing and leaves GORM's RowsAffected at 0; the error is never looked at (internal/dao/user.go:47), so the service skips the refresh and returns nil.
- Cache keys are `userinfo_<name>` and `session_<token>`.
- `Logout` reports the cache's own error when the session cannot be read: an absent key or an I/O failure.
- `Logoff` deletes the cookie's session whoever owns it.

## Model

| member | source | states |
|---|---|---|
| Model.Exported | internal/model/model.go:11-15 | the JSON and ORM view of a record keeps every exported field and drops the unexported modify time |
| Utils.Contains | internal/utils/utils.go:10-17 | the result is true exactly when the target occurs in the list |
| Utils.HexEncode | internal/utils/utils.go:27 | hex encoding doubles the length and yields only lowercase hex digits |
| Utils.HexRoundTrip | internal/utils/utils.go:27 | decoding the hex string of any byte string gives the bytes back |
| Utils.HexEncodeInjective | internal/utils/utils.go:27 | two byte strings have the same hex string if and only if they are equal |
| Utils.Md5String | internal/utils/utils.go:24-29 | the digest string is 32 lowercase hex digits |
| Utils.SessionSeed | internal/utils/utils.go:33 | the hashed string is the name followed by ":session", so the name is its prefix |
| Utils.GenerateSession | internal/utils/utils.go:32-34 | the token is the hex MD5 of the name followed by ":session", always 32 hex digits |
| Utils.SessionCollision | internal/utils/utils.go:32-34 | two names get the same token exactly when their seeds' digests collide; distinct names have distinct seeds |
| Dao.FindByName | internal/dao/user.go:14 | absent exactly when no row has the name; otherwise the index of the first row with it |
| Dao.FindUnique | internal/dao/user.go:14 | with unique names, the row found is the only one carrying the name |
| Dao.Inserted | internal/dao/user.go:26 | an inserted row takes the next id, keeps every given field, and gets the current time when its create time is zero |
| Dao.WithoutId | internal/dao/user.go:36 | deletion by primary key keeps exactly the rows with another id |
| Dao.WithoutIdKeepsIds | internal/dao/user.go:36 | deletion keeps ids ascending |
| Dao.WithoutIdKeepsNames | internal/dao/user.go:36 | deletion keeps names unique |
| Dao.Matches | internal/dao/user.go:47 | the WHERE clause: the row carries the name, and the primary key when the update struct sets one (the service never sets one) |
| Dao.Patched | internal/dao/user.go:47 | GORM's SET of a struct: only non-zero fields are written, never the primary key or the unexported modify time; a struct with no field set changes nothing |
| Dao.PatchIdempotent | internal/dao/user.go:47 | applying the same update struct twice gives what one application gives |
| Dao.ChangedCount | internal/dao/user.go:47 | MySQL's changed-rows RowsAffected: at most the number of rows, and zero exactly when every matched row already holds the struct's values |
| Dao.PatchNickName | internal/dao/user.go:47 | a nickname-only update struct changes the nickname alone, and changes a row exactly when the nickname is non-empty and new |
| Dao.NickNamePatch | internal/service/user.go:231-233 | the update struct carries only the new nickname; its id and name are zero |
| Dao.UpdatedRows | internal/dao/user.go:47 | an update keeps the number of rows |
| Dao.NoChangeNoUpdate | internal/dao/user.go:47 | zero affected rows means the table is unchanged |
| Dao.CountWithoutName | internal/dao/user.go:47 | an update for a name no row carries affects no row |
| Dao.AtMostOneChanged | internal/dao/user.go:47 | with unique names, an update by name affects at most one row, and one only when the name exists |
| Dao.NickNameUpdateKeepsNames | internal/dao/user.go:47 | a nickname update keeps every row's name and id |
| Dao.ChangedRowCarriesPatch | internal/dao/user.go:47 | after a one-row nickname update, the row of that name carries the new nickname |
| Dao.ChangedIsFound | internal/dao/user.go:47 | when some row changed, the row with the name is one that the update changes |
| Dao.UserTable.constructor | internal/dao/user.go:10-48 | the table starts empty and valid, with the next id 1 |
| Dao.UserTable.GetUserByName | internal/dao/user.go:10-21 | an error, no row (not found is not an error), or the first row with the name |
| Dao.UserTable.CreateUser | internal/dao/user.go:24-32 | a failure changes nothing; a success appends the inserted row and advances the id counter |
| Dao.UserTable.DeleteUser | internal/dao/user.go:35-43 | a failure or a zero primary key changes nothing and errs; otherwise the row with that id is removed |
| Dao.UserTable.UpdateUserInfo | internal/dao/user.go:46-48 | on success the rows of the name take the struct's non-zero fields and the count is the number of rows that changed; a failing UPDATE writes nothing and counts 0 |
| Cache.UserKey | pkg/constant/const.go:5 | a snapshot key is "userinfo_" followed by the name |
| Cache.SessionKey | pkg/constant/const.go:6 | a session key is "session_" followed by the token |
| Cache.KeysNeverCollide | pkg/constant/const.go:5-6 | no snapshot key equals any session key |
| Cache.KeysInjective | pkg/constant/const.go:5-6 | each kind of key determines its name or token |
| Cache.RefreshedSnapshot | internal/cache/cache.go:90-98 | write the snapshot; on failure drop it; touch no other key |
| Cache.WrapInt64 | internal/cache/cache.go:37 | two's-complement wrap-around of a signed 64-bit product |
| Cache.ExpiryAsWritten | internal/cache/cache.go:37-39 | the duration handed to Redis as written: a signed 64-bit value congruent to n·10^18 nanoseconds |
| Cache.IntendedExpiry | internal/cache/cache.go:53 | the duration of n seconds: a signed 64-bit value congruent to n·10^9 nanoseconds |
| Cache.ExpiryAsWrittenIsBillionfold | internal/cache/cache.go:37-39 | as written, a configured expiry of n seconds becomes n·10^9 seconds, for n up to 9 |
| Cache.ExpiryAsWrittenWrapsAtTen | internal/cache/cache.go:53-57 | as written, a configured expiry of 10 wraps to a negative duration |
| Cache.IntendedExpiryIsSeconds | internal/cache/cache.go:37 | multiplying by one second only once gives exactly n seconds, positive for positive n |
| Cache.KvStore.constructor | internal/cache/cache.go:15-98 | the store starts empty and valid |
| Cache.KvStore.Get | internal/cache/cache.go:19-22 | an I/O error, an absent-key error, or the stored value |
| Cache.KvStore.Del | internal/cache/cache.go:77 | on success the key is gone and nothing else changes; on failure nothing changes |
| Cache.KvStore.GetUserInfoFromCache | internal/cache/cache.go:15-26 | reads the snapshot key of the name; any record returned carries that name |
| Cache.KvStore.SetUserCacheInfo | internal/cache/cache.go:29-41 | on success the exported record sits under the name's snapshot key; on failure nothing changes |
| Cache.KvStore.SetSessionInfo | internal/cache/cache.go:44-59 | on success the exported record sits under the token's session key; on failure nothing changes |
| Cache.KvStore.GetSessionInfo | internal/cache/cache.go:62-72 | reads the token's session key: an I/O error, an absent-key error, or the stored record |
| Cache.KvStore.DelSessionInfo | internal/cache/cache.go:74-79 | removes the session key only |
| Cache.KvStore.DelUserCacheInfo | internal/cache/cache.go:82-87 | removes the user's snapshot key only |
| Cache.KvStore.UpdateCachedUserInfo | internal/cache/cache.go:90-98 | the cache becomes the refreshed snapshot; the error is the write's error, whatever the compensating delete does |
| Service.RegisterParamsValid | internal/service/user.go:18-19 | the registration check: non-empty name and password, positive age, gender male or female |
| Service.NewUser | internal/service/user.go:39-47 | the record Register builds carries the request, with the user as creator and modifier and zero id and times |
| Service.Profile | internal/service/user.go:200-206 | the response fields: name, age, gender, password and nickname |
| Service.ProfileOfExported | internal/service/user.go:200-206 | the profile depends only on exported fields, so a record read back from the cache gives the profile of the row it came from |
| Service.SnapshotHit | internal/service/user.go:93 | the snapshot is used only when it is readable and carries the name asked for |
| Service.CoherentWithoutKeys | internal/cache/cache.go:74-87 | deleting cache keys keeps the cache coherent with the table |
| Service.CoherentWithSession | internal/cache/cache.go:44-59 | writing a session keeps the cache coherent |
| Service.CoherentWithSnapshot | internal/service/user.go:109 | writing the snapshot of a current row keeps the cache coherent |
| Service.CoherentAfterInsert | internal/service/user.go:33-52 | a name with no row has no snapshot, so inserting its row keeps the cache coherent |
| Service.SameIdSameRow | internal/dao/user.go:36 | two rows with one primary key are the same row |
| Service.CoherentAfterDelete | internal/service/user.go:157-175 | removing a user's session key, snapshot key and row keeps every other snapshot coherent |
| Service.UnmatchedRowKept | internal/dao/user.go:47 | a nickname update leaves every row of another name in the table |
| Service.Resolved | internal/service/user.go:90-105 | the lookup gives the named user or an error; "not registered" exactly when the snapshot misses, the table read succeeds and no row has the name |
| Service.AfterResolve | internal/service/user.go:108-112 | a lookup touches at most the snapshot key of the name it looks up |
| Service.CacheIsTransparent | internal/service/user.go:90-115 | while the cache is coherent and names are unique, the lookup returns the same result whether or not the snapshot read succeeds |
| Service.RefreshedSession | internal/service/user.go:248-253 | rewrite the session when a token is given; drop it when the write fails; touch no other key |
| Service.RowGone | internal/service/user.go:172-175 | after deleting the row found under a name, no row carries that name |
| Service.SnapshotRefreshCoherent | internal/service/user.go:244-247 | after a one-row nickname change, refreshing or dropping the snapshot makes the cache coherent again |
| Service.AccountService.constructor | internal/service/user.go:16-260 | the service starts over a valid table and cache |
| Service.AccountService.Register | internal/service/user.go:16-54 | invalid parameters, a lookup error, an existing name or an insert error fail in that order, with the table unchanged; success appends a row carrying the request and found under its name; names stay unique; coherence is kept |
| Service.AccountService.ResolveUser | internal/service/user.go:90-115 | returns the cache-aside lookup result and leaves the cache as the lookup specifies; a failed snapshot write fails nothing; coherence is kept |
| Service.AccountService.Login | internal/service/user.go:57-88 | a failed lookup or session write fails the login; success returns the user's deterministic token and stores the exported record under its session key; coherence is kept |
| Service.AccountService.Logout | internal/service/user.go:117-139 | an absent or unreadable session fails and changes nothing; otherwise only the session key is deleted |
| Service.AccountService.Logoff | internal/service/user.go:142-177 | the user must exist; the session key, the snapshot key and the row are deleted in that order, stopping at the first failure without undoing earlier steps; success leaves no row and neither key |
| Service.AccountService.GetUserInfo | internal/service/user.go:180-207 | an empty token or name is invalid; otherwise the session's record is projected, whichever user it belongs to |
| Service.AccountService.UpdateUserNickName | internal/service/user.go:210-236 | fails only on empty parameters or an unresolved session, with nothing changed; otherwise succeeds; a failing table write leaves table and cache unchanged; otherwise the table takes the new nickname for the requested name; when one row changed and the re-read succeeds, the snapshot and the session hold the new record, or are dropped when their writes fail; coherence is kept except on the two stale paths |
| Service.AccountService.ApplyUserUpdate | internal/service/user.go:239-260 | always succeeds; a failing table write changes nothing; the cache changes only when exactly one row changed and the re-read succeeds; the not-found re-read after a one-row change is unreachable |
| Router.AuthMiddleWare | internal/router/router.go:63-77 | a request passes exactly when its session cookie is present and non-empty; otherwise it is refused with 401 |
| Router.FindRoute | internal/router/router.go:22-36 | the first route registered for the verb and path, or none |
| Router.Serve | internal/router/router.go:22-36 | an unknown verb and path is not found; a refusal is always 401 and only for a missing or empty cookie; no handler that needs a session runs without a cookie |
| Router.ServeRegisteredRoutes | internal/router/router.go:22-36 | exactly logout, logoff, get_user_info and update_nick_name are gated; every registered route runs its handler unless it is gated and the cookie is missing or empty |
| Router.ParseRunMode | internal/router/router.go:50-60 | a mode exists exactly for "release", "test" and "debug", and its name is the configured string |
| Router.Engine.constructor | internal/router/router.go:50-60 | the framework starts in debug mode |
| Router.Engine.SetAppRunMode | internal/router/router.go:50-60 | the three known names set their mode; any other name panics and leaves the mode alone |
| Scenario.AliceLifecycle | internal/service/user.go:16-236 | register, a second register (already registered), login with the name's token, profile, nickname change reflected in the profile, logout, then absent session on profile and on a second logout |
| Scenario.BobLogoff | internal/service/user.go:142-177 | after login and logoff the name has no row, the session no longer resolves, a second logoff finds no user, and the name can register again |

## Left out

- Request time and clocks: `now` is a parameter of insertion. The ORM's automatic update time is not modelled, because the field is unexported and never stored or read.
- TTL expiry: keys in the cache never expire in the model. The TTL arithmetic is modelled as functions only (see Findings), so the cache state carries no expiry and neither the as-written nor the corrected duration feeds it.
- JSON encoding: a stored value is the record's exported part (`Model.Exported`). A failing marshal or unmarshal is not modelled; with these plain records encoding does not fail.
- MD5 itself: the digest is a function parameter returning 16 bytes. Hex encoding is modelled exactly.
- Cache writes that fail are modelled as not applied. A Redis write that reaches the server but reports an error is not modelled.
- Logging, request ids, concurrency and connection pools are not modelled. Each operation runs alone.
- The HTTP layer is not modelled: parameter binding, response envelopes, cookies set on login and logout, and the handlers under api/http/v1. The session token arrives as a parameter; the framework's type assertion on it is assumed to succeed.
- Static file routes, the upload handler's body and server start-up are not modelled. Configuration loading is left out; the run mode and TTLs are parameters.
- Dao.UserTable.CreateUser: a caller-supplied non-zero id is not modelled. The service always passes zero, so the table assigns the next id.
- Dao.FindByName: names are compared by exact string equality, which assumes a binary collation on the name column. The table definition is not part of this model; under MySQL's default case-insensitive collations `Where("name=?")` would also match names differing in case or trailing spaces.
- Dao.Matches: the same exact comparison of names applies to the UPDATE's WHERE clause.
- Service.AccountService.ApplyUserUpdate: modelled for the nickname-only record that `UpdateUserNickName` builds, its only caller.
- Dao.Matches and Dao.Patched: what they state for an update struct with a non-zero id is GORM's documented handling, not behaviour of this repository; the service only builds `NickNamePatch`, whose id is 0.
- Router.Serve: the lookup is exact; gin's trailing-slash redirect is not modelled.
- Router.AuthMiddleWare: the cookie read is given as its result (absent, or a string). Cookie parsing is not modelled.

## Findings

| source | as written | input that shows it | evidently intended | confidence | as-written member | corrected member |
|---|---|---|---|---|---|---|
| internal/cache/cache.go:37-39, 53-57 | the expiry is `time.Second * n` and is then multiplied by `time.Second` again when passed to Redis | a configured expiry of n = 1 gives 10^9 seconds; n = 10 makes the int64 product wrap around to a negative duration | an expiry of n seconds, `time.Second * n` | not executed | Cache.ExpiryAsWrittenIsBillionfold, Cache.ExpiryAsWrittenWrapsAtTen | Cache.IntendedExpiryIsSeconds |
