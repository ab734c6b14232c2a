/**
 * The user table behind internal/dao/user.go (MySQL through GORM),
 * modelled as its sequence of rows in primary-key order.
 *
 * Store semantics kept from the ORM and the driver:
 *  - `First` returns the matching row with the smallest id;
 *  - `Create` assigns the next auto-increment id and fills a zero
 *    CreateTime with the current time; it checks nothing about names;
 *  - `Delete(user)` deletes by primary key and refuses a zero key;
 *  - `Updates(struct)` writes the non-zero fields of the struct only, and
 *    RowsAffected counts the rows whose value actually changed (the
 *    driver's default, without client-found-rows).
 */
module Dao {
  import opened Model

  /** The three outcomes of GetUserByName: (user, nil), (nil, nil), (nil, err). */
  datatype Lookup = Row(user: User) | NoRow | DbError

  predicate HasName(rows: seq<User>, name: string) {
    exists i :: 0 <= i < |rows| && rows[i].name == name
  }

  /** Index of the first row carrying `name`. */
  function FindByName(rows: seq<User>, name: string): (r: Option<nat>)
    ensures r.None? <==> !HasName(rows, name)
    ensures r.Some? ==> r.value < |rows| && rows[r.value].name == name
    ensures r.Some? ==> forall k :: 0 <= k < r.value ==> rows[k].name != name
  {
    if rows == [] then None
    else if rows[0].name == name then Some(0)
    else match FindByName(rows[1..], name)
      case None => None
      case Some(i) => Some(i + 1)
  }

  ghost predicate UniqueNames(rows: seq<User>) {
    forall i, j :: 0 <= i < j < |rows| ==> rows[i].name != rows[j].name
  }

  ghost predicate IdsAscending(rows: seq<User>) {
    forall i, j :: 0 <= i < j < |rows| ==> rows[i].id < rows[j].id
  }

  /** With unique names, the row FindByName picks is the only one of that name. */
  lemma FindUnique(rows: seq<User>, name: string, k: nat)
    requires UniqueNames(rows)
    requires k < |rows| && rows[k].name == name
    ensures FindByName(rows, name) == Some(k)
  {
  }

  /** The row CreateUser stores for `user`. */
  function Inserted(user: User, id: int, now: int): (row: User)
    ensures row.id == id && row.modifyTime == 0
    ensures row.createTime == if user.createTime == 0 then now else user.createTime
    ensures row.name == user.name && row.creator == user.creator && row.modifier == user.modifier
    ensures row.gender == user.gender && row.age == user.age
    ensures row.passWord == user.passWord && row.nickName == user.nickName
  {
    user.(id := id,
          createTime := if user.createTime == 0 then now else user.createTime,
          modifyTime := 0)
  }

  /** The rows that remain after deleting primary key `id`. */
  function WithoutId(rows: seq<User>, id: int): (r: seq<User>)
    ensures |r| <= |rows|
    ensures forall u :: u in r <==> u in rows && u.id != id
    ensures forall k :: 0 <= k < |r| ==> r[k] in rows
  {
    if rows == [] then []
    else if rows[0].id == id then WithoutId(rows[1..], id)
    else
      var rest := WithoutId(rows[1..], id);
      assert forall k :: 0 <= k < |rest| ==> rest[k] in rows[1..];
      [rows[0]] + rest
  }

  /** A head below every id of an ascending tail keeps the sequence ascending. */
  lemma ConsAscending(x: User, rest: seq<User>)
    requires IdsAscending(rest)
    requires forall u :: u in rest ==> x.id < u.id
    ensures IdsAscending([x] + rest)
  {
    var r := [x] + rest;
    forall i, j | 0 <= i < j < |r| ensures r[i].id < r[j].id {
      assert r[j] == rest[j - 1];
      if i > 0 {
        assert r[i] == rest[i - 1];
      }
    }
  }

  /** Deleting rows keeps the ids of the survivors ascending. */
  lemma {:induction false} WithoutIdKeepsIds(rows: seq<User>, id: int)
    requires IdsAscending(rows)
    ensures IdsAscending(WithoutId(rows, id))
  {
    if rows != [] {
      var tail := rows[1..];
      assert IdsAscending(tail) by {
        forall i, j | 0 <= i < j < |tail| ensures tail[i].id < tail[j].id {
          assert tail[i] == rows[i + 1] && tail[j] == rows[j + 1];
        }
      }
      WithoutIdKeepsIds(tail, id);
      if rows[0].id != id {
        var rest := WithoutId(tail, id);
        forall u | u in rest ensures rows[0].id < u.id {
          var m :| 0 <= m < |tail| && tail[m] == u;
          assert rows[m + 1] == u;
        }
        ConsAscending(rows[0], rest);
      }
    }
  }

  /** A head whose name no row of a unique tail carries keeps the names unique. */
  lemma ConsUnique(x: User, rest: seq<User>)
    requires UniqueNames(rest)
    requires forall u :: u in rest ==> x.name != u.name
    ensures UniqueNames([x] + rest)
  {
    var r := [x] + rest;
    forall i, j | 0 <= i < j < |r| ensures r[i].name != r[j].name {
      assert r[j] == rest[j - 1];
      if i > 0 {
        assert r[i] == rest[i - 1];
      }
    }
  }

  /** Deleting rows keeps the names of the survivors unique. */
  lemma {:induction false} WithoutIdKeepsNames(rows: seq<User>, id: int)
    requires UniqueNames(rows)
    ensures UniqueNames(WithoutId(rows, id))
  {
    if rows != [] {
      var tail := rows[1..];
      assert UniqueNames(tail) by {
        forall i, j | 0 <= i < j < |tail| ensures tail[i].name != tail[j].name {
          assert tail[i] == rows[i + 1] && tail[j] == rows[j + 1];
        }
      }
      WithoutIdKeepsNames(tail, id);
      if rows[0].id != id {
        var rest := WithoutId(tail, id);
        forall u | u in rest ensures rows[0].name != u.name {
          var m :| 0 <= m < |tail| && tail[m] == u;
          assert rows[m + 1] == u;
        }
        ConsUnique(rows[0], rest);
      }
    }
  }

  /** Rows the UPDATE's WHERE clause selects: the name, and the key when the patch sets one. */
  predicate Matches(row: User, userName: string, patch: User) {
    row.name == userName && (patch.id == 0 || row.id == patch.id)
  }

  /** The patch sets no column: every field the ORM would write is at its zero value. */
  predicate WritesNothing(patch: User) {
    && patch.creator == "" && patch.createTime == 0 && patch.modifier == "" && patch.name == ""
    && patch.gender == "" && patch.age == 0 && patch.passWord == "" && patch.nickName == ""
  }

  /**
   * `row` with every non-zero exported field of `patch` written into it.
   * The primary key and the unexported modify time are never written.
   */
  function Patched(row: User, patch: User): (r: User)
    ensures r.id == row.id && r.modifyTime == row.modifyTime
    ensures WritesNothing(patch) ==> r == row
    ensures WritesNothing(patch.(nickName := "")) ==> r == row.(nickName := r.nickName)
  {
    row.(creator := if patch.creator == "" then row.creator else patch.creator,
         createTime := if patch.createTime == 0 then row.createTime else patch.createTime,
         modifier := if patch.modifier == "" then row.modifier else patch.modifier,
         name := if patch.name == "" then row.name else patch.name,
         gender := if patch.gender == "" then row.gender else patch.gender,
         age := if patch.age == 0 then row.age else patch.age,
         passWord := if patch.passWord == "" then row.passWord else patch.passWord,
         nickName := if patch.nickName == "" then row.nickName else patch.nickName)
  }

  /**
   * A nickname-only patch changes at most the nickname, and changes it
   * exactly when the new one is non-empty and different.
   */
  lemma PatchNickName(row: User, patch: User)
    requires patch == NickNamePatch(patch.nickName)
    ensures Patched(row, patch) == row.(nickName := if patch.nickName == "" then row.nickName else patch.nickName)
    ensures Patched(row, patch) != row <==> patch.nickName != "" && patch.nickName != row.nickName
  {
  }

  /** The struct the service hands to Updates: only NickName set. */
  function NickNamePatch(nickName: string): (p: User)
    ensures p.nickName == nickName && p.id == 0 && p.name == ""
  {
    User("", 0, "", 0, 0, "", "", 0, "", nickName)
  }

  function UpdatedRows(rows: seq<User>, userName: string, patch: User): (r: seq<User>)
    ensures |r| == |rows|
  {
    seq(|rows|, i requires 0 <= i < |rows| =>
      if Matches(rows[i], userName, patch) then Patched(rows[i], patch) else rows[i])
  }

  /** Applying the same patch twice changes nothing the first application did not. */
  lemma PatchIdempotent(row: User, patch: User)
    ensures Patched(Patched(row, patch), patch) == Patched(row, patch)
  {
  }

  /**
   * RowsAffected: matched rows whose value changes. Zero exactly when
   * every matched row already holds the patch's values.
   */
  function ChangedCount(rows: seq<User>, userName: string, patch: User): (n: nat)
    ensures n <= |rows|
    ensures n == 0 <==>
            forall k :: 0 <= k < |rows| && Matches(rows[k], userName, patch) ==> Patched(rows[k], patch) == rows[k]
  {
    if rows == [] then 0
    else
      (if Matches(rows[0], userName, patch) && Patched(rows[0], patch) != rows[0] then 1 else 0)
      + ChangedCount(rows[1..], userName, patch)
  }

  /** No row changes: the table is left exactly as it was. */
  lemma {:induction false} NoChangeNoUpdate(rows: seq<User>, userName: string, patch: User)
    requires ChangedCount(rows, userName, patch) == 0
    ensures UpdatedRows(rows, userName, patch) == rows
  {
    if rows != [] {
      NoChangeNoUpdate(rows[1..], userName, patch);
      assert UpdatedRows(rows, userName, patch) == [rows[0]] + UpdatedRows(rows[1..], userName, patch);
    }
  }

  /** Rows without the name are not counted. */
  lemma {:induction false} CountWithoutName(rows: seq<User>, userName: string, patch: User)
    requires !HasName(rows, userName)
    ensures ChangedCount(rows, userName, patch) == 0
  {
    if rows != [] {
      assert !HasName(rows[1..], userName) by {
        forall k | 0 <= k < |rows[1..]| ensures rows[1..][k].name != userName {
          assert rows[1..][k] == rows[k + 1];
        }
      }
      CountWithoutName(rows[1..], userName, patch);
    }
  }

  /** With unique names an update by name changes at most one row. */
  lemma {:induction false} AtMostOneChanged(rows: seq<User>, userName: string, patch: User)
    requires UniqueNames(rows)
    ensures ChangedCount(rows, userName, patch) <= 1
    ensures ChangedCount(rows, userName, patch) == 1 ==> HasName(rows, userName)
  {
    if rows != [] {
      var tail := rows[1..];
      assert UniqueNames(tail) by {
        forall i, j | 0 <= i < j < |tail| ensures tail[i].name != tail[j].name {
          assert tail[i] == rows[i + 1] && tail[j] == rows[j + 1];
        }
      }
      if rows[0].name == userName {
        assert !HasName(tail, userName) by {
          forall k | 0 <= k < |tail| ensures tail[k].name != userName {
            assert tail[k] == rows[k + 1];
          }
        }
        CountWithoutName(tail, userName, patch);
      } else {
        AtMostOneChanged(tail, userName, patch);
        if ChangedCount(rows, userName, patch) == 1 {
          var k :| 0 <= k < |tail| && tail[k].name == userName;
          assert rows[k + 1].name == userName;
        }
      }
    }
  }

  /** A nickname update renames nothing, so names stay unique. */
  lemma NickNameUpdateKeepsNames(rows: seq<User>, userName: string, nickName: string)
    ensures var r := UpdatedRows(rows, userName, NickNamePatch(nickName));
            && (forall k :: 0 <= k < |r| ==> r[k].name == rows[k].name && r[k].id == rows[k].id)
            && (UniqueNames(rows) ==> UniqueNames(r))
  {
    var r := UpdatedRows(rows, userName, NickNamePatch(nickName));
    forall k | 0 <= k < |r| ensures r[k].name == rows[k].name && r[k].id == rows[k].id {
      PatchNickName(rows[k], NickNamePatch(nickName));
    }
  }

  /**
   * After an update that changed one row, the row found under that name
   * carries the patch's non-empty nickname.
   */
  lemma ChangedRowCarriesPatch(rows: seq<User>, userName: string, nickName: string)
    requires UniqueNames(rows)
    requires ChangedCount(rows, userName, NickNamePatch(nickName)) == 1
    ensures var r := UpdatedRows(rows, userName, NickNamePatch(nickName));
            && UniqueNames(r)
            && (forall k :: 0 <= k < |r| ==> r[k].name == rows[k].name)
            && FindByName(r, userName).Some?
            && r[FindByName(r, userName).value].nickName == nickName
  {
    var patch := NickNamePatch(nickName);
    var r := UpdatedRows(rows, userName, patch);
    AtMostOneChanged(rows, userName, patch);
    var k :| 0 <= k < |rows| && rows[k].name == userName;
    forall j | 0 <= j < |r| ensures r[j].name == rows[j].name {
      PatchNickName(rows[j], patch);
    }
    FindUnique(rows, userName, k);
    FindUnique(r, userName, k);
    ChangedIsFound(rows, userName, patch, k);
    PatchNickName(rows[k], patch);
  }

  /** The changed row, if any, is the one carrying the name. */
  lemma {:induction false} ChangedIsFound(rows: seq<User>, userName: string, patch: User, k: nat)
    requires UniqueNames(rows)
    requires k < |rows| && rows[k].name == userName
    requires ChangedCount(rows, userName, patch) > 0
    ensures Patched(rows[k], patch) != rows[k]
    ensures patch.id == 0 || rows[k].id == patch.id
  {
    var tail := rows[1..];
    assert UniqueNames(tail) by {
      forall i, j | 0 <= i < j < |tail| ensures tail[i].name != tail[j].name {
        assert tail[i] == rows[i + 1] && tail[j] == rows[j + 1];
      }
    }
    if k == 0 {
      assert !HasName(tail, userName) by {
        forall m | 0 <= m < |tail| ensures tail[m].name != userName {
          assert tail[m] == rows[m + 1];
        }
      }
      CountWithoutName(tail, userName, patch);
    } else {
      assert rows[0].name != userName;
      assert tail[k - 1] == rows[k];
      ChangedIsFound(tail, userName, patch, k - 1);
    }
  }

  /**
   * The user table: its rows in primary-key order and the next
   * auto-increment value.
   */
  class UserTable {
    var rows: seq<User>
    var nextId: int

    ghost predicate Valid()
      reads this
    {
      && nextId >= 1
      && IdsAscending(rows)
      && (forall i :: 0 <= i < |rows| ==> 1 <= rows[i].id < nextId && rows[i].modifyTime == 0)
    }

    constructor ()
      ensures Valid() && rows == [] && nextId == 1
    {
      rows := [];
      nextId := 1;
    }

    /**
     * GetUserByName: "record not found" is (nil, nil), any other failure
     * (nil, err), a hit the first row of that name.
     */
    method GetUserByName(name: string, fails: bool) returns (r: Lookup)
      requires Valid()
      ensures fails ==> r == DbError
      ensures !fails && !HasName(rows, name) ==> r == NoRow
      ensures !fails && HasName(rows, name) ==> r == Row(rows[FindByName(rows, name).value])
      ensures r.Row? ==> r.user in rows && r.user.name == name && r.user.modifyTime == 0 && r.user.id >= 1
    {
      if fails {
        return DbError;
      }
      match FindByName(rows, name)
      case None => r := NoRow;
      case Some(i) => r := Row(rows[i]);
    }

    /** CreateUser: appends the record under a fresh id, whatever its name. */
    method CreateUser(user: User, now: int, fails: bool) returns (s: Status)
      requires Valid()
      modifies this
      ensures Valid()
      ensures s == if fails then Failed(DbIo) else Done
      ensures rows == if fails then old(rows) else old(rows) + [Inserted(user, old(nextId), now)]
      ensures nextId == if fails then old(nextId) else old(nextId) + 1
    {
      if fails {
        return Failed(DbIo);
      }
      rows := rows + [Inserted(user, nextId, now)];
      nextId := nextId + 1;
      s := Done;
    }

    /** DeleteUser: removes the row with the user's primary key. */
    method DeleteUser(user: User, fails: bool) returns (s: Status)
      requires Valid()
      modifies this
      ensures Valid() && nextId == old(nextId)
      ensures s == if fails || user.id == 0 then Failed(DbIo) else Done
      ensures rows == if s.Failed? then old(rows) else WithoutId(old(rows), user.id)
    {
      if fails || user.id == 0 {
        return Failed(DbIo);
      }
      WithoutIdKeepsIds(rows, user.id);
      rows := WithoutId(rows, user.id);
      s := Done;
    }

    /**
     * UpdateUserInfo: writes the patch into the matching rows and reports
     * the changed-row count. A failing UPDATE writes nothing and leaves
     * RowsAffected at 0; the error itself is not returned.
     */
    method UpdateUserInfo(userName: string, patch: User, fails: bool) returns (affected: nat)
      requires Valid()
      modifies this
      ensures Valid() && nextId == old(nextId)
      ensures rows == if fails then old(rows) else UpdatedRows(old(rows), userName, patch)
      ensures affected == if fails then 0 else ChangedCount(old(rows), userName, patch)
    {
      if fails {
        return 0;
      }
      affected := ChangedCount(rows, userName, patch);
      rows := UpdatedRows(rows, userName, patch);
    }
  }
}
