/**
 * `src/db.py`: the user table and `create_user`, an insert-if-absent that
 * looks the name up and then inserts. The `User` model declares no unique
 * constraint on `username`, so uniqueness rests on that lookup alone.
 */
module Db {
  import opened Wrappers

  /** A row of the `User` model; `added` is the `auto_now_add` timestamp. */
  datatype UserRecord = UserRecord(username: string, password: string, added: int)

  datatype DbError =
    | UserExists(username: string)  // raised by `create_user`
    | MultipleObjectsReturned       // raised by `get_or_none` on more than one match

  /** No two records share a username. */
  ghost predicate UniqueNames(records: seq<UserRecord>)
  {
    forall i, j :: 0 <= i < j < |records| ==> records[i].username != records[j].username
  }

  /** The records with the given username, in table order. */
  function Named(records: seq<UserRecord>, username: string): (r: seq<UserRecord>)
    ensures forall u :: u in r <==> u in records && u.username == username
    ensures |r| <= |records|
    decreases |records|
  {
    if records == [] then []
    else (if records[0].username == username then [records[0]] else [])
         + Named(records[1..], username)
  }

  /** Appending a record adds it to the matches of its own name only. */
  lemma {:induction false} NamedAppend(records: seq<UserRecord>, rec: UserRecord, username: string)
    ensures Named(records + [rec], username)
            == Named(records, username) + (if rec.username == username then [rec] else [])
    decreases |records|
  {
    if records == [] {
      assert records + [rec] == [rec];
    } else {
      assert (records + [rec])[0] == records[0];
      assert (records + [rec])[1..] == records[1..] + [rec];
      NamedAppend(records[1..], rec, username);
    }
  }

  /** A name no record carries has no matches. */
  lemma {:induction false} NamedEmpty(records: seq<UserRecord>, username: string)
    requires forall u :: u in records ==> u.username != username
    ensures Named(records, username) == []
    decreases |records|
  {
    if records != [] {
      assert records[0] in records;
      assert forall u :: u in records[1..] ==> u in records;
      NamedEmpty(records[1..], username);
    }
  }

  /** Under unique names a username matches at most one record. */
  lemma {:induction false} UniqueNamedAtMostOne(records: seq<UserRecord>, username: string)
    requires UniqueNames(records)
    ensures |Named(records, username)| <= 1
    decreases |records|
  {
    if records != [] {
      var rest := records[1..];
      assert UniqueNames(rest) by {
        forall i, j | 0 <= i < j < |rest| ensures rest[i].username != rest[j].username {
          assert rest[i] == records[i + 1] && rest[j] == records[j + 1];
        }
      }
      UniqueNamedAtMostOne(rest, username);
      if records[0].username == username {
        forall u | u in rest ensures u.username != username {
          var j :| 0 <= j < |rest| && rest[j] == u;
          assert records[j + 1] == u;
        }
        NamedEmpty(rest, username);
      }
    }
  }

  /**
   * `User.get_or_none(username=username)`: `None` when no record matches, the
   * record when exactly one does, `MultipleObjectsReturned` otherwise.
   */
  function GetOrNone(records: seq<UserRecord>, username: string): (r: Result<Option<UserRecord>, DbError>)
    ensures r == Success(None) <==> forall u :: u in records ==> u.username != username
    ensures r.Success? && r.value.Some? ==> r.value.value in records && r.value.value.username == username
    ensures r.Failure? ==> r.error == MultipleObjectsReturned
  {
    var found := Named(records, username);
    if |found| == 0 then
      assert forall u :: u in records && u.username == username ==> u in found;
      Success(None)
    else if |found| == 1 then
      assert found[0] in found;
      Success(Some(found[0]))
    else
      assert found[0] in found;
      Failure(MultipleObjectsReturned)
  }

  /** The lookup never fails on a table whose usernames are unique. */
  lemma UniqueLookupSucceeds(records: seq<UserRecord>, username: string)
    requires UniqueNames(records)
    ensures GetOrNone(records, username).Success?
  {
    UniqueNamedAtMostOne(records, username);
  }

  /** On a table with unique names the lookup finds each stored record by
      its name. */
  lemma UniqueLookupFinds(records: seq<UserRecord>, user: UserRecord)
    requires UniqueNames(records)
    requires user in records
    ensures GetOrNone(records, user.username) == Success(Some(user))
  {
    UniqueNamedAtMostOne(records, user.username);
    var found := Named(records, user.username);
    assert user in found;
  }

  /** A result paired with the table it leaves behind. */
  datatype Step<T> = Step(result: T, records: seq<UserRecord>)

  /**
   * `create_user(username, password)` on a table, as a value. `hash` stands
   * for `get_password_hash` (salted bcrypt, so a fresh function per call);
   * `now` is the timestamp the table gives the new row.
   */
  function CreateUserStep(records: seq<UserRecord>, username: string, password: string,
                          now: int, hash: string -> string): (s: Step<Result<UserRecord, DbError>>)
    ensures s.result.Success? <==> forall u :: u in records ==> u.username != username
    ensures s.result.Success? ==>
      && s.result.value == UserRecord(username, hash(password), now)
      && s.records == records + [s.result.value]
    ensures s.result.Failure? ==> s.records == records
    ensures s.result == Failure(UserExists(username)) <==> |Named(records, username)| == 1
  {
    match GetOrNone(records, username)
    case Success(None) =>
      var user := UserRecord(username, hash(password), now);
      Step(Success(user), records + [user])
    case Success(Some(_)) =>
      Step(Failure(UserExists(username)), records)
    case Failure(e) =>
      Step(Failure(e), records)
  }

  /** `create_user` keeps the usernames unique, and so never meets a
      duplicate: it fails only with `UserExists`. */
  lemma CreateUserKeepsNamesUnique(records: seq<UserRecord>, username: string, password: string,
                                   now: int, hash: string -> string)
    requires UniqueNames(records)
    ensures UniqueNames(CreateUserStep(records, username, password, now, hash).records)
    ensures CreateUserStep(records, username, password, now, hash).result.Failure? ==>
      CreateUserStep(records, username, password, now, hash).result == Failure(UserExists(username))
  {
    UniqueLookupSucceeds(records, username);
    var s := CreateUserStep(records, username, password, now, hash);
    if s.result.Success? {
      forall i | 0 <= i < |records| ensures records[i].username != username {
        assert records[i] in records;
      }
    }
  }

  /** After a successful `create_user`, creating the same name again raises
      `UserExists` and leaves the table as it was. */
  lemma SecondCreateRaisesUserExists(records: seq<UserRecord>, username: string,
                                     password: string, password2: string,
                                     now: int, now2: int, hash: string -> string, hash2: string -> string)
    requires CreateUserStep(records, username, password, now, hash).result.Success?
    ensures var after := CreateUserStep(records, username, password, now, hash).records;
      && CreateUserStep(after, username, password2, now2, hash2).result == Failure(UserExists(username))
      && CreateUserStep(after, username, password2, now2, hash2).records == after
  {
    var user := UserRecord(username, hash(password), now);
    NamedAppend(records, user, username);
    NamedEmpty(records, username);
  }

  /** The user table. `create_user` is its one mutating operation. */
  class UserTable {
    var records: seq<UserRecord>

    constructor ()
      ensures records == []
    {
      records := [];
    }

    /** `create_user(username, password)`. */
    method CreateUser(username: string, password: string, now: int, hash: string -> string)
      returns (r: Result<UserRecord, DbError>)
      modifies this
      ensures r == CreateUserStep(old(records), username, password, now, hash).result
      ensures records == CreateUserStep(old(records), username, password, now, hash).records
      ensures r.Success? ==> r.value.username == username && r.value.password == hash(password)
      ensures r.Success? ==> records == old(records) + [r.value]
      ensures r.Failure? ==> records == old(records)
      ensures UniqueNames(old(records)) ==> UniqueNames(records)
    {
      var existing := GetOrNone(records, username);
      match existing
      case Success(None) =>
        var encrypted := hash(password);
        var user := UserRecord(username, encrypted, now);
        records := records + [user];
        r := Success(user);
      case Success(Some(_)) =>
        r := Failure(UserExists(username));
      case Failure(e) =>
        r := Failure(e);
    }
  }
}
