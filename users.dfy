/**
 * The credential list: loading validates the parsed `users.json` value record
 * by record, and `checkAuth` looks a login/password pair up in it.
 */
module Users {
  import opened Base
  import opened Json

  datatype User = User(login: string, password: string)

  /** Why loading throws, one constructor per `throw` (and the `TypeError` of `in` on a primitive). */
  datatype LoadError =
    | NotArray            // "users.json should be array"
    | NotAnObject         // `"login" in userRaw` on a primitive or null throws a TypeError
    | NoLogin             // "no login for user"
    | NoPassword          // "no password for user"
    | LoginNotString      // "login should be string"
    | PasswordNotString   // "password should be string"

  /** The checks of one record, in the order the loader runs them. */
  function CheckRecord(raw: Json): (r: Result<User, LoadError>)
    ensures r.Ok? <==> raw.JObj? && StringProp(raw, "login").Some? && StringProp(raw, "password").Some?
    ensures r.Ok? ==> r.value == User(StringProp(raw, "login").value, StringProp(raw, "password").value)
  {
    if !raw.JArr? && !raw.JObj? then Err(NotAnObject)
    else if Prop(raw, "login").None? then Err(NoLogin)
    else if Prop(raw, "password").None? then Err(NoPassword)
    else if StringProp(raw, "login").None? then Err(LoginNotString)
    else if StringProp(raw, "password").None? then Err(PasswordNotString)
    else Ok(User(StringProp(raw, "login").value, StringProp(raw, "password").value))
  }

  /** `records.map(...)`: every record checked in order; the first failure is thrown. */
  function CheckRecords(records: seq<Json>): Result<seq<User>, LoadError>
    decreases |records|
  {
    if records == [] then Ok([])
    else match CheckRecord(records[0])
      case Err(e) => Err(e)
      case Ok(u) =>
        match CheckRecords(records[1..])
        case Err(e) => Err(e)
        case Ok(us) => Ok([u] + us)
  }

  /** Loading the parsed `users.json` value. */
  function LoadUsers(raw: Json): Result<seq<User>, LoadError> {
    if !raw.JArr? then Err(NotArray) else CheckRecords(raw.items)
  }

  /**
   * Loading succeeds exactly when every record is well formed; the list then
   * keeps the order and length of the raw array, record by record. Otherwise
   * the error is that of the first bad record.
   */
  lemma {:induction false} CheckRecordsSpec(records: seq<Json>)
    ensures CheckRecords(records).Ok? <==> forall i :: 0 <= i < |records| ==> CheckRecord(records[i]).Ok?
    ensures CheckRecords(records).Ok? ==>
              |CheckRecords(records).value| == |records| &&
              forall i :: 0 <= i < |records| ==> CheckRecords(records).value[i] == CheckRecord(records[i]).value
    ensures CheckRecords(records).Err? ==>
              exists k :: 0 <= k < |records| &&
                (forall i :: 0 <= i < k ==> CheckRecord(records[i]).Ok?) &&
                CheckRecord(records[k]) == Err(CheckRecords(records).error)
    decreases |records|
  {
    if records != [] {
      CheckRecordsSpec(records[1..]);
      var rest := records[1..];
      if CheckRecord(records[0]).Ok? && CheckRecords(rest).Err? {
        var k :| 0 <= k < |rest| &&
                 (forall i :: 0 <= i < k ==> CheckRecord(rest[i]).Ok?) &&
                 CheckRecord(rest[k]) == Err(CheckRecords(rest).error);
        assert forall i :: 0 <= i < k + 1 ==> CheckRecord(records[i]).Ok? by {
          forall i | 0 <= i < k + 1 ensures CheckRecord(records[i]).Ok? {
            if i > 0 { assert records[i] == rest[i - 1]; }
          }
        }
        assert records[k + 1] == rest[k];
      }
      if CheckRecord(records[0]).Ok? && CheckRecords(rest).Ok? {
        forall i | 0 <= i < |records| ensures CheckRecords(records).value[i] == CheckRecord(records[i]).value {
          if i > 0 { assert records[i] == rest[i - 1]; }
        }
      }
      if !CheckRecord(records[0]).Ok? {
        assert CheckRecords(records).Err?;
      } else if forall i :: 0 <= i < |records| ==> CheckRecord(records[i]).Ok? {
        assert forall i :: 0 <= i < |rest| ==> CheckRecord(rest[i]).Ok? by {
          forall i | 0 <= i < |rest| ensures CheckRecord(rest[i]).Ok? {
            assert rest[i] == records[i + 1];
          }
        }
      }
    }
  }

  /** Loading throws unless the raw value is an array whose records all pass the checks. */
  lemma LoadUsersSpec(raw: Json)
    ensures !raw.JArr? ==> LoadUsers(raw) == Err(NotArray)
    ensures raw.JArr? ==>
              (LoadUsers(raw).Ok? <==> forall i :: 0 <= i < |raw.items| ==> CheckRecord(raw.items[i]).Ok?)
    ensures LoadUsers(raw).Ok? ==>
              |LoadUsers(raw).value| == |raw.items| &&
              forall i :: 0 <= i < |raw.items| ==>
                LoadUsers(raw).value[i] == User(StringProp(raw.items[i], "login").value,
                                                StringProp(raw.items[i], "password").value)
  {
    if raw.JArr? {
      CheckRecordsSpec(raw.items);
    }
  }

  /** `users.find(...)`: the first record whose login and password both equal the given ones. */
  function FindUser(users: seq<User>, login: string, password: string): (r: Option<nat>)
    ensures r.Some? ==> r.value < |users| && users[r.value] == User(login, password)
    ensures r.Some? ==> forall i :: 0 <= i < r.value ==> users[i] != User(login, password)
    ensures r.None? ==> forall i :: 0 <= i < |users| ==> users[i] != User(login, password)
    decreases |users|
  {
    if users == [] then None
    else if users[0].login == login && users[0].password == password then Some(0)
    else match FindUser(users[1..], login, password)
      case None => None
      case Some(k) => Some(k + 1)
  }

  /**
   * `checkAuth(login, password)`: the caller's own `login` when one record has
   * both that login and that password, `undefined` otherwise.
   */
  function CheckAuth(users: seq<User>, login: string, password: string): (r: Option<string>)
    ensures r.Some? <==> exists i :: 0 <= i < |users| && users[i].login == login && users[i].password == password
    ensures r.Some? ==> r.value == login
  {
    if FindUser(users, login, password).Some? then Some(login) else None
  }
}
