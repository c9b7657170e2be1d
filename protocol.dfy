/**
 * The per-connection message gate of the control protocol: given the
 * connection's current username and one incoming payload, what the handler
 * does with it (close the socket, answer an `auth`, dispatch a command, log
 * and drop it, or ignore it) and what the username becomes.
 */
module Protocol {
  import opened Base
  import opened Json
  import opened Users
  import opened Regions

  /** An incoming WebSocket payload: text (already parsed as JSON) or binary. */
  datatype Payload = Text(message: Json) | Binary

  /** The supervisor operation a message asks for. */
  datatype Command =
    | UpdateCmd                                      // restart(true)
    | RestartCmd                                     // restart(false)
    | StopCmd                                        // stop()
    | SaveCmd(name: string)                          // save(name)
    | RestoreCmd(name: string, regions: seq<Region>) // restore(name, regions)

  /** What the handler does with one message. */
  datatype Verdict =
    | CloseConnection                  // ws.close()
    | AuthAnswer(user: Option<string>) // username := user; reply { type: "auth", success: user }
    | Dispatch(command: Command)       // fire and forget
    | Reject                           // error logged, message dropped, connection kept
    | Ignore                           // unknown type
    | Crash                            // a TypeError escapes the handler

  /** The characters of `/^[a-zA-Z0-9 .-]+$/`. */
  predicate NameChar(c: char) {
    ('a' <= c <= 'z') || ('A' <= c <= 'Z') || ('0' <= c <= '9') || c == ' ' || c == '.' || c == '-'
  }

  /** `name.match(nameRegex)`: a non-empty string of allowed characters. */
  predicate MatchesNameRegex(s: string) {
    |s| > 0 && forall i :: 0 <= i < |s| ==> NameChar(s[i])
  }

  /** JavaScript truthiness of the connection's `username`: set and not empty. */
  predicate Authenticated(username: Option<string>) {
    username.Some? && username.value != ""
  }

  function DimensionNamed(s: string): (r: Option<Dimension>)
    ensures r.Some? <==> s in {"overworld", "nether", "end"}
  {
    if s == "overworld" then Some(Overworld)
    else if s == "nether" then Some(Nether)
    else if s == "end" then Some(End)
    else None
  }

  /** The outcome of checking one entry of `regions`. */
  datatype RegionCheck = Good(region: Region) | Bad | Throws

  /** The checks of one region: `typeof` "object", numeric `x` and `z`, a known dimension. */
  function CheckRegion(v: Json): (r: RegionCheck)
    ensures r.Throws? <==> v.JNull?
    ensures r.Good? <==>
              && v.JObj?
              && Prop(v, "x").Some? && Prop(v, "x").value.JNum?
              && Prop(v, "z").Some? && Prop(v, "z").value.JNum?
              && StringProp(v, "dimension").Some? && DimensionNamed(StringProp(v, "dimension").value).Some?
    ensures r.Good? ==>
              r.region == Region(DimensionNamed(StringProp(v, "dimension").value).value,
                                 Prop(v, "x").value.n, Prop(v, "z").value.n)
  {
    if !TypeofObject(v) then Bad
    else if v.JNull? then Throws   // null["x"] throws
    else if !(Prop(v, "x").Some? && Prop(v, "x").value.JNum?) then Bad
    else if !(Prop(v, "z").Some? && Prop(v, "z").value.JNum?) then Bad
    else match StringProp(v, "dimension")
      case None => Bad
      case Some(s) =>
        match DimensionNamed(s)
        case None => Bad
        case Some(d) => Good(Region(d, Prop(v, "x").value.n, Prop(v, "z").value.n))
  }

  /** The `for (const region of regions)` loop: the first entry that is not good decides. */
  function CheckRegions(vs: seq<Json>): Result<seq<Region>, RegionCheck>
    decreases |vs|
  {
    if vs == [] then Ok([])
    else match CheckRegion(vs[0])
      case Good(r) =>
        (match CheckRegions(vs[1..])
         case Ok(rs) => Ok([r] + rs)
         case Err(e) => Err(e))
      case other => Err(other)
  }

  /** The restore checks passed exactly when every entry is good; the regions keep their order. */
  lemma {:induction false} CheckRegionsSpec(vs: seq<Json>)
    ensures CheckRegions(vs).Ok? <==> forall i :: 0 <= i < |vs| ==> CheckRegion(vs[i]).Good?
    ensures CheckRegions(vs).Ok? ==>
              |CheckRegions(vs).value| == |vs| &&
              forall i :: 0 <= i < |vs| ==> CheckRegions(vs).value[i] == CheckRegion(vs[i]).region
    decreases |vs|
  {
    if vs != [] {
      CheckRegionsSpec(vs[1..]);
      if CheckRegion(vs[0]).Good? && CheckRegions(vs[1..]).Ok? {
        forall i | 0 <= i < |vs| ensures CheckRegions(vs).value[i] == CheckRegion(vs[i]).region {
          if i > 0 { assert vs[i] == vs[1..][i - 1]; }
        }
      }
      if forall i :: 0 <= i < |vs| ==> CheckRegion(vs[i]).Good? {
        forall i | 0 <= i < |vs[1..]| ensures CheckRegion(vs[1..][i]).Good? {
          assert vs[1..][i] == vs[i + 1];
        }
      }
    }
  }

  /** The first entry that fails the region checks is `null`, so the check of it throws. */
  ghost predicate FirstBadIsNull(vs: seq<Json>) {
    exists k :: 0 <= k < |vs| && vs[k] == JNull && forall j :: 0 <= j < k ==> CheckRegion(vs[j]).Good?
  }

  /** The region loop throws exactly when its first entry that is not good is `null`. */
  lemma {:induction false} CheckRegionsThrows(vs: seq<Json>)
    ensures CheckRegions(vs) == Err(Throws) <==> FirstBadIsNull(vs)
    decreases |vs|
  {
    if vs != [] {
      CheckRegionsThrows(vs[1..]);
      if CheckRegion(vs[0]).Good? {
        if FirstBadIsNull(vs[1..]) {
          var k :| 0 <= k < |vs[1..]| && vs[1..][k] == JNull &&
                   forall j :: 0 <= j < k ==> CheckRegion(vs[1..][j]).Good?;
          assert vs[k + 1] == JNull;
          forall j | 0 <= j < k + 1 ensures CheckRegion(vs[j]).Good? {
            if j > 0 { assert vs[j] == vs[1..][j - 1]; }
          }
        }
        if FirstBadIsNull(vs) {
          var k :| 0 <= k < |vs| && vs[k] == JNull && forall j :: 0 <= j < k ==> CheckRegion(vs[j]).Good?;
          assert k > 0;
          assert vs[1..][k - 1] == JNull;
          forall j | 0 <= j < k - 1 ensures CheckRegion(vs[1..][j]).Good? {
            assert vs[1..][j] == vs[j + 1];
          }
        }
      } else if FirstBadIsNull(vs) {
        var k :| 0 <= k < |vs| && vs[k] == JNull && forall j :: 0 <= j < k ==> CheckRegion(vs[j]).Good?;
        assert k == 0;
      } else {
        assert !(vs[0] == JNull);
      }
    }
  }

  /** The `type` of a text message that is an object with a string `type`. */
  function MessageType(payload: Payload): (r: Option<string>)
    ensures r.Some? <==> payload.Text? && payload.message.JObj? && StringProp(payload.message, "type").Some?
    ensures r.Some? ==> Prop(payload.message, "type") == Some(JStr(r.value))
  {
    if payload.Text? && payload.message.JObj? then StringProp(payload.message, "type") else None
  }

  /** `message.name`, when it is a string that matches the name pattern. */
  function GoodName(m: Json): (r: Option<string>)
    ensures r.Some? <==> StringProp(m, "name").Some? && MatchesNameRegex(StringProp(m, "name").value)
    ensures r.Some? ==> StringProp(m, "name") == Some(r.value)
  {
    match StringProp(m, "name")
    case Some(n) => if MatchesNameRegex(n) then Some(n) else None
    case None => None
  }

  /** `message.regions`, when it is an array whose every entry passes the region checks. */
  function GoodRegions(m: Json): (r: Option<seq<Region>>)
    ensures r.Some? <==>
              Prop(m, "regions").Some? && Prop(m, "regions").value.JArr? &&
              CheckRegions(Prop(m, "regions").value.items).Ok?
    ensures r.Some? ==> CheckRegions(Prop(m, "regions").value.items) == Ok(r.value)
  {
    match Prop(m, "regions")
    case Some(JArr(vs)) =>
      (match CheckRegions(vs)
       case Ok(rs) => Some(rs)
       case Err(_) => None)
    case _ => None
  }

  /** The `save` and `restore` cases of the command switch. */
  function CheckCommand(ty: string, m: Json): Verdict {
    if ty == "update" then Dispatch(UpdateCmd)
    else if ty == "restart" then Dispatch(RestartCmd)
    else if ty == "stop" then Dispatch(StopCmd)
    else if ty == "save" then
      match StringProp(m, "name")
      case Some(n) => if MatchesNameRegex(n) then Dispatch(SaveCmd(n)) else Reject
      case None => Reject
    else if ty == "restore" then
      match StringProp(m, "name")
      case None => Reject
      case Some(n) =>
        if !MatchesNameRegex(n) then Reject
        else match Prop(m, "regions")
          case Some(JArr(vs)) =>
            (match CheckRegions(vs)
             case Ok(rs) => Dispatch(RestoreCmd(n, rs))
             case Err(Throws) => Crash
             case Err(_) => Reject)
          case _ => Reject
    else Ignore
  }

  /** The message handler exactly as written, including the `TypeError`s on `null`. */
  function GateAsWritten(username: Option<string>, payload: Payload, users: seq<User>): Verdict {
    match payload
    case Binary => CloseConnection
    case Text(m) =>
      if m.JNull? then Crash   // `"type" in null` throws
      else if !TypeofObject(m) || Prop(m, "type").None? || !Prop(m, "type").value.JStr? then CloseConnection
      else
        var ty := Prop(m, "type").value.s;
        if ty == "auth" then
          match (StringProp(m, "login"), StringProp(m, "password"))
          case (Some(login), Some(password)) => AuthAnswer(CheckAuth(users, login, password))
          case _ => Reject
        else if !Authenticated(username) then CloseConnection
        else CheckCommand(ty, m)
  }

  /** A `null` message makes the handler as written throw instead of closing the connection. */
  lemma NullMessageCrashes(username: Option<string>, users: seq<User>)
    ensures GateAsWritten(username, Text(JNull), users) == Crash
  {
  }

  /** A `null` region in an authenticated restore makes the handler as written throw. */
  lemma NullRegionCrashes(users: seq<User>)
    ensures GateAsWritten(Some("admin"),
              Text(JObj(map["type" := JStr("restore"), "name" := JStr("b"), "regions" := JArr([JNull])])),
              users) == Crash
  {
  }

  /**
   * The handler with `null` treated like the other values `typeof` calls
   * "object" but that are not usable objects: a `null` message closes the
   * connection, a `null` region is logged and the message dropped.
   */
  function Gate(username: Option<string>, payload: Payload, users: seq<User>): (r: Verdict)
    // The handler never throws.
    ensures !r.Crash?
    // Structural violations close the connection.
    ensures payload.Binary? ==> r == CloseConnection
    ensures payload.Text? && (|| !payload.message.JObj?
                              || Prop(payload.message, "type").None?
                              || !Prop(payload.message, "type").value.JStr?)
            ==> r == CloseConnection
    // An `auth` answer comes exactly from a well-typed `auth` message, and carries checkAuth's result.
    ensures r.AuthAnswer? <==>
              payload.Text? && Prop(payload.message, "type") == Some(JStr("auth")) &&
              StringProp(payload.message, "login").Some? && StringProp(payload.message, "password").Some?
    ensures r.AuthAnswer? ==>
              r.user == CheckAuth(users, StringProp(payload.message, "login").value,
                                  StringProp(payload.message, "password").value)
    // Without a username, every message but `auth` closes the connection.
    ensures !Authenticated(username) && payload.Text? && Prop(payload.message, "type") != Some(JStr("auth"))
            ==> r == CloseConnection
    // Commands are dispatched only on authenticated connections, and names only if they match.
    ensures r.Dispatch? ==> Authenticated(username)
    ensures r.Dispatch? && (r.command.SaveCmd? || r.command.RestoreCmd?) ==>
              MatchesNameRegex(r.command.name) && StringProp(payload.message, "name") == Some(r.command.name)
    ensures r.Dispatch? && r.command.RestoreCmd? ==>
              Prop(payload.message, "type") == Some(JStr("restore")) &&
              Prop(payload.message, "regions").Some? && Prop(payload.message, "regions").value.JArr? &&
              CheckRegions(Prop(payload.message, "regions").value.items) == Ok(r.command.regions)
    ensures r.Dispatch? && r.command.SaveCmd? ==> Prop(payload.message, "type") == Some(JStr("save"))
    // An ill-typed `auth` is dropped; the connection stays open.
    ensures MessageType(payload) == Some("auth") &&
            (StringProp(payload.message, "login").None? || StringProp(payload.message, "password").None?)
            ==> r == Reject
    // On an authenticated connection each known command is dispatched as itself ...
    ensures Authenticated(username) && MessageType(payload) == Some("update") ==> r == Dispatch(UpdateCmd)
    ensures Authenticated(username) && MessageType(payload) == Some("restart") ==> r == Dispatch(RestartCmd)
    ensures Authenticated(username) && MessageType(payload) == Some("stop") ==> r == Dispatch(StopCmd)
    // ... and `save`/`restore` with good fields too; any bad field drops the message without a close.
    ensures Authenticated(username) && MessageType(payload) == Some("save") ==>
              r == (if GoodName(payload.message).Some?
                    then Dispatch(SaveCmd(GoodName(payload.message).value))
                    else Reject)
    ensures Authenticated(username) && MessageType(payload) == Some("restore") ==>
              r == (if GoodName(payload.message).Some? && GoodRegions(payload.message).Some?
                    then Dispatch(RestoreCmd(GoodName(payload.message).value, GoodRegions(payload.message).value))
                    else Reject)
    // Unknown types are ignored, never answered.
    ensures r == Ignore <==>
              Authenticated(username) && payload.Text? && payload.message.JObj? &&
              Prop(payload.message, "type").Some? && Prop(payload.message, "type").value.JStr? &&
              Prop(payload.message, "type").value.s !in {"auth", "update", "restart", "stop", "save", "restore"}
  {
    match GateAsWritten(username, payload, users)
    case Crash => if payload == Text(JNull) then CloseConnection else Reject
    case v => v
  }

  /** Apart from the two `null` cases, the corrected gate does what the handler as written does. */
  lemma GateAgreesWhenNoCrash(username: Option<string>, payload: Payload, users: seq<User>)
    requires !GateAsWritten(username, payload, users).Crash?
    ensures Gate(username, payload, users) == GateAsWritten(username, payload, users)
  {
  }

  /**
   * The handler as written throws on exactly two kinds of input: the message
   * `null`, and an authenticated restore with a good name whose region array
   * has `null` as its first entry that fails the checks.
   */
  lemma CrashesExactly(username: Option<string>, payload: Payload, users: seq<User>)
    ensures GateAsWritten(username, payload, users) == Crash <==>
              || payload == Text(JNull)
              || (&& Authenticated(username)
                  && MessageType(payload) == Some("restore")
                  && GoodName(payload.message).Some?
                  && Prop(payload.message, "regions").Some?
                  && Prop(payload.message, "regions").value.JArr?
                  && FirstBadIsNull(Prop(payload.message, "regions").value.items))
  {
    if payload.Text? && payload.message.JObj? {
      var m := payload.message;
      if Prop(m, "regions").Some? && Prop(m, "regions").value.JArr? {
        CheckRegionsThrows(Prop(m, "regions").value.items);
      }
    }
  }

  /** The corrected gate logs a `null` region and drops the message; the connection stays open. */
  lemma NullRegionDropped(users: seq<User>)
    ensures Gate(Some("admin"),
              Text(JObj(map["type" := JStr("restore"), "name" := JStr("b"), "regions" := JArr([JNull])])),
              users) == Reject
  {
  }

  /** The per-connection `username` after a message: only `auth` assigns it. */
  function NextUsername(username: Option<string>, v: Verdict): (r: Option<string>)
    ensures v.AuthAnswer? ==> r == v.user
    ensures !v.AuthAnswer? ==> r == username
  {
    if v.AuthAnswer? then v.user else username
  }

  /** A failed re-authentication logs an authenticated connection out. */
  lemma FailedReauthLogsOut(username: Option<string>, login: string, password: string, users: seq<User>)
    requires forall i :: 0 <= i < |users| ==> users[i] != User(login, password)
    ensures var v := Gate(username, Text(JObj(map["type" := JStr("auth"), "login" := JStr(login),
                                                  "password" := JStr(password)])), users);
            v == AuthAnswer(None) && !Authenticated(NextUsername(username, v))
  {
  }

  /**
   * The name check drops every `save` or `restore` whose label holds a
   * character outside the pattern (`;`, `$`, a quote, a backtick, ...),
   * before any store call and without closing the connection.
   */
  lemma ShellNameRejected(username: Option<string>, payload: Payload, users: seq<User>, c: char)
    requires Authenticated(username)
    requires MessageType(payload) == Some("save") || MessageType(payload) == Some("restore")
    requires StringProp(payload.message, "name").Some?
    requires c in StringProp(payload.message, "name").value && !NameChar(c)
    ensures Gate(username, payload, users) == Reject
  {
    var n := StringProp(payload.message, "name").value;
    var i :| 0 <= i < |n| && n[i] == c;
    assert !MatchesNameRegex(n);
  }
}
