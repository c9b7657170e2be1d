/**
 * The process supervisor: the single lifecycle `state`, the commands that
 * guard it (`startServer`, `restart`, `stop`, `save`, `restore`), the
 * asynchronous continuations that finish them, the client registry with its
 * broadcast, and the dispatch of gated messages.
 *
 * JavaScript's event loop is modelled explicitly: `inFlight` records which
 * continuation the runtime holds, and each continuation is an event method
 * that may only fire when that continuation exists. A child exit that
 * resolves a pending `stop()` runs the close handler and the awaiting
 * caller's continuation in one step, as the promise does.
 */
module Lifecycle {
  import opened Base
  import opened Lex
  import opened Users
  import opened Regions
  import opened Protocol
  import opened BackupNames
  import opened Store

  /** A client connection, by identity. */
  type ConnId = nat

  /** A launched child process; standing in for the `stop` closure bound to it. */
  type ChildId = nat

  /** The `State` union; `Started` carries the stop handle of its child. */
  datatype ServerState = Initial | Starting | Started(stop: ChildId) | Failed | Stopping | Saving | Restoring

  /** `state.type`, the tag broadcast to clients. */
  function TagName(s: ServerState): string {
    match s
    case Initial => "initial"
    case Starting => "starting"
    case Started(_) => "started"
    case Failed => "failed"
    case Stopping => "stopping"
    case Saving => "saving"
    case Restoring => "restoring"
  }

  /** Server-to-client messages. */
  datatype ServerMessage =
    | StateMessage(tag: string)           // { type: "state", value }
    | BackupsMessage(names: seq<string>)  // { type: "backups", value }
    | AuthMessage(success: Option<string>) // { type: "auth", success }

  /** What the supervisor does to the outside world, in order. */
  datatype Effect =
    | Send(conn: ConnId, message: ServerMessage)
    | CloseSocket(conn: ConnId)
    | StdinWrite(child: ChildId, text: string)

  /** What a command does once a running server has stopped (or at once, from `initial`). */
  datatype AfterStop =
    | ThenIdle                                      // stop()
    | ThenStart(force: bool)                        // restart(force): startServer(force)
    | ThenSave(title: string)                       // save(title)
    | ThenRestore(name: string, regions: seq<Region>) // restore(name, regions)

  /** The continuation the runtime holds. */
  datatype Flight =
    | Quiet                                         // nothing pending, no child
    | Launching(force: bool)                        // startServer awaiting eula, delay, jar, spawn
    | Running(child: ChildId)                       // child alive, its close handler armed
    | Halting(child: ChildId, next: AfterStop)      // `/stop` sent, a caller awaits the close
    | Storing(title: string)                        // save awaiting saveFiles
    | Reverting(name: string, regions: seq<Region>) // restore awaiting saveFiles and checkout

  /** What each client command does once the server is idle: `update` is a forced restart. */
  function Continuation(cmd: Command): AfterStop {
    match cmd
    case UpdateCmd => ThenStart(true)
    case RestartCmd => ThenStart(false)
    case StopCmd => ThenIdle
    case SaveCmd(n) => ThenSave(n)
    case RestoreCmd(n, rs) => ThenRestore(n, rs)
  }

  /** The state tag that goes with each pending continuation. */
  function StateOf(f: Flight): ServerState {
    match f
    case Quiet => Initial
    case Launching(_) => Starting
    case Running(c) => Started(c)
    case Halting(_, _) => Stopping
    case Storing(_) => Saving
    case Reverting(_, _) => Restoring
  }

  /** The continuation a command leaves pending when it runs from `initial`. */
  function FlightAfter(next: AfterStop): Flight {
    match next
    case ThenIdle => Quiet
    case ThenStart(f) => Launching(f)
    case ThenSave(t) => Storing(t)
    case ThenRestore(n, rs) => Reverting(n, rs)
  }

  /** `failed` goes with no continuation: the supervisor never enters it. */
  lemma FailedUnreachable(f: Flight)
    ensures StateOf(f) != Failed
  {
  }

  /** The guard of `restart`, `stop`, `save` and `restore`. */
  predicate Idle(s: ServerState) {
    s == Initial || s.Started?
  }

  datatype CommandError =
    | CannotStart   // "Cannot start a running server"
    | NotRunning    // "Server isn't even running. Don't cache `stop` function ..."
    | Busy          // "Server busy"

  /** One `send` per client of the registry, in the registry's order. */
  function Fanout(clients: seq<ConnId>, m: ServerMessage): (r: seq<Effect>)
    ensures |r| == |clients|
    ensures forall i :: 0 <= i < |clients| ==> r[i] == Send(clients[i], m)
  {
    seq(|clients|, i requires 0 <= i < |clients| => Send(clients[i], m))
  }

  /** The broadcasts of `setState` when a continuation starts from `initial`. */
  function Announce(clients: seq<ConnId>, next: AfterStop): seq<Effect> {
    if next == ThenIdle then [] else Fanout(clients, StateMessage(TagName(StateOf(FlightAfter(next)))))
  }

  /** The effects of invoking a child's stop handle. */
  function StoppingEffects(clients: seq<ConnId>, child: ChildId): seq<Effect> {
    Fanout(clients, StateMessage("stopping")) + [StdinWrite(child, "/stop\n")]
  }

  /** `clients.delete(c)`. */
  function Without(cs: seq<ConnId>, c: ConnId): (r: seq<ConnId>)
    ensures forall x :: x in r <==> x in cs && x != c
    ensures Distinct(cs) ==> Distinct(r)
    decreases |cs|
  {
    if cs == [] then []
    else if cs[0] == c then Without(cs[1..], c)
    else
      var rest := Without(cs[1..], c);
      assert Distinct(cs) ==> Distinct([cs[0]] + rest) by {
        if Distinct(cs) {
          assert cs[0] !in cs[1..];
          forall i, j | 0 <= i < j < |[cs[0]] + rest| ensures ([cs[0]] + rest)[i] != ([cs[0]] + rest)[j] {
            if i > 0 {
              assert ([cs[0]] + rest)[i] == rest[i - 1];
            }
            assert ([cs[0]] + rest)[j] == rest[j - 1];
          }
        }
      }
      [cs[0]] + rest
  }

  /** Branches, HEAD and working tree of the store. */
  datatype RepoView = RepoView(branches: map<string, Commit>, head: string, working: Tree)

  function RegionPathSet(regions: seq<Region>): set<string> {
    set r | r in regions :: RegionPath(r)
  }

  /**
   * `restore(name, regions)` on the store: first `saveFiles('rollback')`; only
   * if that passes, check out the whole backup (no regions) or only the region
   * paths; a missing backup or a failing checkout changes no file.
   */
  function RestoreSpec(v: RepoView, name: string, regions: seq<Region>, rollback: string,
                       saveFault: StoreFault, checkoutFails: bool): RepoView
    requires v.head in v.branches
  {
    var e := SaveSpec(v.branches, v.head, v.working, rollback, saveFault);
    if e.outcome.Fail? || name !in e.branches || checkoutFails then RepoView(e.branches, e.head, v.working)
    else if regions == [] then RepoView(e.branches, name, e.branches[name].tree)
    else RepoView(e.branches, e.head, CheckedOut(v.working, e.branches[name].tree, RegionPathSet(regions)))
  }

  /**
   * The rollback save comes first and the checkout never touches branches;
   * a checkout happens only after that save passed, and then the pre-restore
   * working tree is the tree of the branch HEAD named just before the checkout.
   */
  lemma RestoreSavesFirst(v: RepoView, name: string, regions: seq<Region>, rollback: string,
                          saveFault: StoreFault, checkoutFails: bool)
    requires v.head in v.branches
    ensures var e := SaveSpec(v.branches, v.head, v.working, rollback, saveFault);
            var r := RestoreSpec(v, name, regions, rollback, saveFault, checkoutFails);
            && r.branches == e.branches
            && (forall b :: b in v.branches ==> b in r.branches && r.branches[b] == v.branches[b])
            && (r.working != v.working ==> e.outcome.Pass? && e.head in r.branches && r.branches[e.head].tree == v.working)
  {
  }

  /** A whole restore that finds its backup leaves exactly the backup's tree, with HEAD on it. */
  lemma WholeRestoreReplacesTree(v: RepoView, name: string, rollback: string)
    requires v.head in v.branches
    requires SaveSpec(v.branches, v.head, v.working, rollback, NoFault).outcome.Pass?
    requires name in v.branches && name != rollback
    ensures var r := RestoreSpec(v, name, [], rollback, NoFault, false);
            r.working == v.branches[name].tree && r.head == name
  {
  }

  /**
   * A region restore that finds its backup changes only the region paths:
   * each takes the backup's content (or disappears when the backup lacks it),
   * and every other file keeps its pre-restore bytes.
   */
  lemma RegionRestoreTouchesOnlyRegions(v: RepoView, name: string, regions: seq<Region>, rollback: string)
    requires v.head in v.branches && regions != []
    requires SaveSpec(v.branches, v.head, v.working, rollback, NoFault).outcome.Pass?
    requires name in v.branches && name != rollback
    ensures var r := RestoreSpec(v, name, regions, rollback, NoFault, false);
            var t := v.branches[name].tree;
            && (forall p :: p !in RegionPathSet(regions) ==>
                  (p in r.working <==> p in v.working) && (p in v.working ==> r.working[p] == v.working[p]))
            && (forall k :: 0 <= k < |regions| ==>
                  (RegionPath(regions[k]) in r.working <==> RegionPath(regions[k]) in t) &&
                  (RegionPath(regions[k]) in t ==> r.working[RegionPath(regions[k])] == t[RegionPath(regions[k])]))
  {
    SaveNeverRewrites(v.branches, v.head, v.working, rollback, NoFault);
    var r := RestoreSpec(v, name, regions, rollback, NoFault, false);
    forall k | 0 <= k < |regions| ensures RegionPath(regions[k]) in RegionPathSet(regions) {
      assert regions[k] in regions;
    }
  }

  lemma PathsOfRegions(regions: seq<Region>, paths: seq<string>)
    requires |paths| == |regions|
    requires forall k :: 0 <= k < |regions| ==> paths[k] == RegionPath(regions[k])
    ensures (set p | p in paths) == RegionPathSet(regions)
  {
  }

  class Supervisor {
    /** The lifecycle state, broadcast on every change. */
    var state: ServerState
    /** The continuation the runtime holds. */
    var inFlight: Flight
    /** The `clients` set, in insertion order (the order `for...of` visits it). */
    var clients: seq<ConnId>
    /** Each connection's `username`, `None` until an `auth` succeeds. */
    var usernames: map<ConnId, Option<string>>
    /** Everything sent, closed and written so far. */
    var effects: seq<Effect>
    /** The validated credential list. */
    const users: seq<User>
    /** The snapshot store of the world folder. */
    const repo: Repo

    /**
     * The tag always matches the pending continuation (so there is never more
     * than one lifecycle operation or one child at a time, and `failed` never
     * occurs); the registry holds each connection once.
     */
    ghost predicate Valid()
      reads this, repo
    {
      && repo.Valid()
      && state == StateOf(inFlight)
      && Distinct(clients)
      && (forall c :: c in clients ==> c in usernames)
    }

    constructor (users0: seq<User>, repo0: Repo)
      requires repo0.Valid()
      ensures Valid()
      ensures state == Initial && inFlight == Quiet
      ensures clients == [] && usernames == map[] && effects == []
      ensures users == users0 && repo == repo0
    {
      state, inFlight := Initial, Quiet;
      clients, usernames, effects := [], map[], [];
      users, repo := users0, repo0;
    }

    /** `broadcast(message)`: one send per registered client. */
    method Broadcast(m: ServerMessage)
      modifies this`effects
      ensures effects == old(effects) + Fanout(clients, m)
    {
      var i := 0;
      while i < |clients|
        invariant 0 <= i <= |clients|
        invariant effects == old(effects) + Fanout(clients[..i], m)
      {
        assert Fanout(clients[..i + 1], m) == Fanout(clients[..i], m) + [Send(clients[i], m)];
        effects := effects + [Send(clients[i], m)];
        i := i + 1;
      }
      assert clients[..i] == clients;
    }

    /** `setState(s)`: assign, then broadcast the new tag. */
    method SetState(s: ServerState)
      modifies this`state, this`effects
      ensures state == s
      ensures effects == old(effects) + Fanout(clients, StateMessage(TagName(s)))
    {
      state := s;
      Broadcast(StateMessage(TagName(s)));
    }

    /** The synchronous part of `startServer(force)`: the guard and the move to `starting`. */
    method StartServer(force: bool) returns (r: Outcome<CommandError>)
      requires Valid()
      modifies this`state, this`effects, this`inFlight
      ensures Valid()
      ensures old(state) != Initial ==>
                r == Fail(CannotStart) && state == old(state) && inFlight == old(inFlight) && effects == old(effects)
      ensures old(state) == Initial ==>
                r == Pass && inFlight == Launching(force) &&
                effects == old(effects) + Fanout(clients, StateMessage("starting"))
    {
      if state != Initial {
        return Fail(CannotStart);
      }
      SetState(Starting);
      inFlight := Launching(force);
      r := Pass;
    }

    /** The launch finished: the child runs and its stop handle is bound. */
    method StartSucceeded(child: ChildId)
      requires Valid() && inFlight.Launching?
      modifies this`state, this`effects, this`inFlight
      ensures Valid()
      ensures state == Started(child) && inFlight == Running(child)
      ensures effects == old(effects) + Fanout(clients, StateMessage("started"))
    {
      SetState(Started(child));
      inFlight := Running(child);
    }

    /** The launch threw (eula, artifacts, spawn): back to `initial`, with no retry. */
    method StartFailed()
      requires Valid() && inFlight.Launching?
      modifies this`state, this`effects, this`inFlight
      ensures Valid()
      ensures state == Initial && inFlight == Quiet
      ensures effects == old(effects) + Fanout(clients, StateMessage("initial"))
    {
      SetState(Initial);
      inFlight := Quiet;
    }

    /**
     * The `stop` closure of the child `handle`: it checks only that some
     * server is `started`, then moves to `stopping` and writes `/stop` to the
     * child's input.
     */
    method InvokeStop(handle: ChildId) returns (r: Outcome<CommandError>)
      modifies this`state, this`effects
      ensures !old(state).Started? ==> r == Fail(NotRunning) && state == old(state) && effects == old(effects)
      ensures old(state).Started? ==>
                r == Pass && state == Stopping && effects == old(effects) + StoppingEffects(clients, handle)
    {
      if !state.Started? {
        return Fail(NotRunning);
      }
      SetState(Stopping);
      effects := effects + [StdinWrite(handle, "/stop\n")];
      r := Pass;
    }

    /** `await state.stop()`: stop the running child and leave `next` waiting for its exit. */
    method StopThen(next: AfterStop)
      requires Valid() && state.Started?
      modifies this`state, this`effects, this`inFlight
      ensures Valid()
      ensures inFlight == Halting(old(state).stop, next)
      ensures effects == old(effects) + StoppingEffects(clients, old(state).stop)
    {
      var handle := state.stop;
      var stopped := InvokeStop(handle);
      assert stopped == Pass;
      inFlight := Halting(handle, next);
    }

    /** What a command does after the stop (or at once, from `initial`). */
    method Continue(next: AfterStop)
      requires Valid() && inFlight == Quiet
      modifies this`state, this`effects, this`inFlight
      ensures Valid()
      ensures inFlight == FlightAfter(next)
      ensures effects == old(effects) + Announce(clients, next)
    {
      match next
      case ThenIdle =>
      case ThenStart(force) =>
        var started := StartServer(force);
        assert started == Pass;
      case ThenSave(title) =>
        SetState(Saving);
        inFlight := Storing(title);
      case ThenRestore(name, regions) =>
        SetState(Restoring);
        inFlight := Reverting(name, regions);
    }

    /** The guard shared by the four commands, then stop-and-continue or continue. */
    method Command(next: AfterStop) returns (r: Outcome<CommandError>)
      requires Valid()
      modifies this`state, this`effects, this`inFlight
      ensures Valid()
      ensures !Idle(old(state)) ==>
                r == Fail(Busy) && state == old(state) && inFlight == old(inFlight) && effects == old(effects)
      ensures old(state).Started? ==>
                r == Pass && inFlight == Halting(old(state).stop, next) &&
                effects == old(effects) + StoppingEffects(clients, old(state).stop)
      ensures old(state) == Initial ==>
                r == Pass && inFlight == FlightAfter(next) && effects == old(effects) + Announce(clients, next)
    {
      if state != Initial && !state.Started? {
        return Fail(Busy);
      }
      if state.Started? {
        StopThen(next);
      } else {
        Continue(next);
      }
      r := Pass;
    }

    /** `restart(isUpdate)`. */
    method Restart(isUpdate: bool) returns (r: Outcome<CommandError>)
      requires Valid()
      modifies this`state, this`effects, this`inFlight
      ensures Valid()
      ensures r.Fail? <==> !Idle(old(state))
      ensures r.Fail? ==> r.error == Busy && state == old(state) && inFlight == old(inFlight) && effects == old(effects)
      ensures old(state).Started? ==>
                inFlight == Halting(old(state).stop, ThenStart(isUpdate)) &&
                effects == old(effects) + StoppingEffects(clients, old(state).stop)
      ensures old(state) == Initial ==>
                inFlight == Launching(isUpdate) && effects == old(effects) + Fanout(clients, StateMessage("starting"))
    {
      r := Command(ThenStart(isUpdate));
    }

    /** `stop()`: from `initial` nothing happens. */
    method Stop() returns (r: Outcome<CommandError>)
      requires Valid()
      modifies this`state, this`effects, this`inFlight
      ensures Valid()
      ensures r.Fail? <==> !Idle(old(state))
      ensures r.Fail? ==> r.error == Busy && state == old(state) && inFlight == old(inFlight) && effects == old(effects)
      ensures old(state).Started? ==>
                inFlight == Halting(old(state).stop, ThenIdle) &&
                effects == old(effects) + StoppingEffects(clients, old(state).stop)
      ensures old(state) == Initial ==> inFlight == Quiet && effects == old(effects)
    {
      r := Command(ThenIdle);
    }

    /** `save(title)`. */
    method Save(title: string) returns (r: Outcome<CommandError>)
      requires Valid()
      modifies this`state, this`effects, this`inFlight
      ensures Valid()
      ensures r.Fail? <==> !Idle(old(state))
      ensures r.Fail? ==> r.error == Busy && state == old(state) && inFlight == old(inFlight) && effects == old(effects)
      ensures old(state).Started? ==>
                inFlight == Halting(old(state).stop, ThenSave(title)) &&
                effects == old(effects) + StoppingEffects(clients, old(state).stop)
      ensures old(state) == Initial ==>
                inFlight == Storing(title) && effects == old(effects) + Fanout(clients, StateMessage("saving"))
    {
      r := Command(ThenSave(title));
    }

    /** `restore(name, regions)`. */
    method Restore(name: string, regions: seq<Region>) returns (r: Outcome<CommandError>)
      requires Valid()
      modifies this`state, this`effects, this`inFlight
      ensures Valid()
      ensures r.Fail? <==> !Idle(old(state))
      ensures r.Fail? ==> r.error == Busy && state == old(state) && inFlight == old(inFlight) && effects == old(effects)
      ensures old(state).Started? ==>
                inFlight == Halting(old(state).stop, ThenRestore(name, regions)) &&
                effects == old(effects) + StoppingEffects(clients, old(state).stop)
      ensures old(state) == Initial ==>
                inFlight == Reverting(name, regions) && effects == old(effects) + Fanout(clients, StateMessage("restoring"))
    {
      r := Command(ThenRestore(name, regions));
    }

    /**
     * The child exited: the `close` handler, then (when a `stop()` was
     * awaited) the caller's continuation. An exit while `started` is a crash:
     * back to `initial` and `startServer(false)` at once. An expected exit goes
     * to `initial` and runs what the stopping command does next.
     */
    method ChildClosed()
      requires Valid() && (inFlight.Running? || inFlight.Halting?)
      modifies this`state, this`effects, this`inFlight
      ensures Valid()
      ensures old(inFlight).Running? ==>
                inFlight == Launching(false) &&
                effects == old(effects) + Fanout(clients, StateMessage("initial"))
                                        + Fanout(clients, StateMessage("starting"))
      ensures old(inFlight).Halting? ==>
                inFlight == FlightAfter(old(inFlight).next) &&
                effects == old(effects) + Fanout(clients, StateMessage("initial")) + Announce(clients, old(inFlight).next)
    {
      var before := inFlight;
      if state == Stopping {
        inFlight := Quiet;
        SetState(Initial);
      } else if state.Started? {
        inFlight := Quiet;
        SetState(Initial);
        var restarted := StartServer(false);
      } else {
        // Logged as "Server crashed in unexpected state"; no transition.
      }
      if before.Halting? {
        Continue(before.next);
      }
    }

    /**
     * `saveFiles(title)` finished or threw: either way back to `initial`, then
     * the recomputed backup list goes to every client.
     */
    method SaveFinished(now: Instant, fault: StoreFault) returns (backups: seq<string>)
      requires Valid() && inFlight.Storing? && ValidInstant(now)
      modifies this`state, this`effects, this`inFlight, repo
      ensures Valid()
      ensures state == Initial && inFlight == Quiet
      ensures var e := SaveSpec(old(repo.branches), old(repo.head), old(repo.working),
                                BackupName(now, old(inFlight).title), fault);
              repo.branches == e.branches && repo.head == e.head && repo.working == old(repo.working)
      ensures effects == old(effects) + Fanout(clients, StateMessage("initial")) + Fanout(clients, BackupsMessage(backups))
      ensures BackupListOf(backups, repo.branches.Keys)
    {
      var saved := repo.SaveFiles(inFlight.title, now, fault);
      inFlight := Quiet;
      SetState(Initial);
      backups := BroadcastBackups();
    }

    /**
     * The store work of `restore` finished or threw: either way back to
     * `initial`, then the recomputed backup list goes to every client.
     */
    method RestoreFinished(now: Instant, saveFault: StoreFault, checkoutFails: bool) returns (backups: seq<string>)
      requires Valid() && inFlight.Reverting? && ValidInstant(now)
      modifies this`state, this`effects, this`inFlight, repo
      ensures Valid()
      ensures state == Initial && inFlight == Quiet
      ensures RepoView(repo.branches, repo.head, repo.working)
              == RestoreSpec(RepoView(old(repo.branches), old(repo.head), old(repo.working)),
                             old(inFlight).name, old(inFlight).regions, BackupName(now, "rollback"),
                             saveFault, checkoutFails)
      ensures effects == old(effects) + Fanout(clients, StateMessage("initial")) + Fanout(clients, BackupsMessage(backups))
      ensures BackupListOf(backups, repo.branches.Keys)
    {
      RevertStore(inFlight.name, inFlight.regions, now, saveFault, checkoutFails);
      inFlight := Quiet;
      SetState(Initial);
      backups := BroadcastBackups();
    }

    /** `broadcast({ type: "backups", value: await getBackupList() })`. */
    method BroadcastBackups() returns (backups: seq<string>)
      modifies this`effects
      ensures effects == old(effects) + Fanout(clients, BackupsMessage(backups))
      ensures BackupListOf(backups, repo.branches.Keys)
    {
      backups := repo.ListBackups();
      Broadcast(BackupsMessage(backups));
    }

    /** The store part of `restore`: the rollback save, then the checkout if it passed. */
    method RevertStore(name: string, regions: seq<Region>, now: Instant, saveFault: StoreFault, checkoutFails: bool)
      requires repo.Valid() && ValidInstant(now)
      modifies repo
      ensures repo.Valid()
      ensures RepoView(repo.branches, repo.head, repo.working)
              == RestoreSpec(RepoView(old(repo.branches), old(repo.head), old(repo.working)),
                             name, regions, BackupName(now, "rollback"), saveFault, checkoutFails)
    {
      ghost var v := RepoView(repo.branches, repo.head, repo.working);
      if |regions| == 0 {
        var saved := repo.SaveFiles("rollback", now, saveFault);
        if saved.Pass? {
          PassingSaveLeavesClean(v.branches, v.head, v.working, BackupName(now, "rollback"), saveFault);
          var checkedOut := repo.CheckoutBranch(name, checkoutFails);
        }
      } else {
        var paths := RegionPaths(regions);
        PathsOfRegions(regions, paths);
        var saved := repo.SaveFiles("rollback", now, saveFault);
        if saved.Pass? {
          var checkedOut := repo.CheckoutPaths(name, paths, checkoutFails);
        }
      }
    }

    /** A new WebSocket connection joins the registry, not yet authenticated. */
    method Connect(conn: ConnId)
      requires Valid() && conn !in usernames
      modifies this`clients, this`usernames
      ensures Valid()
      ensures clients == old(clients) + [conn]
      ensures usernames == old(usernames)[conn := None]
    {
      clients := clients + [conn];
      usernames := usernames[conn := None];
    }

    /** The connection closed: it leaves the registry; nothing else changes. */
    method Disconnect(conn: ConnId)
      requires Valid()
      modifies this`clients
      ensures Valid()
      ensures clients == Without(old(clients), conn)
    {
      clients := Without(clients, conn);
    }

    /** Runs a gated command, fire and forget: a `Busy` rejection is dropped. */
    method Dispatch(cmd: Command)
      requires Valid()
      modifies this`state, this`effects, this`inFlight
      ensures Valid()
      ensures !Idle(old(state)) ==> state == old(state) && inFlight == old(inFlight) && effects == old(effects)
      ensures old(state).Started? ==>
                inFlight == Halting(old(state).stop, Continuation(cmd)) &&
                effects == old(effects) + StoppingEffects(clients, old(state).stop)
      ensures old(state) == Initial ==>
                inFlight == FlightAfter(Continuation(cmd)) &&
                effects == old(effects) + Announce(clients, Continuation(cmd))
    {
      var ignored: Outcome<CommandError>;
      match cmd
      case UpdateCmd => ignored := Restart(true);
      case RestartCmd => ignored := Restart(false);
      case StopCmd => ignored := Stop();
      case SaveCmd(n) => ignored := Save(n);
      case RestoreCmd(n, rs) => ignored := Restore(n, rs);
    }

    /**
     * `ws.on("message")` for the connection `conn`: gate the payload, update
     * the connection's username, then act on the verdict.
     */
    method HandleMessage(conn: ConnId, payload: Payload) returns (verdict: Verdict, pushed: seq<string>)
      requires Valid() && conn in clients
      modifies this`state, this`effects, this`inFlight, this`usernames
      ensures Valid()
      ensures verdict == Gate(old(usernames)[conn], payload, users)
      ensures usernames == old(usernames)[conn := NextUsername(old(usernames)[conn], verdict)]
      ensures !verdict.Dispatch? ==> state == old(state) && inFlight == old(inFlight)
      ensures verdict == CloseConnection ==> effects == old(effects) + [CloseSocket(conn)]
      ensures verdict.AuthAnswer? ==>
                effects == old(effects) + [Send(conn, AuthMessage(verdict.user))] +
                  (if Authenticated(verdict.user)
                   then [Send(conn, StateMessage(TagName(state))), Send(conn, BackupsMessage(pushed))]
                   else [])
      ensures verdict.AuthAnswer? && Authenticated(verdict.user) ==>
                BackupListOf(pushed, repo.branches.Keys)
      ensures verdict == Reject || verdict == Ignore ==> effects == old(effects)
      ensures verdict.Dispatch? && !Idle(old(state)) ==>
                state == old(state) && inFlight == old(inFlight) && effects == old(effects)
      ensures verdict.Dispatch? && old(state).Started? ==>
                inFlight == Halting(old(state).stop, Continuation(verdict.command)) &&
                effects == old(effects) + StoppingEffects(clients, old(state).stop)
      ensures verdict.Dispatch? && old(state) == Initial ==>
                inFlight == FlightAfter(Continuation(verdict.command)) &&
                effects == old(effects) + Announce(clients, Continuation(verdict.command))
    {
      pushed := [];
      verdict := Gate(usernames[conn], payload, users);
      usernames := usernames[conn := NextUsername(usernames[conn], verdict)];
      match verdict
      case CloseConnection =>
        effects := effects + [CloseSocket(conn)];
      case AuthAnswer(user) =>
        effects := effects + [Send(conn, AuthMessage(user))];
        if Authenticated(user) {
          effects := effects + [Send(conn, StateMessage(TagName(state)))];
          pushed := repo.ListBackups();
          effects := effects + [Send(conn, BackupsMessage(pushed))];
        }
      case Dispatch(cmd) =>
        Dispatch(cmd);
      case Reject =>
      case Ignore =>
    }
  }
}
