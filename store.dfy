/**
 * The snapshot store as the supervisor uses it: a version-controlled world
 * folder abstracted to its branches, its `HEAD` branch and its working tree.
 * A backup is a branch created once by `saveFiles`; restores check a backup
 * out as a whole or path by path.
 */
module Store {
  import opened Base
  import opened Lex
  import opened BackupNames

  type Bytes = seq<bv8>

  /** File contents by path, for the working tree and for committed snapshots. */
  type Tree = map<string, Bytes>

  /** A commit: its snapshot, its parents and its message. */
  datatype Commit = Commit(tree: Tree, parents: seq<Commit>, message: string)

  /**
   * Where a store call throws. Each of the steps of `saveFiles` may fail on
   * I/O; the fault names the first step that does.
   */
  datatype StoreFault =
    | NoFault
    | FailOnStatus     // counting the changed files
    | FailOnBranch     // reading the head commit or creating the branch
    | FailOnHead       // pointing HEAD at the new branch
    | FailOnCommit     // staging, writing the tree or creating the commit

  datatype StoreError = BranchExists(name: string) | NoSuchBranch(name: string) | IoError

  /** Paths where the working tree differs from a snapshot: modified, added or deleted. */
  function ChangedPaths(working: Tree, tree: Tree): (r: set<string>)
    ensures r == {} <==> working == tree
  {
    var r := set p | p in working.Keys + tree.Keys && (p !in working || p !in tree || working[p] != tree[p]);
    assert r == {} ==> working == tree by {
      if r == {} {
        assert working.Keys == tree.Keys by {
          forall p | p in working.Keys + tree.Keys ensures p in working && p in tree {
            assert p !in r;
          }
        }
        forall p | p in working ensures working[p] == tree[p] {
          assert p !in r;
        }
      }
    }
    r
  }

  /** What `saveFiles` leaves behind: its outcome, the branches and HEAD. */
  datatype SaveEffect = SaveEffect(outcome: Outcome<StoreError>, branches: map<string, Commit>, head: string)

  /**
   * `saveFiles(name)`: nothing when no file changed; otherwise a branch `name`
   * at the head commit (never replacing an existing branch), HEAD moved onto
   * it, then a commit of the working tree whose parent is the old head commit
   * and whose message is `name`. A failing step leaves the earlier steps done.
   */
  function SaveSpec(branches: map<string, Commit>, head: string, working: Tree,
                    name: string, fault: StoreFault): SaveEffect
    requires head in branches
  {
    var top := branches[head];
    if fault == FailOnStatus then SaveEffect(Fail(IoError), branches, head)
    else if working == top.tree then SaveEffect(Pass, branches, head)
    else if name in branches then SaveEffect(Fail(BranchExists(name)), branches, head)
    else if fault == FailOnBranch then SaveEffect(Fail(IoError), branches, head)
    else if fault == FailOnHead then SaveEffect(Fail(IoError), branches[name := top], head)
    else if fault == FailOnCommit then SaveEffect(Fail(IoError), branches[name := top], name)
    else SaveEffect(Pass, branches[name := Commit(working, [top], name)], name)
  }

  /** With no changed path the save creates no branch and no commit and keeps HEAD. */
  lemma NoChangesNoBackup(branches: map<string, Commit>, head: string, working: Tree,
                          name: string, fault: StoreFault)
    requires head in branches && ChangedPaths(working, branches[head].tree) == {}
    ensures SaveSpec(branches, head, working, name, fault).branches == branches
    ensures SaveSpec(branches, head, working, name, fault).head == head
    ensures fault != FailOnStatus ==> SaveSpec(branches, head, working, name, fault).outcome == Pass
  {
  }

  /**
   * A save that passes with changes adds exactly the branch `name`, moves HEAD
   * to it, and records the working tree with the old head commit as parent and
   * `name` as message; so afterwards the working tree is clean again.
   */
  lemma SuccessfulSaveRecordsTree(branches: map<string, Commit>, head: string, working: Tree,
                                  name: string)
    requires head in branches && ChangedPaths(working, branches[head].tree) != {}
    requires SaveSpec(branches, head, working, name, NoFault).outcome == Pass
    ensures var e := SaveSpec(branches, head, working, name, NoFault);
            && name !in branches
            && e.branches.Keys == branches.Keys + {name}
            && e.head == name
            && e.branches[name] == Commit(working, [branches[head]], name)
            && ChangedPaths(working, e.branches[e.head].tree) == {}
  {
  }

  /** No outcome of a save removes or rewrites a branch that already existed. */
  lemma SaveNeverRewrites(branches: map<string, Commit>, head: string, working: Tree,
                          name: string, fault: StoreFault)
    requires head in branches
    ensures var e := SaveSpec(branches, head, working, name, fault);
            && e.head in e.branches
            && forall b :: b in branches ==> b in e.branches && e.branches[b] == branches[b]
  {
  }

  /** Whenever a save passes, the working tree equals the tree of the commit HEAD names. */
  lemma PassingSaveLeavesClean(branches: map<string, Commit>, head: string, working: Tree,
                               name: string, fault: StoreFault)
    requires head in branches
    requires SaveSpec(branches, head, working, name, fault).outcome == Pass
    ensures var e := SaveSpec(branches, head, working, name, fault);
            e.head in e.branches && working == e.branches[e.head].tree
  {
  }

  /**
   * The save is not atomic: when the commit step fails, HEAD is left on a new
   * branch that points at the old head commit.
   */
  lemma FailedCommitLeavesHeadMoved(branches: map<string, Commit>, head: string, working: Tree,
                                    name: string)
    requires head in branches && ChangedPaths(working, branches[head].tree) != {}
    requires name !in branches
    ensures var e := SaveSpec(branches, head, working, name, FailOnCommit);
            e.outcome.Fail? && e.head == name && e.head != head && e.branches[name] == branches[head]
  {
  }

  /** A force checkout of `paths` from `tree`: listed paths take the tree's content or disappear. */
  function CheckedOut(working: Tree, tree: Tree, paths: set<string>): (r: Tree)
    ensures forall p :: p !in paths ==> (p in r <==> p in working) && (p in working ==> r[p] == working[p])
    ensures forall p :: p in paths ==> (p in r <==> p in tree) && (p in tree ==> r[p] == tree[p])
  {
    map p | p in (working.Keys - paths) + (tree.Keys * paths) :: if p in paths then tree[p] else working[p]
  }

  /** `.*` stops at the first line terminator. */
  function TakeLine(s: string): (r: string)
    ensures |r| <= |s| && r == s[..|r|]
    ensures forall i :: 0 <= i < |r| ==> !IsLineTerminator(r[i])
    ensures |r| < |s| ==> IsLineTerminator(s[|r|])
    decreases |s|
  {
    if |s| == 0 || IsLineTerminator(s[0]) then "" else [s[0]] + TakeLine(s[1..])
  }

  lemma {:induction false} TakeLineOfPlain(s: string)
    requires forall i :: 0 <= i < |s| ==> !IsLineTerminator(s[i])
    ensures TakeLine(s) == s
  {
  }

  const HeadsPrefix: string := "refs/heads/"

  /** The group captured by `/^refs\/heads\/(.*)+/`, when the reference name matches. */
  function HeadsCapture(ref: string): Option<string> {
    if |ref| >= |HeadsPrefix| && ref[..|HeadsPrefix|] == HeadsPrefix
    then Some(TakeLine(ref[|HeadsPrefix|..]))
    else None
  }

  /** What the `getBackupList` loop keeps: matched captures other than `master`, in order. */
  function Kept(refs: seq<string>): seq<string>
    decreases |refs|
  {
    if refs == [] then []
    else
      var c := HeadsCapture(refs[0]);
      (if c.Some? && c.value != "master" then [c.value] else []) + Kept(refs[1..])
  }

  lemma {:induction false} KeptMembers(refs: seq<string>)
    ensures forall n :: n in Kept(refs) <==>
              exists i :: 0 <= i < |refs| && HeadsCapture(refs[i]) == Some(n) && n != "master"
    decreases |refs|
  {
    if refs != [] {
      KeptMembers(refs[1..]);
      forall n
        ensures n in Kept(refs) <==>
                exists i :: 0 <= i < |refs| && HeadsCapture(refs[i]) == Some(n) && n != "master"
      {
        if n in Kept(refs[1..]) {
          var i :| 0 <= i < |refs[1..]| && HeadsCapture(refs[1..][i]) == Some(n) && n != "master";
          assert refs[i + 1] == refs[1..][i];
        }
        if exists i :: 0 <= i < |refs| && HeadsCapture(refs[i]) == Some(n) && n != "master" {
          var i :| 0 <= i < |refs| && HeadsCapture(refs[i]) == Some(n) && n != "master";
          if i > 0 {
            assert refs[1..][i - 1] == refs[i];
          }
        }
      }
    }
  }

  lemma KeptAppend(refs: seq<string>, r: string)
    ensures Kept(refs + [r]) == Kept(refs) + Kept([r])
    decreases |refs|
  {
    if refs != [] {
      assert (refs + [r])[1..] == refs[1..] + [r];
      KeptAppend(refs[1..], r);
    } else {
      assert refs + [r] == [r];
    }
  }

  /**
   * How often `n` stands in the backup list of a store whose branches are
   * `bs`: once for each branch other than `master`'s capture whose name, up
   * to its first line terminator, is `n`.
   */
  function BackupCount(bs: set<string>, n: string): nat {
    |set b | b in bs && ListedAs(b, n)|
  }

  /** The branch `b` appears in the backup list as `n`. */
  predicate ListedAs(b: string, n: string) {
    TakeLine(b) == n && n != "master"
  }

  /**
   * `list` is the backup list of a store whose branches are `bs`: newest
   * first, holding the captures of the branches other than `master`, each as
   * often as `BackupCount` says.
   */
  ghost predicate BackupListOf(list: seq<string>, bs: set<string>) {
    && Descending(list)
    && (forall n :: n in list <==> exists b :: b in bs && TakeLine(b) == n && n != "master")
    && (forall n :: multiset(list)[n] == BackupCount(bs, n))
  }

  /** `refs` names each branch of `bs` once, as `refs/heads/<b>`, and nothing else. */
  ghost predicate RefsOf(refs: seq<string>, bs: set<string>) {
    && Distinct(refs)
    && (forall i :: 0 <= i < |refs| ==>
          |refs[i]| >= |HeadsPrefix| && refs[i][..|HeadsPrefix|] == HeadsPrefix &&
          refs[i][|HeadsPrefix|..] in bs)
    && (forall b :: b in bs ==> HeadsPrefix + b in refs)
  }

  /** Dropping the first reference drops its branch and keeps one reference per other branch. */
  lemma RefsOfTail(refs: seq<string>, bs: set<string>)
    requires RefsOf(refs, bs) && refs != []
    ensures refs[0] == HeadsPrefix + refs[0][|HeadsPrefix|..]
    ensures RefsOf(refs[1..], bs - {refs[0][|HeadsPrefix|..]})
  {
    var b0, rest := refs[0][|HeadsPrefix|..], refs[1..];
    assert refs[0] == HeadsPrefix + b0;
    forall i | 0 <= i < |rest|
      ensures |rest[i]| >= |HeadsPrefix| && rest[i][..|HeadsPrefix|] == HeadsPrefix &&
              rest[i][|HeadsPrefix|..] in bs - {b0}
    {
      assert rest[i] == refs[i + 1] != refs[0];
      assert rest[i] == HeadsPrefix + rest[i][|HeadsPrefix|..];
    }
    forall b | b in bs - {b0} ensures HeadsPrefix + b in rest {
      var k :| 0 <= k < |refs| && refs[k] == HeadsPrefix + b;
      assert (HeadsPrefix + b)[|HeadsPrefix|..] == b;
      assert rest[k - 1] == refs[k];
    }
    forall i, j | 0 <= i < j < |rest| ensures rest[i] != rest[j] {
      assert rest[i] == refs[i + 1] && rest[j] == refs[j + 1];
    }
  }

  /** Taking one branch out of `bs` lowers the count of its own name by one. */
  lemma BackupCountSplit(bs: set<string>, b0: string, n: string)
    requires b0 in bs
    ensures BackupCount(bs, n) ==
            BackupCount(bs - {b0}, n) + (if ListedAs(b0, n) then 1 else 0)
  {
    var s := set b | b in bs && ListedAs(b, n);
    var s' := s - {b0};
    assert (set b | b in bs - {b0} && ListedAs(b, n)) == s';
    if ListedAs(b0, n) {
      assert s == s' + {b0};
    } else {
      assert s == s';
    }
  }

  /** Over one reference per branch, the loop keeps each name as often as `BackupCount` says. */
  lemma {:induction false} KeptCount(refs: seq<string>, bs: set<string>, n: string)
    requires RefsOf(refs, bs)
    ensures multiset(Kept(refs))[n] == BackupCount(bs, n)
    decreases |refs|
  {
    if refs == [] {
      assert bs == {};
    } else {
      var b0 := refs[0][|HeadsPrefix|..];
      RefsOfTail(refs, bs);
      KeptCount(refs[1..], bs - {b0}, n);
      BackupCountSplit(bs, b0, n);
      var c := HeadsCapture(refs[0]);
      assert c == Some(TakeLine(b0));
      var kept := if c.Some? && c.value != "master" then [c.value] else [];
      assert Kept(refs) == kept + Kept(refs[1..]);
      assert multiset(kept)[n] == if ListedAs(b0, n) then 1 else 0;
    }
  }

  /**
   * With one reference per branch and no line terminator in any branch name,
   * each branch other than `master` stands in the list exactly once.
   */
  lemma PlainBranchesListedOnce(list: seq<string>, bs: set<string>)
    requires forall n :: multiset(list)[n] == BackupCount(bs, n)
    requires forall b :: b in bs ==> TakeLine(b) == b
    ensures Distinct(list)
    ensures forall n :: n in list <==> n in bs && n != "master"
    ensures |list| == |bs - {"master"}|
  {
    forall n ensures multiset(list)[n] == multiset(bs - {"master"})[n] {
      var s := set b | b in bs && ListedAs(b, n);
      if n in bs && n != "master" {
        assert s == {n};
      } else {
        assert s == {};
      }
    }
    assert multiset(list) == multiset(bs - {"master"});
    forall n ensures n in list <==> n in bs && n != "master" {
      assert n in list <==> n in multiset(list);
    }
    SingleCountsDistinct(list);
    SetCard(bs - {"master"});
  }

  /** A list in which no element counts twice has no repeated element. */
  lemma SingleCountsDistinct(list: seq<string>)
    requires forall n :: multiset(list)[n] <= 1
    ensures Distinct(list)
  {
    forall i, j | 0 <= i < j < |list| ensures list[i] != list[j] {
      assert multiset(list)[list[i]] <= 1;
      assert list == list[..j] + list[j..];
      assert multiset(list) == multiset(list[..j]) + multiset(list[j..]);
      assert list[i] in multiset(list[..j]) && list[j] in multiset(list[j..]);
    }
  }

  /** A set and the multiset of its elements have the same size. */
  lemma {:induction false} SetCard(s: set<string>)
    ensures |multiset(s)| == |s|
    decreases |s|
  {
    if s != {} {
      var x :| x in s;
      SetCard(s - {x});
      assert multiset(s) == multiset(s - {x}) + multiset{x};
    }
  }

  /**
   * `getBackupList` over the reference names: the loop keeps the branch names
   * other than `master`, then `sort().reverse()` orders them newest first.
   */
  method GetBackupList(refs: seq<string>) returns (result: seq<string>)
    ensures Descending(result)
    ensures multiset(result) == multiset(Kept(refs))
    ensures forall n :: n in result <==>
              exists i :: 0 <= i < |refs| && HeadsCapture(refs[i]) == Some(n) && n != "master"
  {
    result := [];
    for k := 0 to |refs|
      invariant result == Kept(refs[..k])
    {
      var m := HeadsCapture(refs[k]);
      if m.Some? && m.value != "master" {
        result := result + [m.value];
      }
      KeptAppend(refs[..k], refs[k]);
      assert refs[..k + 1] == refs[..k] + [refs[k]];
    }
    assert refs[..|refs|] == refs;
    SortThenReverse(result);
    KeptMembers(refs);
    var sorted := Reverse(Sort(result));
    assert forall n :: n in sorted <==> n in result by {
      forall n ensures n in sorted <==> n in result {
        assert n in sorted <==> n in multiset(sorted);
        assert n in result <==> n in multiset(result);
      }
    }
    result := sorted;
  }

  class Repo {
    var branches: map<string, Commit>
    var head: string
    var working: Tree

    ghost predicate Valid()
      reads this
    {
      head in branches
    }

    /** `repo.getHeadCommit()`. */
    function HeadCommit(): Commit
      reads this
      requires Valid()
    {
      branches[head]
    }

    /** The working tree holds no change against the head commit. */
    predicate Clean()
      reads this
      requires Valid()
    {
      working == HeadCommit().tree
    }

    /** An opened repository with the given branches, HEAD and working tree. */
    constructor Open(branches0: map<string, Commit>, head0: string, working0: Tree)
      requires head0 in branches0
      ensures Valid()
      ensures branches == branches0 && head == head0 && working == working0
    {
      branches, head, working := branches0, head0, working0;
    }

    /** The counter `c` that `Status.foreach` increments once per changed file. */
    method CountChanges() returns (c: nat)
      requires Valid()
      ensures c == |ChangedPaths(working, HeadCommit().tree)|
      ensures c == 0 <==> Clean()
    {
      var rest := ChangedPaths(working, HeadCommit().tree);
      c := 0;
      while rest != {}
        invariant c + |rest| == |ChangedPaths(working, HeadCommit().tree)|
        decreases |rest|
      {
        var p :| p in rest;
        rest := rest - {p};
        c := c + 1;
      }
    }

    /** `saveFiles(title)` at instant `now`, failing at `fault`. */
    method SaveFiles(title: string, now: Instant, fault: StoreFault) returns (r: Outcome<StoreError>)
      requires Valid() && ValidInstant(now)
      modifies this
      ensures Valid()
      ensures working == old(working)
      ensures SaveEffect(r, branches, head)
              == SaveSpec(old(branches), old(head), old(working), BackupName(now, title), fault)
    {
      r := SaveAs(BackupName(now, title), fault);
    }

    /** The steps of `saveFiles` once the storage name `name` is fixed. */
    method SaveAs(name: string, fault: StoreFault) returns (r: Outcome<StoreError>)
      requires Valid()
      modifies this
      ensures Valid()
      ensures working == old(working)
      ensures SaveEffect(r, branches, head) == SaveSpec(old(branches), old(head), old(working), name, fault)
    {
      if fault == FailOnStatus {
        return Fail(IoError);
      }
      var c := CountChanges();
      if c == 0 {
        return Pass;
      }
      var top := HeadCommit();
      if name in branches {
        return Fail(BranchExists(name));
      }
      if fault == FailOnBranch {
        return Fail(IoError);
      }
      branches := branches[name := top];
      if fault == FailOnHead {
        return Fail(IoError);
      }
      head := name;
      if fault == FailOnCommit {
        return Fail(IoError);
      }
      branches := branches[name := Commit(working, [top], name)];
      r := Pass;
    }

    /**
     * `repo.checkoutRef(await repo.getBranch(name))` on a clean working tree:
     * the working tree becomes the backup's snapshot and HEAD names the backup.
     */
    method CheckoutBranch(name: string, ioFails: bool) returns (r: Outcome<StoreError>)
      requires Valid() && Clean()
      modifies this
      ensures Valid()
      ensures name !in old(branches) ==> r == Fail(NoSuchBranch(name))
      ensures name in old(branches) && ioFails ==> r == Fail(IoError)
      ensures r.Fail? ==> working == old(working) && head == old(head)
      ensures r.Pass? <==> name in old(branches) && !ioFails
      ensures r.Pass? ==> working == old(branches)[name].tree && head == name
      ensures branches == old(branches)
    {
      if name !in branches {
        return Fail(NoSuchBranch(name));
      }
      if ioFails {
        return Fail(IoError);
      }
      working := branches[name].tree;
      head := name;
      r := Pass;
    }

    /**
     * `Checkout.tree` of the backup's snapshot with `FORCE` and a path list:
     * only the listed paths are overwritten (or removed when the snapshot
     * lacks them); HEAD stays where it is.
     */
    method CheckoutPaths(name: string, paths: seq<string>, ioFails: bool) returns (r: Outcome<StoreError>)
      requires Valid()
      modifies this
      ensures Valid()
      ensures name !in old(branches) ==> r == Fail(NoSuchBranch(name))
      ensures name in old(branches) && ioFails ==> r == Fail(IoError)
      ensures r.Fail? ==> working == old(working)
      ensures r.Pass? <==> name in old(branches) && !ioFails
      ensures r.Pass? ==> working == CheckedOut(old(working), old(branches)[name].tree, set p | p in paths)
      ensures branches == old(branches) && head == old(head)
    {
      if name !in branches {
        return Fail(NoSuchBranch(name));
      }
      if ioFails {
        return Fail(IoError);
      }
      working := CheckedOut(working, branches[name].tree, set p | p in paths);
      r := Pass;
    }

    /** `repo.getReferenceNames(...)`: one `refs/heads/<b>` per branch, in no particular order. */
    method ReferenceNames() returns (refs: seq<string>)
      ensures forall i :: 0 <= i < |refs| ==>
                |refs[i]| >= |HeadsPrefix| && refs[i][..|HeadsPrefix|] == HeadsPrefix &&
                refs[i][|HeadsPrefix|..] in branches
      ensures forall b :: b in branches ==> HeadsPrefix + b in refs
      ensures Distinct(refs) && |refs| == |branches|
    {
      var rest := branches.Keys;
      refs := [];
      while rest != {}
        invariant rest <= branches.Keys
        invariant forall i :: 0 <= i < |refs| ==>
                    |refs[i]| >= |HeadsPrefix| && refs[i][..|HeadsPrefix|] == HeadsPrefix &&
                    refs[i][|HeadsPrefix|..] in branches && refs[i][|HeadsPrefix|..] !in rest
        invariant forall b :: b in branches && b !in rest ==> HeadsPrefix + b in refs
        invariant Distinct(refs)
        invariant |refs| + |rest| == |branches.Keys|
        decreases |rest|
      {
        var b :| b in rest;
        var ref := HeadsPrefix + b;
        assert ref[..|HeadsPrefix|] == HeadsPrefix && ref[|HeadsPrefix|..] == b;
        refs := refs + [ref];
        rest := rest - {b};
      }
    }

    /**
     * The backup list: every branch except `master` (its name up to the first
     * line terminator), newest first.
     */
    method ListBackups() returns (names: seq<string>)
      ensures BackupListOf(names, branches.Keys)
      ensures (forall b :: b in branches ==> TakeLine(b) == b) ==>
                Distinct(names) && |names| == |branches.Keys - {"master"}|
    {
      var refs := ReferenceNames();
      names := GetBackupList(refs);
      assert RefsOf(refs, branches.Keys);
      forall n ensures multiset(names)[n] == BackupCount(branches.Keys, n) {
        KeptCount(refs, branches.Keys, n);
      }
      if forall b :: b in branches ==> TakeLine(b) == b {
        PlainBranchesListedOnce(names, branches.Keys);
      }
      forall n ensures n in names <==> exists b :: b in branches && TakeLine(b) == n && n != "master" {
        if n in names {
          var i :| 0 <= i < |refs| && HeadsCapture(refs[i]) == Some(n) && n != "master";
          assert refs[i][|HeadsPrefix|..] in branches;
        }
        if exists b :: b in branches && TakeLine(b) == n && n != "master" {
          var b :| b in branches && TakeLine(b) == n && n != "master";
          var k :| 0 <= k < |refs| && refs[k] == HeadsPrefix + b;
          assert refs[k][|HeadsPrefix|..] == b;
          assert HeadsCapture(refs[k]) == Some(n);
        }
      }
    }
  }
}
