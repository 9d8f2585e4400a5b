/** What a reconciliation pass achieves, proved of the functions of module
    Reconcile (and so, through their contracts, of the methods of module
    Sync). Each property is proved for one level (`Level...`), for the loop
    over a level's source listing (`Entries...`) and for one turn of it
    (`Step...`), by induction on the source tree. */
module Properties {
  import opened Tree
  import opened Names
  import opened Reconcile

  // ---------------------------------------------------------------------
  // A pass succeeds exactly when no kinds clash

  lemma {:induction false} LevelSucceedsIff(src: Node, rep: Option<Node>, at: Path)
    ensures SyncLevel(src, rep, at).Ok? <==> src.Dir? && Compatible(src, rep)
    decreases src, 2
  {
    if src.Dir? {
      var start := Start(rep);
      EntriesSucceedIff(src, Listing(src.children.Keys), start, at);
      if start.Dir? {
        forall n | n in src.children
          ensures Compatible(src.children[n], Child(start.children, n))
              <==> (n in start.children ==> Compatible(src.children[n], Some(start.children[n])))
        {
        }
      }
    }
  }

  lemma {:induction false} EntriesSucceedIff(src: Node, names: seq<string>, cur: Node, at: Path)
    requires src.Dir? && Distinct(names) && forall n :: n in names ==> n in src.children
    ensures SyncEntries(src, names, cur, at).Ok? <==>
      cur.Dir? && forall n :: n in names ==> Compatible(src.children[n], Child(cur.children, n))
    decreases src, 1, |names|
  {
    if names != [] {
      var n := names[0];
      StepSucceedsIff(src, n, cur, at);
      var step := Step(src, n, cur, at);
      if step.Ok? {
        EntriesSucceedIff(src, names[1..], step.tree, at);
        forall m | m in names[1..] ensures Child(step.tree.children, m) == Child(cur.children, m) {
          assert m != n;
        }
      }
    }
  }

  lemma {:induction false} StepSucceedsIff(src: Node, n: string, cur: Node, at: Path)
    requires src.Dir? && n in src.children
    ensures Step(src, n, cur, at).Ok? <==> cur.Dir? && Compatible(src.children[n], Child(cur.children, n))
    decreases src, 0
  {
    if cur.Dir? && src.children[n].Dir? {
      LevelSucceedsIff(src.children[n], Child(cur.children, n), at + [n]);
    }
  }

  // ---------------------------------------------------------------------
  // Convergence: a pass that succeeds leaves the replica equal to the source

  lemma {:induction false} LevelConverges(src: Node, rep: Option<Node>, at: Path)
    ensures SyncLevel(src, rep, at).Ok? ==> SyncLevel(src, rep, at).tree == src
    decreases src, 2
  {
    if src.Dir? {
      EntriesConverge(src, Listing(src.children.Keys), Start(rep), at);
    }
  }

  lemma {:induction false} EntriesConverge(src: Node, names: seq<string>, cur: Node, at: Path)
    requires src.Dir? && Distinct(names) && forall n :: n in names ==> n in src.children
    requires forall n :: n in src.children && n !in names ==>
      cur.Dir? && n in cur.children && cur.children[n] == src.children[n]
    ensures SyncEntries(src, names, cur, at).Ok? ==> SyncEntries(src, names, cur, at).tree == src
    decreases src, 1, |names|
  {
    if names == [] {
      FinishConverges(src, cur, at);
    } else {
      var n := names[0];
      var step := Step(src, n, cur, at);
      if step.Ok? {
        StepConverges(src, n, cur, at);
        assert step.tree.Dir? && step.tree.children == cur.children[n := src.children[n]];
        assert forall m :: m in src.children && m !in names[1..] ==> m == n || m !in names;
        EntriesConverge(src, names[1..], step.tree, at);
        assert SyncEntries(src, names, cur, at) == Prepend(step.log, SyncEntries(src, names[1..], step.tree, at));
      }
    }
  }

  /** The deletions after a loop that has mirrored every source entry leave
      the replica equal to the source. */
  lemma FinishConverges(src: Node, cur: Node, at: Path)
    requires src.Dir? && forall n :: n in src.children ==>
      cur.Dir? && n in cur.children && cur.children[n] == src.children[n]
    ensures Finish(src, cur, at).Ok? ==> Finish(src, cur, at).tree == src
  {
    if cur.Dir? {
      PurgeMirrors(Listing(src.children.Keys), Listing(cur.children.Keys), cur.children, src.children, at);
    }
  }

  /** Deleting, from a directory that already holds every entry of `target`
      unchanged, what a listing of `target` does not name leaves exactly
      `target`. */
  lemma PurgeMirrors(sourceItems: seq<string>, replicaItems: seq<string>, children: map<string, Node>,
                     target: map<string, Node>, at: Path)
    requires Distinct(replicaItems)
    requires forall n :: n in sourceItems <==> n in target
    requires forall n :: n in replicaItems <==> n in children
    requires forall n :: n in target ==> n in children && children[n] == target[n]
    ensures Purge(sourceItems, replicaItems, children, at).0 == target
  {
    var kept := Purge(sourceItems, replicaItems, children, at).0;
    assert kept.Keys == target.Keys;
  }

  lemma {:induction false} StepConverges(src: Node, n: string, cur: Node, at: Path)
    requires src.Dir? && n in src.children
    ensures Step(src, n, cur, at).Ok? ==>
      cur.Dir? && Step(src, n, cur, at).tree == Dir(cur.children[n := src.children[n]])
    decreases src, 0
  {
    if cur.Dir? && src.children[n].Dir? {
      LevelConverges(src.children[n], Child(cur.children, n), at + [n]);
    }
  }

  // ---------------------------------------------------------------------
  // Idempotence: a replica equal to the source is left alone, silently

  lemma {:induction false} LevelIdempotent(src: Node, at: Path)
    requires src.Dir?
    ensures SyncLevel(src, Some(src), at) == Ok(src, [])
    decreases src, 2
  {
    EntriesIdempotent(src, Listing(src.children.Keys), at);
  }

  lemma {:induction false} EntriesIdempotent(src: Node, names: seq<string>, at: Path)
    requires src.Dir? && forall n :: n in names ==> n in src.children
    ensures SyncEntries(src, names, src, at) == Ok(src, [])
    decreases src, 1, |names|
  {
    if names == [] {
      var purged := Purge(Listing(src.children.Keys), Listing(src.children.Keys), src.children, at);
      assert purged.0 == src.children;
    } else {
      StepIdempotent(src, names[0], at);
      EntriesIdempotent(src, names[1..], at);
    }
  }

  lemma {:induction false} StepIdempotent(src: Node, n: string, at: Path)
    requires src.Dir? && n in src.children
    ensures Step(src, n, src, at) == Ok(src, [])
    decreases src, 0
  {
    var child := src.children[n];
    if child.Dir? {
      LevelIdempotent(child, at + [n]);
    }
    assert src.children[n := child] == src.children;
  }

  // ---------------------------------------------------------------------
  // Every change is logged: a pass that logs nothing changed nothing

  lemma {:induction false} LevelSilentMeansUnchanged(src: Node, rep: Option<Node>, at: Path)
    ensures SyncLevel(src, rep, at).log == [] ==> rep == Some(SyncLevel(src, rep, at).tree)
    decreases src, 2
  {
    if src.Dir? && rep.Some? {
      EntriesSilentMeansUnchanged(src, Listing(src.children.Keys), rep.value, at);
    }
  }

  lemma {:induction false} EntriesSilentMeansUnchanged(src: Node, names: seq<string>, cur: Node, at: Path)
    requires src.Dir? && forall n :: n in names ==> n in src.children
    ensures SyncEntries(src, names, cur, at).log == [] ==> SyncEntries(src, names, cur, at).tree == cur
    decreases src, 1, |names|
  {
    if names == [] {
      if cur.Dir? {
        var purged := Purge(Listing(src.children.Keys), Listing(cur.children.Keys), cur.children, at);
        if purged.1 == [] {
          assert purged.0 == cur.children;
        }
      }
    } else {
      var step := Step(src, names[0], cur, at);
      StepSilentMeansUnchanged(src, names[0], cur, at);
      if step.Ok? {
        EntriesSilentMeansUnchanged(src, names[1..], step.tree, at);
      }
    }
  }

  lemma {:induction false} StepSilentMeansUnchanged(src: Node, n: string, cur: Node, at: Path)
    requires src.Dir? && n in src.children
    ensures Step(src, n, cur, at).log == [] ==> Step(src, n, cur, at).tree == cur
    decreases src, 0
  {
    if cur.Dir? {
      var child := src.children[n];
      var sub := SyncChild(child, Child(cur.children, n), at + [n]);
      if child.Dir? {
        LevelSilentMeansUnchanged(child, Child(cur.children, n), at + [n]);
      }
      if sub.log == [] {
        assert n in cur.children && cur.children[n] == sub.tree;
        assert cur.children[n := sub.tree] == cur.children;
      }
    }
  }

  /** A pass makes no change and logs nothing exactly when the replica
      already equals the source. */
  lemma InSyncIffQuiet(src: Node, rep: Option<Node>, at: Path)
    requires src.Dir?
    ensures SyncLevel(src, rep, at) == Ok(src, []) <==> rep == Some(src)
  {
    LevelSilentMeansUnchanged(src, rep, at);
    if rep == Some(src) {
      LevelIdempotent(src, at);
    }
  }

  // ---------------------------------------------------------------------
  // A failed pass leaves a clash behind, so the next pass fails again

  lemma {:induction false} LevelFailLeavesClash(src: Node, rep: Option<Node>, at: Path)
    requires src.Dir?
    ensures SyncLevel(src, rep, at).Fail? ==> !Compatible(src, Some(SyncLevel(src, rep, at).tree))
    decreases src, 2
  {
    EntriesFailLeavesClash(src, Listing(src.children.Keys), Start(rep), at);
  }

  lemma {:induction false} EntriesFailLeavesClash(src: Node, names: seq<string>, cur: Node, at: Path)
    requires src.Dir? && forall n :: n in names ==> n in src.children
    ensures SyncEntries(src, names, cur, at).Fail? ==> !Compatible(src, Some(SyncEntries(src, names, cur, at).tree))
    decreases src, 1, |names|
  {
    if names != [] {
      var step := Step(src, names[0], cur, at);
      StepFailLeavesClash(src, names[0], cur, at);
      if step.Ok? {
        EntriesFailLeavesClash(src, names[1..], step.tree, at);
      }
    }
  }

  lemma {:induction false} StepFailLeavesClash(src: Node, n: string, cur: Node, at: Path)
    requires src.Dir? && n in src.children
    ensures Step(src, n, cur, at).Fail? ==> !Compatible(src, Some(Step(src, n, cur, at).tree))
    decreases src, 0
  {
    if cur.Dir? {
      var child := src.children[n];
      var sub := SyncChild(child, Child(cur.children, n), at + [n]);
      if child.Dir? {
        LevelFailLeavesClash(child, Child(cur.children, n), at + [n]);
      }
      var tree := Step(src, n, cur, at).tree;
      if sub.Fail? {
        assert n in tree.children && tree.children[n] == sub.tree;
        assert !Compatible(child, Some(sub.tree));
      }
    }
  }

  /** The replica directory `after` is what the loop over `names`, started
      on the directory `cur`, leaves when its turn `k` fails: the entries of
      the turns before `k` equal their source entries, the entry of turn `k`
      clashed with the source, and no other entry has changed. */
  ghost predicate FailedAt(src: Node, names: seq<string>, cur: Node, after: Node, k: int)
    requires src.Dir? && cur.Dir? && after.Dir? && forall n :: n in names ==> n in src.children
  {
    0 <= k < |names|
    && (forall i :: 0 <= i < k ==> Child(after.children, names[i]) == Some(src.children[names[i]]))
    && !Compatible(src.children[names[k]], Child(cur.children, names[k]))
    && (forall n :: n !in names[..k + 1] ==> Child(after.children, n) == Child(cur.children, n))
  }

  /** A failed loop over a replica directory keeps what it did before the
      failing turn: no entry is removed, the turns before it have mirrored
      their entries, and nothing after it has run. */
  lemma {:induction false} EntriesFailKeepsProgress(src: Node, names: seq<string>, cur: Node, at: Path)
    requires src.Dir? && Distinct(names) && forall n :: n in names ==> n in src.children
    ensures var r := SyncEntries(src, names, cur, at);
      r.Fail? && cur.Dir? ==>
        r.tree.Dir? && cur.children.Keys <= r.tree.children.Keys
        && exists k :: FailedAt(src, names, cur, r.tree, k)
    decreases |names|
  {
    var r := SyncEntries(src, names, cur, at);
    if names != [] && r.Fail? && cur.Dir? {
      var n := names[0];
      var step := Step(src, n, cur, at);
      StepSucceedsIff(src, n, cur, at);
      if step.Fail? {
        assert names[..1] == [n];
        assert FailedAt(src, names, cur, r.tree, 0);
      } else {
        var rest := SyncEntries(src, names[1..], step.tree, at);
        StepConverges(src, n, cur, at);
        DistinctTail(names);
        EntriesFailKeepsProgress(src, names[1..], step.tree, at);
        var k :| FailedAt(src, names[1..], step.tree, rest.tree, k);
        assert names[..k + 2] == [n] + names[1..][..k + 1];
        assert n !in names[1..][..k + 1];
        assert names[k + 1] != n;
        assert FailedAt(src, names, cur, r.tree, k + 1) by {
          forall i | 0 <= i < k + 1
            ensures Child(r.tree.children, names[i]) == Some(src.children[names[i]])
          {
            if i > 0 {
              assert names[i] == names[1..][i - 1];
            }
          }
        }
      }
    }
  }

  /** A failed pass over a replica directory has removed nothing from it. */
  lemma LevelFailKeepsEntries(src: Node, rep: Option<Node>, at: Path)
    ensures var r := SyncLevel(src, rep, at);
      r.Fail? && src.Dir? && Start(rep).Dir? ==>
        r.tree.Dir? && Start(rep).children.Keys <= r.tree.children.Keys
        && exists k :: FailedAt(src, Listing(src.children.Keys), Start(rep), r.tree, k)
  {
    if src.Dir? {
      EntriesFailKeepsProgress(src, Listing(src.children.Keys), Start(rep), at);
    }
  }

  /** A pass that fails is not repaired by the passes after it: run again
      on what it left behind, it fails again and changes nothing, so every
      later pass ends in the same replica. */
  lemma {:induction false} LevelRetryStuck(src: Node, rep: Option<Node>, at: Path)
    ensures var r := SyncLevel(src, rep, at);
      r.Fail? ==> SyncLevel(src, Some(r.tree), at).Fail? && SyncLevel(src, Some(r.tree), at).tree == r.tree
    decreases src, 2
  {
    if src.Dir? {
      EntriesRetryStuck(src, Listing(src.children.Keys), Start(rep), at);
    }
  }

  lemma {:induction false} EntriesRetryStuck(src: Node, names: seq<string>, cur: Node, at: Path)
    requires src.Dir? && Distinct(names) && forall n :: n in names ==> n in src.children
    ensures var r := SyncEntries(src, names, cur, at);
      r.Fail? ==> SyncEntries(src, names, r.tree, at).Fail? && SyncEntries(src, names, r.tree, at).tree == r.tree
    decreases src, 1, |names|
  {
    var r := SyncEntries(src, names, cur, at);
    if names != [] && r.Fail? {
      var n := names[0];
      var step := Step(src, n, cur, at);
      StepRetryStuck(src, n, cur, at);
      if step.Ok? {
        var rest := SyncEntries(src, names[1..], step.tree, at);
        StepConverges(src, n, cur, at);
        DistinctTail(names);
        EntriesFailKeepsProgress(src, names[1..], step.tree, at);
        var k :| FailedAt(src, names[1..], step.tree, rest.tree, k);
        assert n !in names[1..][..k + 1];
        StepMirrored(src, n, rest.tree, at);
        EntriesRetryStuck(src, names[1..], step.tree, at);
      }
    }
  }

  lemma {:induction false} StepRetryStuck(src: Node, n: string, cur: Node, at: Path)
    requires src.Dir? && n in src.children
    ensures var r := Step(src, n, cur, at);
      r.Fail? ==> Step(src, n, r.tree, at).Fail? && Step(src, n, r.tree, at).tree == r.tree
    decreases src, 0
  {
    if cur.Dir? {
      var child := src.children[n];
      var sub := SyncChild(child, Child(cur.children, n), at + [n]);
      if child.Dir? {
        LevelRetryStuck(child, Child(cur.children, n), at + [n]);
      }
      var t := Step(src, n, cur, at).tree;
      if sub.Fail? {
        assert Child(t.children, n) == Some(sub.tree);
        assert t.children[n := sub.tree] == t.children;
      }
    }
  }

  /** A turn over an entry that already equals its source entry is silent
      and changes nothing, whatever the rest of the directory holds. */
  lemma StepMirrored(src: Node, n: string, cur: Node, at: Path)
    requires src.Dir? && n in src.children
    requires cur.Dir? && Child(cur.children, n) == Some(src.children[n])
    ensures Step(src, n, cur, at) == Ok(cur, [])
  {
    if src.children[n].Dir? {
      LevelIdempotent(src.children[n], at + [n]);
    }
    assert cur.children[n := src.children[n]] == cur.children;
  }

  // ---------------------------------------------------------------------
  // The log: where events point, the creation event, deletions last

  /** `e` was logged while the loop handled one of the source entries of the
      directory `src` at `at`: it concerns that entry or something below it,
      and it is not the removal of that entry. */
  predicate Handled(e: Event, at: Path, src: Node) {
    !e.Failed? && Below(at, e.path) && src.Dir? && e.path[|at|] in src.children
    && !(e.Removed? && |e.path| == |at| + 1)
  }

  /** `e` removes an entry of the replica directory at `at` that the source
      directory `src` does not have. */
  predicate OrphanRemoval(e: Event, at: Path, src: Node) {
    src.Dir? && e.Removed? && |e.path| == |at| + 1 && Below(at, e.path) && e.path[|at|] !in src.children
  }

  lemma BelowChild(at: Path, n: string, p: Path)
    requires Below(at + [n], p)
    ensures Below(at, p) && p[|at|] == n && |p| > |at| + 1
  {
    assert p[..|at|] == p[..|at| + 1][..|at|];
    assert p[|at|] == p[..|at| + 1][|at|];
  }

  /** Every event of a pass over `at` concerns `at` or a path below it; the
      only event about `at` itself is the creation of a missing replica
      directory, which is logged once, first, and only then; removals of the
      orphans of `at` come after everything else logged at that level; and a
      pass that succeeds removes exactly the entries of the replica
      directory that the source directory lacks. */
  lemma {:induction false} LevelLog(src: Node, rep: Option<Node>, at: Path)
    ensures var r := SyncLevel(src, rep, at);
      forall e :: e in r.log ==> !e.Failed? && (e == Copied(at) || Below(at, e.path))
    ensures var r := SyncLevel(src, rep, at);
      rep.None? ==> |r.log| > 0 && r.log[0] == Copied(at)
    ensures var r := SyncLevel(src, rep, at);
      forall i :: 0 <= i < |r.log| && r.log[i] == Copied(at) ==> i == 0 && rep.None?
    ensures var r := SyncLevel(src, rep, at);
      forall i, j :: 0 <= i < j < |r.log| && OrphanRemoval(r.log[i], at, src) ==> OrphanRemoval(r.log[j], at, src)
    ensures var r := SyncLevel(src, rep, at);
      r.Ok? ==> forall n :: Removed(at + [n]) in r.log <==>
        rep.Some? && rep.value.Dir? && n in rep.value.children && n !in src.children
    decreases src, 2
  {
    if src.Dir? {
      var start := Start(rep);
      var created: seq<Event> := if rep.None? then [Copied(at)] else [];
      var inner := SyncEntries(src, Listing(src.children.Keys), start, at);
      EntriesLog(src, Listing(src.children.Keys), start, at);
      var log := created + inner.log;
      assert SyncLevel(src, rep, at).log == log;
      forall i | |created| <= i < |log| ensures log[i] == inner.log[i - |created|] && !log[i].Failed? && Below(at, log[i].path) {
        assert inner.log[i - |created|] in inner.log;
      }
      forall n | Removed(at + [n]) in log ensures Removed(at + [n]) in inner.log {
      }
    }
  }

  lemma {:induction false} EntriesLog(src: Node, names: seq<string>, cur: Node, at: Path)
    requires src.Dir? && forall n :: n in names ==> n in src.children
    ensures var r := SyncEntries(src, names, cur, at);
      forall e :: e in r.log ==> (Handled(e, at, src) && e.path[|at|] in names) || OrphanRemoval(e, at, src)
    ensures var r := SyncEntries(src, names, cur, at);
      forall i, j :: 0 <= i < j < |r.log| && OrphanRemoval(r.log[i], at, src) ==> OrphanRemoval(r.log[j], at, src)
    ensures var r := SyncEntries(src, names, cur, at);
      r.Ok? ==> forall n :: Removed(at + [n]) in r.log <==> cur.Dir? && n in cur.children && n !in src.children
    decreases src, 1, |names|
  {
    if names == [] {
      if cur.Dir? {
        var purged := Purge(Listing(src.children.Keys), Listing(cur.children.Keys), cur.children, at);
        forall e | e in purged.1 ensures OrphanRemoval(e, at, src) {
          var m := e.path[|at|];
          assert e == Removed(at + [m]);
        }
      }
    } else {
      var n := names[0];
      var step := Step(src, n, cur, at);
      StepLog(src, n, cur, at);
      if step.Ok? {
        var rest := SyncEntries(src, names[1..], step.tree, at);
        EntriesLog(src, names[1..], step.tree, at);
        var log := step.log + rest.log;
        assert SyncEntries(src, names, cur, at).log == log;
        forall i | |step.log| <= i < |log| ensures log[i] == rest.log[i - |step.log|] {
        }
        forall i | 0 <= i < |step.log| ensures !OrphanRemoval(log[i], at, src) {
          assert log[i] in step.log;
        }
        forall m ensures Removed(at + [m]) !in step.log {
        }
      } else {
        forall i | 0 <= i < |step.log| ensures !OrphanRemoval(step.log[i], at, src) {
          assert step.log[i] in step.log;
        }
      }
    }
  }

  lemma {:induction false} StepLog(src: Node, n: string, cur: Node, at: Path)
    requires src.Dir? && n in src.children
    ensures forall e :: e in Step(src, n, cur, at).log ==> Handled(e, at, src) && e.path[|at|] == n
    decreases src, 0
  {
    assert (at + [n])[..|at|] == at && (at + [n])[|at|] == n;
    if cur.Dir? && src.children[n].Dir? {
      var sub := SyncLevel(src.children[n], Child(cur.children, n), at + [n]);
      LevelLog(src.children[n], Child(cur.children, n), at + [n]);
      forall e | e in sub.log ensures Handled(e, at, src) && e.path[|at|] == n {
        if e != Copied(at + [n]) {
          BelowChild(at, n, e.path);
        }
      }
    }
  }

  // ---------------------------------------------------------------------
  // Whole passes

  /** The first pass onto a missing replica copies the whole source tree. */
  lemma FirstPassCopiesAll(src: Node)
    requires src.Dir?
    ensures SyncLevel(src, None, []).Ok?
    ensures SyncLevel(src, None, []).tree == src
  {
    LevelSucceedsIff(src, None, []);
    LevelConverges(src, None, []);
  }

  /** After a pass that succeeds, a second pass over the unchanged source
      changes nothing and logs nothing. */
  lemma SecondPassQuiet(src: Node, rep: Option<Node>)
    requires SyncLevel(src, rep, []).Ok?
    ensures var t := SyncLevel(src, rep, []).tree;
      SyncLevel(src, Some(t), []) == Ok(t, [])
  {
    LevelSucceedsIff(src, rep, []);
    LevelConverges(src, rep, []);
    LevelIdempotent(src, []);
  }

  // ---------------------------------------------------------------------
  // The log of a successful pass lists every change exactly once

  ghost function Elems(log: seq<Event>): (r: set<Event>) {
    set e | e in log
  }

  /** The changes a pass of `src` over `rep` at `at` makes: a missing
      replica entry is created (`Copied`) together with everything below it,
      a replica file whose content differs is replaced (`Replaced`), and a
      replica entry with no source entry of its name is removed as a whole
      (`Removed`, for the entry only, nothing below it). */
  ghost function Changes(src: Node, rep: Option<Node>, at: Path): (r: set<Event>)
    decreases src
  {
    match src
    case File(c) =>
      if rep.None? then {Copied(at)}
      else if rep.value.File? && rep.value.content != c then {Replaced(at)}
      else {}
    case Dir(s) =>
      var before := if rep.Some? && rep.value.Dir? then rep.value.children else map[];
      (if rep.None? then {Copied(at)} else {})
      + (set n, e | n in s && e in Changes(s[n], Child(before, n), at + [n]) :: e)
      + (set n | n in before && n !in s :: Removed(at + [n]))
  }

  /** The changes made by the loop over `names` and the deletions after it,
      when the replica directory is `cur`. */
  ghost function EntriesChanges(src: Node, names: seq<string>, cur: Node, at: Path): (r: set<Event>)
    requires src.Dir? && cur.Dir? && forall n :: n in names ==> n in src.children
  {
    (set n, e | n in names && e in Changes(src.children[n], Child(cur.children, n), at + [n]) :: e)
    + (set n | n in cur.children && n !in src.children :: Removed(at + [n]))
  }

  /** A pass that succeeds logs each change it makes once, and nothing else. */
  lemma {:induction false} LevelLogsChanges(src: Node, rep: Option<Node>, at: Path)
    ensures var r := SyncLevel(src, rep, at);
      r.Ok? ==> Distinct(r.log) && Elems(r.log) == Changes(src, rep, at)
    decreases src, 2
  {
    var r := SyncLevel(src, rep, at);
    if src.Dir? && r.Ok? {
      var start := Start(rep);
      var names := Listing(src.children.Keys);
      var created: seq<Event> := if rep.None? then [Copied(at)] else [];
      var inner := SyncEntries(src, names, start, at);
      assert inner.Ok?;
      EntriesLogsChanges(src, names, start, at);
      EntriesLog(src, names, start, at);
      assert r.log == created + inner.log;
      forall e | e in inner.log ensures e != Copied(at) {
        assert Handled(e, at, src) || OrphanRemoval(e, at, src);
      }
      CreatedFirst(created, inner.log, at);
      ChangesOfDir(src, rep, at);
    }
  }

  /** Logging the creation of a level before a log that does not already
      hold it keeps the events distinct and adds just the creation. */
  lemma CreatedFirst(created: seq<Event>, log: seq<Event>, at: Path)
    requires created == [] || created == [Copied(at)]
    requires Distinct(log) && Copied(at) !in log
    ensures Distinct(created + log)
    ensures Elems(created + log) == Elems(created) + Elems(log)
  {
    DistinctConcat(created, log);
  }

  /** The changes of a directory level: the creation, then those of the loop
      and the deletions. */
  lemma ChangesOfDir(src: Node, rep: Option<Node>, at: Path)
    requires src.Dir? && Start(rep).Dir?
    ensures Changes(src, rep, at)
         == (if rep.None? then {Copied(at)} else {})
          + EntriesChanges(src, Listing(src.children.Keys), Start(rep), at)
  {
    var names := Listing(src.children.Keys);
    var before := if rep.Some? && rep.value.Dir? then rep.value.children else map[];
    assert Start(rep).children == before;
    var a := set n, e | n in src.children && e in Changes(src.children[n], Child(before, n), at + [n]) :: e;
    var b := set n, e | n in names && e in Changes(src.children[n], Child(before, n), at + [n]) :: e;
    assert a == b;
  }

  lemma {:induction false} EntriesLogsChanges(src: Node, names: seq<string>, cur: Node, at: Path)
    requires src.Dir? && Distinct(names) && forall n :: n in names ==> n in src.children
    ensures var r := SyncEntries(src, names, cur, at);
      r.Ok? ==> cur.Dir? && Distinct(r.log) && Elems(r.log) == EntriesChanges(src, names, cur, at)
    decreases src, 1, |names|
  {
    var r := SyncEntries(src, names, cur, at);
    if names == [] {
      if cur.Dir? {
        FinishLogsChanges(src, cur, at);
      }
    } else {
      var n := names[0];
      var step := Step(src, n, cur, at);
      if step.Ok? && r.Ok? {
        var rest := SyncEntries(src, names[1..], step.tree, at);
        assert rest.Ok?;
        StepLogsChanges(src, n, cur, at);
        StepLog(src, n, cur, at);
        EntriesLogsChanges(src, names[1..], step.tree, at);
        EntriesLog(src, names[1..], step.tree, at);
        assert n !in names[1..];
        assert r.log == step.log + rest.log;
        forall e | e in step.log ensures e !in rest.log {
          assert Handled(e, at, src) && e.path[|at|] == n;
        }
        DistinctConcat(step.log, rest.log);
        forall m | m in names[1..] ensures Child(step.tree.children, m) == Child(cur.children, m) {
          assert m != n;
        }
        EntriesChangesSplit(src, names, cur, step.tree, at);
        assert Elems(r.log) == Elems(step.log) + Elems(rest.log);
      }
    }
  }

  /** The deletions at the end of a level log each orphan removal once. */
  lemma FinishLogsChanges(src: Node, cur: Node, at: Path)
    requires src.Dir? && cur.Dir?
    ensures Distinct(Finish(src, cur, at).log)
    ensures Elems(Finish(src, cur, at).log) == EntriesChanges(src, [], cur, at)
  {
    var purged := Purge(Listing(src.children.Keys), Listing(cur.children.Keys), cur.children, at);
    forall e ensures e in purged.1 <==> e in EntriesChanges(src, [], cur, at) {
      if e in purged.1 {
        var m := e.path[|at|];
        assert e == Removed(at + [m]);
      }
    }
  }

  /** The changes of the loop from `names[0]` on are those of its first turn,
      which leaves the replica directory `next`, and those of the rest. */
  lemma EntriesChangesSplit(src: Node, names: seq<string>, cur: Node, next: Node, at: Path)
    requires src.Dir? && cur.Dir? && next.Dir? && names != [] && Distinct(names)
    requires forall n :: n in names ==> n in src.children
    requires next.children.Keys == cur.children.Keys + {names[0]}
    requires forall m :: m in names[1..] ==> Child(next.children, m) == Child(cur.children, m)
    ensures EntriesChanges(src, names, cur, at)
         == Changes(src.children[names[0]], Child(cur.children, names[0]), at + [names[0]])
          + EntriesChanges(src, names[1..], next, at)
  {
    var n := names[0];
    var here := Changes(src.children[n], Child(cur.children, n), at + [n]);
    forall e ensures e in EntriesChanges(src, names, cur, at) <==>
      e in here || e in EntriesChanges(src, names[1..], next, at)
    {
      if e in EntriesChanges(src, names, cur, at) && e !in here {
        if exists m :: m in names && e in Changes(src.children[m], Child(cur.children, m), at + [m]) {
          var m :| m in names && e in Changes(src.children[m], Child(cur.children, m), at + [m]);
          assert m in names[1..];
        }
      }
    }
  }

  lemma {:induction false} StepLogsChanges(src: Node, n: string, cur: Node, at: Path)
    requires src.Dir? && n in src.children
    ensures var r := Step(src, n, cur, at);
      r.Ok? ==> Distinct(r.log) && Elems(r.log) == Changes(src.children[n], Child(cur.children, n), at + [n])
    decreases src, 0
  {
    if cur.Dir? && src.children[n].Dir? {
      LevelLogsChanges(src.children[n], Child(cur.children, n), at + [n]);
    }
  }

  // ---------------------------------------------------------------------
  // A failed copy is still logged as copied

  lemma ListingOne(n: string)
    ensures Listing({n}) == [n]
  {
    NameLeTotal(n, n);
    assert IsFirst(n, {n});
    assert {n} - {n} == {};
  }

  /** Where the source has a directory `a` holding a file `b` and the replica
      has a file `a`, the pass logs `a/b` as copied and then fails without
      having changed anything: the message is written before the copy that
      raises. */
  lemma CopiedLoggedForFailedCopy()
    ensures SyncLevel(Dir(map["a" := Dir(map["b" := File([])])]), Some(Dir(map["a" := File([])])), [])
         == Fail(Dir(map["a" := File([])]), [Copied(["a", "b"])])
  {
    ListingOne("a");
    ListingOne("b");
    var src := Dir(map["a" := Dir(map["b" := File([])])]);
    var cur := Dir(map["a" := File([])]);
    assert src.children.Keys == {"a"};
    assert src.children["a"].children.Keys == {"b"};
    assert [] + ["a"] == ["a"] && ["a"] + ["b"] == ["a", "b"];
    assert Step(src.children["a"], "b", File([]), ["a"]) == Fail(File([]), [Copied(["a", "b"])]);
    assert SyncLevel(src.children["a"], Some(File([])), ["a"]) == Fail(File([]), [Copied(["a", "b"])]);
    assert cur.children["a" := File([])] == cur.children;
    assert Step(src, "a", cur, []) == Fail(cur, [Copied(["a", "b"])]);
  }
}
