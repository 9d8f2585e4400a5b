/** The synchroniser as it runs: `DeleteItem` and `FoldersSync` walk the name
    lists with loops and change the replica entry step by step, each proved to
    end where the functions of module Reconcile say; `FileSystem.Tick` is one
    turn of the scheduler, which survives a failing pass. */
module Sync {
  import opened Tree
  import opened Names
  import opened Reconcile

  /** `delete_item`: visit the replica listing and remove every entry the
      source listing does not name, logging each removal. */
  method DeleteItem(sourceItems: seq<string>, replicaItems: seq<string>, children: map<string, Node>, at: Path)
    returns (kept: map<string, Node>, removed: seq<Event>)
    requires Distinct(replicaItems)
    ensures (kept, removed) == Purge(sourceItems, replicaItems, children, at)
  {
    kept, removed := children, [];
    var i := 0;
    assert replicaItems[i..] == replicaItems;
    assert [] + Purge(sourceItems, replicaItems, children, at).1 == Purge(sourceItems, replicaItems, children, at).1;
    while i < |replicaItems|
      invariant 0 <= i <= |replicaItems|
      invariant Distinct(replicaItems[i..])
      invariant var rest := Purge(sourceItems, replicaItems[i..], kept, at);
        Purge(sourceItems, replicaItems, children, at) == (rest.0, removed + rest.1)
    {
      var item := replicaItems[i];
      PurgeVisit(sourceItems, replicaItems[i..], kept, removed, at);
      assert replicaItems[i..][1..] == replicaItems[i + 1..];
      if item !in sourceItems {
        // shutil.rmtree for a directory, os.remove for a file: either way the
        // entry and everything below it are gone
        kept := kept - {item};
        removed := removed + [Removed(at + [item])];
      }
      i := i + 1;
    }
    assert replicaItems[i..] == [] && removed + [] == removed;
  }

  /** Visiting the first name of `replicaItems` moves it from what is left to
      do to what is done. */
  lemma PurgeVisit(sourceItems: seq<string>, replicaItems: seq<string>, kept: map<string, Node>,
                   removed: seq<Event>, at: Path)
    requires Distinct(replicaItems) && replicaItems != []
    ensures
      var item := replicaItems[0];
      var kept' := if item in sourceItems then kept else kept - {item};
      var removed' := if item in sourceItems then removed else removed + [Removed(at + [item])];
      var rest := Purge(sourceItems, replicaItems, kept, at);
      var rest' := Purge(sourceItems, replicaItems[1..], kept', at);
      (rest.0, removed + rest.1) == (rest'.0, removed' + rest'.1)
  {
    var item := replicaItems[0];
    if item !in sourceItems {
      var rest' := Purge(sourceItems, replicaItems[1..], kept - {item}, at);
      assert removed + ([Removed(at + [item])] + rest'.1) == (removed + [Removed(at + [item])]) + rest'.1;
    }
  }

  /** `folders_sync` of the source entry `src` onto the replica entry `rep`
      at `at`, returning the replica entry afterwards and the events logged. */
  method FoldersSync(src: Node, rep: Option<Node>, at: Path) returns (out: Outcome)
    ensures out == SyncLevel(src, rep, at)
    decreases src, 1
  {
    var cur: Node;
    var log: seq<Event> := [];
    if rep.None? {
      // os.makedirs
      cur := Dir(map[]);
      log := [Copied(at)];
    } else {
      cur := rep.value;
    }
    if src.File? {
      // os.listdir of the source raises
      return Fail(cur, log);
    }
    var sourceItems := Listing(src.children.Keys);
    var i := 0;
    ghost var target := SyncLevel(src, rep, at);
    assert sourceItems[i..] == sourceItems;
    assert target == Prepend(log, SyncEntries(src, sourceItems, cur, at));
    while i < |sourceItems|
      invariant 0 <= i <= |sourceItems|
      invariant target == Prepend(log, SyncEntries(src, sourceItems[i..], cur, at))
    {
      var item := sourceItems[i];
      var step := SyncItem(src, item, cur, at);
      EntriesVisit(src, sourceItems[i..], cur, at, log);
      assert sourceItems[i..][1..] == sourceItems[i + 1..];
      if step.Fail? {
        return Fail(step.tree, log + step.log);
      }
      cur, log := step.tree, log + step.log;
      i := i + 1;
    }
    assert sourceItems[i..] == [];
    var finish := DeleteOrphans(src, sourceItems, cur, at);
    return Prepend(log, finish);
  }

  /** The end of `folders_sync`: list the replica directory and delete what
      the source listing `sourceItems` does not name. */
  method DeleteOrphans(src: Node, sourceItems: seq<string>, cur: Node, at: Path) returns (out: Outcome)
    requires src.Dir? && sourceItems == Listing(src.children.Keys)
    ensures out == Finish(src, cur, at)
  {
    if cur.File? {
      // os.listdir of the replica raises
      return Fail(cur, []);
    }
    var replicaItems := Listing(cur.children.Keys);
    var kept, removed := DeleteItem(sourceItems, replicaItems, cur.children, at);
    return Ok(Dir(kept), removed);
  }

  /** Visiting the first name of `names` either ends the pass with the
      failure of that turn or leaves the rest of the names to do. */
  lemma EntriesVisit(src: Node, names: seq<string>, cur: Node, at: Path, log: seq<Event>)
    requires src.Dir? && names != [] && forall n :: n in names ==> n in src.children
    ensures
      var step := Step(src, names[0], cur, at);
      Prepend(log, SyncEntries(src, names, cur, at))
        == if step.Fail? then Fail(step.tree, log + step.log)
           else Prepend(log + step.log, SyncEntries(src, names[1..], step.tree, at))
  {
    var step := Step(src, names[0], cur, at);
    if step.Ok? {
      PrependPrepend(log, step.log, SyncEntries(src, names[1..], step.tree, at));
    }
  }

  /** One turn of the loop of `folders_sync` over the source listing, for the
      source entry `item` while the replica entry at `at` is `cur`. */
  method SyncItem(src: Node, item: string, cur: Node, at: Path) returns (step: Outcome)
    requires src.Dir? && item in src.children
    ensures step == Step(src, item, cur, at)
    decreases src, 0
  {
    var child := src.children[item];
    if cur.File? {
      // below a replica file os.path.exists is false: file_copy logs the
      // copy before shutil.copy2 raises, os.makedirs raises at once
      if child.File? {
        return Fail(cur, [Copied(at + [item])]);
      }
      return Fail(cur, []);
    }
    var sub: Outcome;
    if child.Dir? {
      sub := FoldersSync(child, Child(cur.children, item), at + [item]);
    } else {
      sub := FileCopy(child.content, Child(cur.children, item), at + [item]);
    }
    var tree := Dir(cur.children[item := sub.tree]);
    step := if sub.Ok? then Ok(tree, sub.log) else Fail(tree, sub.log);
  }

  /** The disk as the synchroniser sees it: the source tree, the replica root
      (absent before the first pass) and the log written so far. */
  class FileSystem {
    var source: Node
    var replica: Option<Node>
    var log: seq<Event>

    constructor (source: Node, replica: Option<Node>)
      ensures this.source == source && this.replica == replica && log == []
    {
      this.source := source;
      this.replica := replica;
      log := [];
    }

    /** One turn of the scheduler loop: run a pass from the two roots; if it
        raises, log the error and carry on. The replica keeps whatever the
        pass changed; the source is untouched. */
    method Tick() returns (ok: bool)
      modifies this
      ensures source == old(source)
      ensures ok == SyncLevel(source, old(replica), []).Ok?
      ensures replica == Some(SyncLevel(source, old(replica), []).tree)
      ensures log == old(log) + SyncLevel(source, old(replica), []).log + (if ok then [] else [Failed])
    {
      var out := FoldersSync(source, replica, []);
      replica := Some(out.tree);
      log := log + out.log;
      ok := out.Ok?;
      if !ok {
        log := log + [Failed];
      }
    }
  }
}
