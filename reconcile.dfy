/** What one reconciliation pass does to the replica, as functions of the
    source tree and the replica entry before the pass: `FileCopy` for
    `file_copy`, `Purge` for `delete_item`, and `SyncLevel` (with `Step`,
    `SyncEntries` and `Finish` for the parts of its body) for `folders_sync`.
    The methods of module Sync are proved to compute exactly these. */
module Reconcile {
  import opened Tree
  import opened Names

  /** `file_copy` for a source file with `content` and the replica entry
      `rep` at `at`. A missing replica is logged as copied, a replica with
      other content as replaced, an identical one not at all; in each of the
      three cases the source is then copied over the replica. A replica
      directory cannot be opened for hashing, so the call fails before
      anything is written. */
  function FileCopy(content: Bytes, rep: Option<Node>, at: Path): (r: Outcome)
    ensures r.Ok? <==> !(rep.Some? && rep.value.Dir?)
    ensures r.Ok? ==> r.tree == File(content)
    ensures r.Fail? ==> r.tree == rep.value && r.log == []
    ensures r.log == [Copied(at)] <==> rep.None?
    ensures r.log == [Replaced(at)] <==> rep.Some? && rep.value.File? && rep.value.content != content
    ensures r.log == [] <==> rep.Some? && (rep.value.Dir? || rep.value.content == content)
  {
    match rep
    case None => Ok(File(content), [Copied(at)])
    case Some(Dir(_)) => Fail(rep.value, [])
    case Some(File(current)) =>
      Ok(File(content), if current == content then [] else [Replaced(at)])
  }

  /** `delete_item` on the directory `children` at `at`, visiting
      `replicaItems` in order: every visited entry whose name is not among
      `sourceItems` is removed (a directory with all it holds) and logged once;
      every other entry is kept as it is. */
  function Purge(sourceItems: seq<string>, replicaItems: seq<string>, children: map<string, Node>, at: Path)
    : (r: (map<string, Node>, seq<Event>))
    requires Distinct(replicaItems)
    ensures forall n :: n in r.0 <==> n in children && (n in sourceItems || n !in replicaItems)
    ensures forall n :: n in r.0 ==> r.0[n] == children[n]
    ensures forall n :: Removed(at + [n]) in r.1 <==> n in replicaItems && n !in sourceItems
    ensures forall e :: e in r.1 ==> e.Removed? && |e.path| == |at| + 1 && e.path == at + [e.path[|at|]]
    ensures Distinct(r.1)
    ensures r.1 == [] <==> forall n :: n in replicaItems ==> n in sourceItems
    decreases |replicaItems|
  {
    if replicaItems == [] then (children, [])
    else
      var item := replicaItems[0];
      if item in sourceItems then Purge(sourceItems, replicaItems[1..], children, at)
      else
        var rest := Purge(sourceItems, replicaItems[1..], children - {item}, at);
        assert forall n :: at + [n] == at + [item] ==> n == item by {
          forall n | at + [n] == at + [item] ensures n == item {
            assert (at + [n])[|at|] == n;
          }
        }
        assert item !in replicaItems[1..] by {
          forall j | 0 <= j < |replicaItems[1..]| ensures replicaItems[1..][j] != item {
            assert replicaItems[1..][j] == replicaItems[j + 1];
          }
        }
        assert Removed(at + [item]) !in rest.1;
        DistinctConcat([Removed(at + [item])], rest.1);
        (rest.0, [Removed(at + [item])] + rest.1)
  }

  /** One turn of the loop over the source listing of `folders_sync`, for the
      source entry `name` while the replica entry at `at` is `cur`: recurse
      into a source directory, `file_copy` a source file. When `cur` is a
      file, nothing can be created below it: for a source file the missing
      target is logged as copied before the copy raises, for a source
      directory creating it raises. */
  function Step(src: Node, name: string, cur: Node, at: Path): (r: Outcome)
    requires src.Dir? && name in src.children
    decreases src, 0
  {
    var child := src.children[name];
    if cur.File? then
      if child.File? then Fail(cur, [Copied(at + [name])]) else Fail(cur, [])
    else
      var sub := SyncChild(child, Child(cur.children, name), at + [name]);
      var tree := Dir(cur.children[name := sub.tree]);
      if sub.Ok? then Ok(tree, sub.log) else Fail(tree, sub.log)
  }

  /** The body of one turn once the replica entry at `at` is known to lie
      in a directory: `folders_sync` a source directory, `file_copy` a
      source file. */
  function SyncChild(child: Node, rep: Option<Node>, at: Path): (r: Outcome)
    decreases child, 3
  {
    if child.Dir? then SyncLevel(child, rep, at) else FileCopy(child.content, rep, at)
  }

  /** The loop over the source listing from the entry `names[0]` on, then the
      deletions; the first failing turn ends the pass. */
  function SyncEntries(src: Node, names: seq<string>, cur: Node, at: Path): (r: Outcome)
    requires src.Dir? && forall n :: n in names ==> n in src.children
    decreases src, 1, |names|
  {
    if names == [] then Finish(src, cur, at)
    else
      var step := Step(src, names[0], cur, at);
      if step.Fail? then step
      else Prepend(step.log, SyncEntries(src, names[1..], step.tree, at))
  }

  /** The end of `folders_sync`: list the replica directory, which fails if it
      is a file, and delete what the source listing does not name. */
  function Finish(src: Node, cur: Node, at: Path): (r: Outcome)
    requires src.Dir?
    ensures r.Ok? <==> cur.Dir?
    ensures r.Fail? ==> r.tree == cur && r.log == []
    ensures r.Ok? ==> r.tree.Dir? && forall n :: n in r.tree.children <==> n in cur.children && n in src.children
    ensures r.Ok? ==> forall n :: n in r.tree.children ==> r.tree.children[n] == cur.children[n]
    ensures r.Ok? ==> forall n :: Removed(at + [n]) in r.log <==> n in cur.children && n !in src.children
  {
    if cur.File? then Fail(cur, [])
    else
      var purged := Purge(Listing(src.children.Keys), Listing(cur.children.Keys), cur.children, at);
      Ok(Dir(purged.0), purged.1)
  }

  /** `folders_sync` of the source entry `src` onto the replica entry `rep`
      at `at`: create a missing replica directory (logged as copied), list the
      source, which fails if it is a file, then the loop and the deletions. */
  function SyncLevel(src: Node, rep: Option<Node>, at: Path): (r: Outcome)
    decreases src, 2
  {
    var created := if rep.None? then [Copied(at)] else [];
    if src.File? then Fail(Start(rep), created)
    else Prepend(created, SyncEntries(src, Listing(src.children.Keys), Start(rep), at))
  }

  /** The replica entry a pass starts from: the existing one, or the empty
      directory `os.makedirs` creates. */
  function Start(rep: Option<Node>): (r: Node) {
    if rep.None? then Dir(map[]) else rep.value
  }
}
