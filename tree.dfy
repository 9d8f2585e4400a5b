/** The in-memory filesystem the reconciliation works on: trees of files and
    directories, paths relative to a tree's root, the log events a pass emits
    and the result of a pass. */
module Tree {

  /** File content, byte by byte. */
  type Bytes = seq<bv8>

  /** A path relative to the root of the source or the replica tree. An entry
      of the source and an entry of the replica at the same relative path are
      paired by the pass. */
  type Path = seq<string>

  datatype Option<T> = None | Some(value: T)

  /** A directory entry: a regular file with its content, or a directory whose
      entries are keyed by name. Anything that is not a directory is a file. */
  datatype Node = File(content: Bytes) | Dir(children: map<string, Node>)

  /** The log lines of the synchroniser. `Copied`, `Replaced` and `Removed`
      are the info lines of a pass (for a path relative to both roots); `Failed`
      is the error line the scheduler writes when a pass raises. */
  datatype Event = Copied(path: Path) | Replaced(path: Path) | Removed(path: Path) | Failed

  /** The result of applying part of a pass to one replica entry: the entry as
      it is afterwards and the events logged on the way. `Fail` is a pass that
      raised: the changes already made are kept and nothing after them runs. */
  datatype Outcome = Ok(tree: Node, log: seq<Event>) | Fail(tree: Node, log: seq<Event>)

  /** The entry `name` of a directory, if there is one. */
  function Child(children: map<string, Node>, name: string): (r: Option<Node>)
    ensures r.Some? <==> name in children
    ensures r.Some? ==> r.value == children[name]
  {
    if name in children then Some(children[name]) else None
  }

  /** `r` with the events `pre` logged before its own. */
  function Prepend(pre: seq<Event>, r: Outcome): (r': Outcome)
    ensures r'.Ok? == r.Ok? && r'.tree == r.tree && r'.log == pre + r.log
  {
    match r
    case Ok(t, log) => Ok(t, pre + log)
    case Fail(t, log) => Fail(t, pre + log)
  }

  lemma PrependPrepend(a: seq<Event>, b: seq<Event>, r: Outcome)
    ensures Prepend(a, Prepend(b, r)) == Prepend(a + b, r)
  {
    assert a + (b + r.log) == (a + b) + r.log;
  }

  /** A source entry and a replica entry at the same path whose kinds can be
      reconciled: nowhere below them does a source directory meet a replica
      file or a source file meet a replica directory. A missing replica entry
      is always compatible. */
  predicate Compatible(src: Node, rep: Option<Node>)
    decreases src
  {
    match src
    case File(_) => rep.None? || rep.value.File?
    case Dir(s) =>
      rep.None? ||
      (rep.value.Dir? &&
       forall n :: n in s && n in rep.value.children ==> Compatible(s[n], Some(rep.value.children[n])))
  }

  /** `p` lies strictly below `at`. */
  predicate Below(at: Path, p: Path) {
    |at| < |p| && p[..|at|] == at
  }

  predicate Distinct<T(==)>(s: seq<T>) {
    forall i, j :: 0 <= i < j < |s| ==> s[i] != s[j]
  }

  lemma DistinctTail<T>(s: seq<T>)
    requires Distinct(s) && s != []
    ensures Distinct(s[1..]) && s[0] !in s[1..]
  {
    forall j | 0 <= j < |s[1..]| ensures s[1..][j] != s[0] {
      assert s[1..][j] == s[j + 1];
    }
  }

  lemma DistinctConcat<T>(a: seq<T>, b: seq<T>)
    requires Distinct(a) && Distinct(b) && forall x :: x in a ==> x !in b
    ensures Distinct(a + b)
  {
    forall i, j | 0 <= i < j < |a + b| ensures (a + b)[i] != (a + b)[j] {
      if i < |a| && |a| <= j {
        assert (a + b)[i] in a && (a + b)[j] in b;
      }
    }
  }
}
