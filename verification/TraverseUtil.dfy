/** The two enumeration machines, and what a preorder walk shows them. */
module TraverseUtil {
  import opened Trie
  import opened TrieHeap

  /** Which keys a machine reports: every key, or those in a half-open range. */
  datatype Filter = GetAll | RangedGet(min: Key, max: Key)

  /** None is the root's missing branch. */
  type Branch = Option<Nibble>

  datatype Entry = Entry(key: Key, value: Bytes)

  /** One call of Down: the machine's path before it, and its arguments. */
  datatype Visit = Visit(path: Key, branch: Branch, node: Tree)

  /** Lexicographic order; a proper prefix comes first. */
  predicate Less(a: Key, b: Key) {
    b != [] && (a == [] || a[0] < b[0] || (a[0] == b[0] && Less(a[1..], b[1..])))
  }

  /** The walk may still meet keys of the range below `path`. */
  predicate Intersects(f: Filter, path: Key) {
    match f
    case GetAll => true
    case RangedGet(min, max) =>
      && (if |path| < |min| then path <= min else !Less(path, min))
      && Less(path, max)
  }

  /** The machine's path after Down; the root's own path plays no part. */
  function PathAfter(path: Key, b: Branch, t: Tree): Key {
    if b.None? then path else path + [b.value] + t.path
  }

  predicate Enters(f: Filter, v: Visit) {
    v.branch.None? || Intersects(f, PathAfter(v.path, v.branch, v.node))
  }

  predicate LongEnough(f: Filter, path: Key) {
    f.RangedGet? ==> |path| >= |f.min|
  }

  /** What Down hands to the callback. */
  function Reported(f: Filter, v: Visit): seq<Entry> {
    var p := PathAfter(v.path, v.branch, v.node);
    if v.branch.Some? && Enters(f, v) && v.node.value.Some? && LongEnough(f, p)
    then [Entry(p, v.node.value.value)] else []
  }

  /** Where the callbacks of a machine and its clones go. */
  class Sink {
    ghost var visits: seq<Visit>
    var entries: seq<Entry>

    /** The callbacks are those of the visits, in the same order. */
    ghost predicate Faithful(f: Filter)
      reads this
    {
      entries == ReportedAll(f, visits)
    }

    constructor ()
      ensures visits == [] && entries == []
    {
      visits, entries := [], [];
    }
  }

  function ReportedAll(f: Filter, vs: seq<Visit>): seq<Entry> {
    if vs == [] then [] else ReportedAll(f, vs[..|vs| - 1]) + Reported(f, vs[|vs| - 1])
  }

  lemma {:induction false} ReportedConcat(f: Filter, a: seq<Visit>, b: seq<Visit>)
    ensures ReportedAll(f, a + b) == ReportedAll(f, a) + ReportedAll(f, b)
  {
    hide Reported, ReportedAll;
    if b == [] {
      assert a + b == a && ReportedAll(f, []) == [] by {
        LastReported(f, []);
      }
    } else {
      var front, last := b[..|b| - 1], Reported(f, b[|b| - 1]);
      ReportedConcat(f, a, front);
      assert (a + b)[..|a + b| - 1] == a + front && (a + b)[|a + b| - 1] == b[|b| - 1];
      LastReported(f, b);
      LastReported(f, a + b);
      assert ReportedAll(f, a) + ReportedAll(f, front) + last == ReportedAll(f, a) + (ReportedAll(f, front) + last);
    }
  }

  lemma LastReported(f: Filter, vs: seq<Visit>)
    ensures ReportedAll(f, vs) == if vs == [] then [] else ReportedAll(f, vs[..|vs| - 1]) + Reported(f, vs[|vs| - 1])
  {
    hide Reported;
  }

  class Machine {
    var level: nat
    var path: Key
    const filter: Filter
    const sink: Sink

    constructor (filter: Filter, sink: Sink, level: nat, path: Key)
      ensures this.filter == filter && this.sink == sink && this.level == level && this.path == path
    {
      this.filter, this.sink, this.level, this.path := filter, sink, level, path;
    }

    method Down(branch: Branch, node: Node, ghost t: Tree) returns (go: bool)
      requires t.path == node.path && t.value == node.value
      modifies this`path, sink
      ensures go == Enters(filter, Visit(old(path), branch, t))
      ensures path == if go then PathAfter(old(path), branch, t) else old(path)
      ensures sink.visits == old(sink.visits) + [Visit(old(path), branch, t)]
      ensures sink.entries == old(sink.entries) + Reported(filter, Visit(old(path), branch, t))
      ensures old(sink.Faithful(filter)) ==> sink.Faithful(filter)
    {
      ghost var v, vs := Visit(path, branch, t), sink.visits;
      assert (vs + [v])[..|vs|] == vs;
      sink.visits := sink.visits + [Visit(path, branch, t)];
      if branch == None {
        return true;
      }
      var next := path + [branch.value] + node.path;
      if !Intersects(filter, next) {
        return false;
      }
      path := next;
      if node.value.Some? && (filter.RangedGet? ==> |path| >= |filter.min|) {
        sink.entries := sink.entries + [Entry(path, node.value.value)];
      }
      return true;
    }

    /** Undoes Down. */
    method Up(branch: Branch, node: Node, ghost before: Key)
      requires path == if branch == None then before else before + [branch.value] + node.path
      requires branch == None ==> before == []
      modifies this`path
      ensures path == before
    {
      var rest := if branch == None then 0 else |path| - 1 - |node.path|;
      path := path[..rest];
    }

    predicate ShouldVisit(branch: Nibble)
      reads this
    {
      Intersects(filter, path + [branch])
    }
  }

  /** The preorder of Down calls below a node. */
  ghost function Visits(f: Filter, path: Key, b: Branch, t: Tree): (vs: seq<Visit>)
    ensures |vs| > 0
    decreases t, BRANCHES + 1
  {
    var v := Visit(path, b, t);
    [v] + if Enters(f, v) then KidVisits(f, PathAfter(path, b, t), t, 0) else []
  }

  /** The calls below the branches from `i` on. */
  ghost function KidVisits(f: Filter, path: Key, t: Tree, i: nat): seq<Visit>
    requires i <= BRANCHES
    decreases t, BRANCHES - i
  {
    if i == BRANCHES then []
    else BranchVisits(f, path, t, i) + KidVisits(f, path, t, i + 1)
  }

  ghost function BranchVisits(f: Filter, path: Key, t: Tree, i: Nibble): seq<Visit>
    decreases t, 0
  {
    match Kid(t, i)
    case None => []
    case Some(c) => if Intersects(f, path + [i]) then Visits(f, path, Some(i), c) else []
  }

  /** Everything a machine reports on a complete walk from the root. */
  ghost function Listing(f: Filter, root: Tree): seq<Entry> {
    ReportedAll(f, Visits(f, [], None, root))
  }
}
