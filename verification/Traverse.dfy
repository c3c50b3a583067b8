/** The recursive walk and the parallel one. */
module Traverse {
  import opened Trie
  import opened TrieHeap
  import opened TraverseUtil

  /** A node of the trie, or one just read that stays outside it. */
  ghost predicate Walkable(aux: UpdateAux, n: Node)
    requires DiskOk(aux.disk)
    reads aux, n
  {
    n in aux.nodes || (n.Shape(|aux.disk|) && |n.next| == |n.fnext| && forall i | 0 <= i < |n.next| :: n.next[i] == null)
  }

  lemma WalkableChild(aux: UpdateAux, n: Node, b: Nibble)
    requires aux.Valid() && Walkable(aux, n)
    ensures DiskOk(aux.disk) && n.Shape(|aux.disk|) && |n.next| == |n.fnext| == Count(n.mask)
    ensures n.Denote(aux.disk).path == n.path && n.Denote(aux.disk).value == n.value
    ensures n.mask[b] <==> Kid(n.Denote(aux.disk), b).Some?
    ensures n.mask[b] ==> var i := Rank(n.mask, b);
      && i < |n.next| && n.fnext[i] < |aux.disk|
      && Kid(n.Denote(aux.disk), b) == Some(DiskTree(aux.disk, n.fnext[i]))
      && (n.next[i] != null ==> Walkable(aux, n.next[i]) && n.next[i].Shape(|aux.disk|) &&
                                n.next[i].Denote(aux.disk) == DiskTree(aux.disk, n.fnext[i]))
  {
    if n in aux.nodes {
      assert Linked(n, aux.nodes, aux.up, aux.disk);
    }
    if n.mask[b] {
      RankMono(n.mask, b, BRANCHES);
      var i := Rank(n.mask, b);
      assert n in aux.nodes ==> ChildOk(n, i, aux.nodes, aux.up, aux.disk);
    }
  }

  /** The version may expire at any moment: `at(k)` is the answer to the `k`-th question. */
  class VersionClock {
    const at: nat -> bool
    var asked: nat

    constructor (at: nat -> bool)
      ensures this.at == at
    {
      this.at, asked := at, 0;
    }

    method IsValid() returns (valid: bool)
      modifies this
      ensures valid == at(old(asked)) && asked == old(asked) + 1
    {
      valid := at(asked);
      asked := asked + 1;
    }
  }

  lemma SameTop(n: Node, disk: Disk)
    requires DiskOk(disk) && n.Shape(|disk|)
    ensures |n.mask| == BRANCHES && n.Denote(disk).path == n.path && n.Denote(disk).value == n.value
  {
  }

  ghost function RankAt(n: Node, b: nat): nat
    requires b <= |n.mask|
    reads n`mask
  {
    Rank(n.mask, b)
  }

  lemma WalkUnfolds(f: Filter, p0: Key, b: Branch, t: Tree)
    ensures var v := Visit(p0, b, t); var p := PathAfter(p0, b, t);
      && Visits(f, p0, b, t) == [v] + (if Enters(f, v) then KidVisits(f, p, t, 0) else [])
      && KidVisits(f, p, t, BRANCHES) == []
  {
  }

  lemma GoesBack(p: Key, b: Branch, n: Node, t: Tree)
    requires t.path == n.path
    ensures PathAfter(p, b, t) == if b == None then p else p + [b.value] + n.path
  {
  }

  lemma VisitsAfter(f: Filter, p0: Key, b: Branch, t: Tree, log: seq<Visit>)
    ensures var v := Visit(p0, b, t);
      log + Visits(f, p0, b, t) == if Enters(f, v) then log + [v] + KidVisits(f, PathAfter(p0, b, t), t, 0) else log + [v]
  {
  }

  lemma PrefixTrans(a: seq<Visit>, v: Visit, b: seq<Visit>)
    requires a + [v] <= b
    ensures a <= b
  {
    assert a == (a + [v])[..|a|] == b[..|a|];
  }

  /** One turn of the walk over the branches. */
  lemma BranchUnfolds(aux: UpdateAux, f: Filter, p: Key, n: Node, b: Nibble, log: seq<Visit>)
    requires aux.Valid() && Walkable(aux, n)
    ensures |n.mask| == BRANCHES && DiskOk(aux.disk) && n.Shape(|aux.disk|)
    ensures var t := n.Denote(aux.disk); var vs := BranchVisits(f, p, t, b);
      && log + KidVisits(f, p, t, b) == log + vs + KidVisits(f, p, t, b + 1)
      && (!n.mask[b] || !Intersects(f, p + [b]) ==> vs == [])
    ensures RankAt(n, b + 1) == RankAt(n, b) + if n.mask[b] then 1 else 0
  {
    WalkableChild(aux, n, b);
  }

  /** Where a walk from `n` goes on in memory. */
  ghost function ChildInMemory(nodes: set<Node>, n: Node, b: Nibble): (c: Node?)
    reads nodes`next, nodes`mask
  {
    if n in nodes && b < |n.mask| && Rank(n.mask, b) < |n.next| && n.next[Rank(n.mask, b)] in nodes then n.next[Rank(n.mask, b)]
    else null
  }

  lemma FoundInMemory(aux: UpdateAux, n: Node, b: Nibble)
    requires aux.Valid() && Walkable(aux, n)
    ensures DiskOk(aux.disk) && n.Shape(|aux.disk|) && (n.mask[b] <==> Kid(n.Denote(aux.disk), b).Some?)
    ensures n.mask[b] ==> Rank(n.mask, b) < |n.next| && ChildInMemory(aux.nodes, n, b) == n.next[Rank(n.mask, b)]
  {
    WalkableChild(aux, n, b);
    if n in aux.nodes && n.mask[b] {
      assert Linked(n, aux.nodes, aux.up, aux.disk);
      assert ChildOk(n, Rank(n.mask, b), aux.nodes, aux.up, aux.disk);
    }
  }

  ghost predicate AllValid(at: nat -> bool, start: nat, n: nat) {
    forall k | start <= k < start + n :: at(k)
  }

  /** How many of the nodes that a walk comes to are in memory: `n` itself, and what it leads to. */
  ghost function Residents(nodes: set<Node>, n: Node, f: Filter, path: Key, b: Branch, t: Tree): nat
    reads nodes`next, nodes`mask
    decreases t, BRANCHES + 1
  {
    1 + if Enters(f, Visit(path, b, t)) then ResidentKids(nodes, n, f, PathAfter(path, b, t), t, 0) else 0
  }

  ghost function ResidentKids(nodes: set<Node>, n: Node, f: Filter, path: Key, t: Tree, i: nat): nat
    requires i <= BRANCHES
    reads nodes`next, nodes`mask
    decreases t, BRANCHES - i
  {
    if i == BRANCHES then 0
    else ResidentBranch(nodes, n, f, path, t, i) + ResidentKids(nodes, n, f, path, t, i + 1)
  }

  ghost function ResidentBranch(nodes: set<Node>, n: Node, f: Filter, path: Key, t: Tree, i: Nibble): nat
    reads nodes`next, nodes`mask
    decreases t, 0
  {
    if Kid(t, i).None? || !Intersects(f, path + [i]) then 0
    else
      var c := ChildInMemory(nodes, n, i);
      if c == null then 0 else Residents(nodes, c, f, path, Some(i), Kid(t, i).value)
  }

  /** A walk visits at least the nodes in memory. */
  lemma {:induction false} ResidentsVisited(nodes: set<Node>, n: Node, f: Filter, path: Key, b: Branch, t: Tree)
    ensures Residents(nodes, n, f, path, b, t) <= |Visits(f, path, b, t)|
    decreases t, BRANCHES + 1
  {
    if Enters(f, Visit(path, b, t)) {
      ResidentKidsVisited(nodes, n, f, PathAfter(path, b, t), t, 0);
    }
  }

  lemma {:induction false} ResidentKidsVisited(nodes: set<Node>, n: Node, f: Filter, path: Key, t: Tree, i: nat)
    requires i <= BRANCHES
    ensures ResidentKids(nodes, n, f, path, t, i) <= |KidVisits(f, path, t, i)|
    decreases t, BRANCHES - i
  {
    hide Intersects, ChildInMemory, Visits, Residents;
    if i < BRANCHES {
      ResidentKidsVisited(nodes, n, f, path, t, i + 1);
      var c := ChildInMemory(nodes, n, i);
      if Kid(t, i).Some? && c != null {
        ResidentsVisited(nodes, c, f, path, Some(i), Kid(t, i).value);
      }
    }
  }

  /** Reads that a walk has to make: the visits of nodes that are not in memory. */
  ghost function Reads(nodes: set<Node>, n: Node, f: Filter, path: Key, b: Branch, t: Tree): (r: nat)
    reads nodes`next, nodes`mask
  {
    ResidentsVisited(nodes, n, f, path, b, t);
    |Visits(f, path, b, t)| - Residents(nodes, n, f, path, b, t)
  }

  ghost function KidReads(nodes: set<Node>, n: Node, f: Filter, path: Key, t: Tree, i: nat): (r: nat)
    requires i <= BRANCHES
    reads nodes`next, nodes`mask
  {
    ResidentKidsVisited(nodes, n, f, path, t, i);
    |KidVisits(f, path, t, i)| - ResidentKids(nodes, n, f, path, t, i)
  }

  lemma ReadsUnfold(nodes: set<Node>, n: Node, f: Filter, path: Key, b: Branch, t: Tree)
    ensures Reads(nodes, n, f, path, b, t)
         == if Enters(f, Visit(path, b, t)) then KidReads(nodes, n, f, PathAfter(path, b, t), t, 0) else 0
  {
    hide KidVisits, ResidentKids, PathAfter, Enters;
  }

  lemma KidReadsUnfold(nodes: set<Node>, n: Node, f: Filter, path: Key, t: Tree, i: nat)
    requires i <= BRANCHES
    ensures i == BRANCHES ==> KidReads(nodes, n, f, path, t, i) == 0
    ensures i < BRANCHES && (Kid(t, i).None? || !Intersects(f, path + [i])) ==>
              KidReads(nodes, n, f, path, t, i) == KidReads(nodes, n, f, path, t, i + 1)
    ensures i < BRANCHES && Kid(t, i).Some? && Intersects(f, path + [i]) ==>
              var c := ChildInMemory(nodes, n, i);
              KidReads(nodes, n, f, path, t, i) == KidReads(nodes, n, f, path, t, i + 1) +
                if c == null then |Visits(f, path, Some(i), Kid(t, i).value)| else Reads(nodes, c, f, path, Some(i), Kid(t, i).value)
  {
    hide Visits, Residents, ChildInMemory;
    if i < BRANCHES {
      assert |KidVisits(f, path, t, i)| == |BranchVisits(f, path, t, i)| + |KidVisits(f, path, t, i + 1)|;
      assert ResidentKids(nodes, n, f, path, t, i) == ResidentBranch(nodes, n, f, path, t, i) + ResidentKids(nodes, n, f, path, t, i + 1);
    }
  }

  /** A node that is not part of the trie in memory leads nowhere. */
  lemma {:induction false} NothingResident(nodes: set<Node>, n: Node, f: Filter, path: Key, t: Tree, i: nat)
    requires n !in nodes && i <= BRANCHES
    ensures ResidentKids(nodes, n, f, path, t, i) == 0
    decreases BRANCHES - i
  {
    hide Intersects;
    if i < BRANCHES {
      NothingResident(nodes, n, f, path, t, i + 1);
    }
  }

  lemma ReadsOfRead(nodes: set<Node>, n: Node, f: Filter, path: Key, b: Branch, t: Tree)
    requires n !in nodes
    ensures Residents(nodes, n, f, path, b, t) == 1 && Reads(nodes, n, f, path, b, t) == |Visits(f, path, b, t)| - 1
  {
    NothingResident(nodes, n, f, PathAfter(path, b, t), t, 0);
  }

  /** The clock was asked `n` times from question `start` on, and said yes each time; or it was asked until it said no. */
  ghost predicate Asked(at: nat -> bool, start: nat, asked: nat, n: nat, ok: bool) {
    if ok then asked == start + n && AllValid(at, start, n)
    else start < asked <= start + n && !at(asked - 1) && AllValid(at, start, asked - 1 - start)
  }

  lemma AskedMore(at: nat -> bool, start: nat, mid: nat, asked: nat, n: nat, more: nat, rest: nat, ok: bool)
    requires Asked(at, start, mid, n, true) && Asked(at, mid, asked, more, ok)
    ensures if ok then Asked(at, start, asked, n + more, true) else Asked(at, start, asked, n + more + rest, false)
  {
  }

  lemma AskedIff(at: nat -> bool, start: nat, asked: nat, n: nat, ok: bool)
    requires Asked(at, start, asked, n, ok)
    ensures ok <==> AllValid(at, start, n)
  {
    assert !ok ==> start <= asked - 1 < start + n && !at(asked - 1);
  }

  /** The recursive walk: everything in preorder, or a prefix of it when a read fails. */
  method PreorderBlocking(aux: UpdateAux, branch: Branch, node: Node, m: Machine, clock: VersionClock) returns (ok: bool)
    requires aux.Valid() && Walkable(aux, node) && DiskOk(aux.disk) && node.Shape(|aux.disk|)
    requires branch == None ==> m.path == []
    modifies m, m.sink, clock
    ensures m.level == old(m.level) && m.path == old(m.path)
    ensures var vs := Visits(m.filter, old(m.path), branch, node.Denote(aux.disk));
            if ok then m.sink.visits == old(m.sink.visits) + vs
            else old(m.sink.visits) <= m.sink.visits <= old(m.sink.visits) + vs
    ensures Asked(clock.at, old(clock.asked), clock.asked, Reads(aux.nodes, node, m.filter, old(m.path), branch, node.Denote(aux.disk)), ok)
    ensures old(m.sink.Faithful(m.filter)) ==> m.sink.Faithful(m.filter)
    decreases node.Denote(aux.disk), 2
  {
    hide KidsOf, DiskTree, Rank, UpdateAux.Valid, Node.Denote, Visits, KidVisits, BranchVisits, PathAfter, Walkable, Enters, Intersects, Node.Shape, Sink.Faithful, KidReads, Reads;
    ghost var t, p0, log := node.Denote(aux.disk), m.path, m.sink.visits;
    SameTop(node, aux.disk);
    VisitsAfter(m.filter, p0, branch, t, log);
    ReadsUnfold(aux.nodes, node, m.filter, p0, branch, t);
    m.level := m.level + 1;
    var go := m.Down(branch, node, t);
    if !go {
      m.level := m.level - 1;
      return true;
    }
    ok := PreorderBranches(aux, node, m, clock);
    PrefixTrans(log, Visit(p0, branch, t), m.sink.visits);
    m.level := m.level - 1;
    GoesBack(p0, branch, node, t);
    m.Up(branch, node, p0);
  }

  /** The loop over the branches of a node. */
  method PreorderBranches(aux: UpdateAux, node: Node, m: Machine, clock: VersionClock) returns (ok: bool)
    requires aux.Valid() && Walkable(aux, node) && DiskOk(aux.disk) && node.Shape(|aux.disk|)
    modifies m, m.sink, clock
    ensures m.level == old(m.level) && m.path == old(m.path)
    ensures var vs := KidVisits(m.filter, old(m.path), node.Denote(aux.disk), 0);
            if ok then m.sink.visits == old(m.sink.visits) + vs
            else old(m.sink.visits) <= m.sink.visits <= old(m.sink.visits) + vs
    ensures Asked(clock.at, old(clock.asked), clock.asked, KidReads(aux.nodes, node, m.filter, old(m.path), node.Denote(aux.disk), 0), ok)
    ensures old(m.sink.Faithful(m.filter)) ==> m.sink.Faithful(m.filter)
    decreases node.Denote(aux.disk), 1
  {
    hide KidsOf, DiskTree, Rank, UpdateAux.Valid, Node.Denote, Visits, KidVisits, BranchVisits, Walkable, Enters, Intersects, Sink.Faithful, KidReads, Reads, ChildInMemory;
    ghost var t, p, log := node.Denote(aux.disk), m.path, m.sink.visits;
    ghost var target := log + KidVisits(m.filter, p, t, 0);
    WalkUnfolds(m.filter, p, None, t);
    ok := true;
    var idx := 0;
    ghost var n := KidReads(aux.nodes, node, m.filter, p, t, 0);
    for b := 0 to BRANCHES
      invariant ok && m.path == p && m.level == old(m.level) && idx == RankAt(node, b)
      invariant m.sink.visits + KidVisits(m.filter, p, t, b) == target
      invariant log <= m.sink.visits && KidReads(aux.nodes, node, m.filter, p, t, b) <= n
      invariant Asked(clock.at, old(clock.asked), clock.asked, n - KidReads(aux.nodes, node, m.filter, p, t, b), true)
      invariant old(m.sink.Faithful(m.filter)) ==> m.sink.Faithful(m.filter)
    {
      BranchUnfolds(aux, m.filter, p, node, b, m.sink.visits);
      KidReadsUnfold(aux.nodes, node, m.filter, p, t, b);
      FoundInMemory(aux, node, b);
      if node.mask[b] {
        if m.ShouldVisit(b) {
          ghost var mid, later := clock.asked, KidReads(aux.nodes, node, m.filter, p, t, b + 1);
          ok := PreorderBelow(aux, b, idx, node, m, clock);
          AskedMore(clock.at, old(clock.asked), mid, clock.asked, n - KidReads(aux.nodes, node, m.filter, p, t, b),
                    KidReads(aux.nodes, node, m.filter, p, t, b) - later, later, ok);
          if !ok {
            return;
          }
        }
        idx := idx + 1;
      }
    }
    KidReadsUnfold(aux.nodes, node, m.filter, p, t, BRANCHES);
  }

  /** Goes on below one branch, reading the child when it is not in memory. */
  method PreorderBelow(aux: UpdateAux, b: Nibble, idx: nat, node: Node, m: Machine, clock: VersionClock) returns (ok: bool)
    requires aux.Valid() && Walkable(aux, node) && DiskOk(aux.disk) && node.Shape(|aux.disk|)
    requires node.mask[b] && idx == Rank(node.mask, b) && idx < |node.next| && Intersects(m.filter, m.path + [b])
    modifies m, m.sink, clock
    ensures m.level == old(m.level) && m.path == old(m.path)
    ensures var vs := BranchVisits(m.filter, old(m.path), node.Denote(aux.disk), b);
            if ok then m.sink.visits == old(m.sink.visits) + vs
            else old(m.sink.visits) <= m.sink.visits <= old(m.sink.visits) + vs
    ensures var c := node.next[idx]; var t := Kid(node.Denote(aux.disk), b);
            t.Some? && Asked(clock.at, old(clock.asked), clock.asked,
                  if c == null then |Visits(m.filter, old(m.path), Some(b), t.value)|
                  else Reads(aux.nodes, c, m.filter, old(m.path), Some(b), t.value), ok)
    ensures old(m.sink.Faithful(m.filter)) ==> m.sink.Faithful(m.filter)
    decreases node.Denote(aux.disk), 0
  {
    hide KidsOf, DiskTree, Rank, UpdateAux.Valid, Node.Denote, Visits, KidVisits;
    WalkableChild(aux, node, b);
    var next := node.next[idx];
    if next == null {
      var valid := clock.IsValid();
      next := aux.ReadNode(node.fnext[idx], valid);
      if next == null {
        return false;
      }
      ReadsOfRead(aux.nodes, next, m.filter, m.path, Some(b), next.Denote(aux.disk));
    }
    ghost var mid := clock.asked;
    ok := PreorderBlocking(aux, Some(b), next, m, clock);
    if mid > old(clock.asked) {
      AskedMore(clock.at, old(clock.asked), mid, clock.asked, 1, Reads(aux.nodes, next, m.filter, old(m.path), Some(b), next.Denote(aux.disk)),
                0, ok);
    }
  }

  /** The recursive walk from a root with a new machine. */
  method PreorderTraverseBlocking(aux: UpdateAux, node: Node, m: Machine, clock: VersionClock) returns (ok: bool)
    requires aux.Valid() && Walkable(aux, node) && DiskOk(aux.disk) && node.Shape(|aux.disk|)
    requires m.level == 0 && m.path == [] && m.sink.visits == [] && m.sink.entries == []
    modifies m, m.sink, clock
    ensures m.level == 0 && m.path == []
    ensures ok ==> m.sink.entries == Listing(m.filter, node.Denote(aux.disk))
    ensures !ok ==> m.sink.entries <= Listing(m.filter, node.Denote(aux.disk))
    ensures var n := Reads(aux.nodes, node, m.filter, [], None, node.Denote(aux.disk));
            Asked(clock.at, old(clock.asked), clock.asked, n, ok) && (ok <==> AllValid(clock.at, old(clock.asked), n))
  {
    hide KidsOf, Visits, Node.Denote, UpdateAux.Valid, Walkable;
    ghost var vs := Visits(m.filter, [], None, node.Denote(aux.disk));
    assert m.sink.visits + vs == vs;
    ok := PreorderBlocking(aux, None, node, m, clock);
    AskedIff(clock.at, old(clock.asked), clock.asked, Reads(aux.nodes, node, m.filter, [], None, node.Denote(aux.disk)), ok);
    if !ok {
      ghost var n := |m.sink.visits|;
      assert vs == m.sink.visits + vs[n..];
      ReportedConcat(m.filter, m.sink.visits, vs[n..]);
    }
  }
}
