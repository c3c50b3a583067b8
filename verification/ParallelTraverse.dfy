/** The parallel walk does what the recursive one does, whatever order its reads complete in. */
module ParallelTraverse {
  import opened Trie
  import opened TrieHeap
  import opened TraverseUtil
  import opened Traverse
  import opened TraverseSender

  /** Nodes on the longest way down. */
  ghost function Height(t: Tree): (h: nat)
    ensures h >= 1
    decreases t, BRANCHES + 1
  {
    1 + HeightBelow(t, BRANCHES)
  }

  ghost function HeightBelow(t: Tree, n: nat): (h: nat)
    requires n <= BRANCHES
    decreases t, n
  {
    if n == 0 then 0
    else
      var rest := HeightBelow(t, n - 1);
      match Kid(t, n - 1)
      case None => rest
      case Some(c) => if Height(c) > rest then Height(c) else rest
  }

  lemma {:induction false} KidIsLower(t: Tree, b: Nibble, n: nat)
    requires b < n <= BRANCHES && Kid(t, b).Some?
    ensures Height(Kid(t, b).value) <= HeightBelow(t, n)
    decreases n
  {
    if b < n - 1 {
      KidIsLower(t, b, n - 1);
    }
  }

  /** The visits a read stands for. */
  ghost function Work(f: Filter, r: Receiver, disk: Disk): multiset<Visit>
    requires DiskOk(disk)
  {
    if r.offset < |disk| then multiset(Visits(f, r.path, Some(r.branch), DiskTree(disk, r.offset))) else multiset{}
  }

  ghost function WorkOf(f: Filter, rs: seq<Receiver>, disk: Disk): multiset<Visit>
    requires DiskOk(disk)
  {
    if rs == [] then multiset{} else WorkOf(f, rs[..|rs| - 1], disk) + Work(f, rs[|rs| - 1], disk)
  }

  lemma {:induction false} WorkOfConcat(f: Filter, a: seq<Receiver>, b: seq<Receiver>, disk: Disk)
    requires DiskOk(disk)
    ensures WorkOf(f, a + b, disk) == WorkOf(f, a, disk) + WorkOf(f, b, disk)
  {
    hide Work, DiskOk;
    if b == [] {
      assert a + b == a;
    } else {
      WorkOfConcat(f, a, b[..|b| - 1], disk);
      assert (a + b)[..|a + b| - 1] == a + b[..|b| - 1];
    }
  }

  lemma NoWork(f: Filter, disk: Disk)
    requires DiskOk(disk)
    ensures WorkOf(f, [], disk) == multiset{} && AllOk([], disk)
  {
  }

  lemma WorkOfOne(f: Filter, r: Receiver, disk: Disk)
    requires DiskOk(disk)
    ensures WorkOf(f, [r], disk) == Work(f, r, disk)
  {
    assert [r][..0] == [];
  }

  lemma OneOk(f: Filter, r: Receiver, disk: Disk)
    requires DiskOk(disk)
    ensures AllOk([r], disk) <==> ReceiverOk(r, disk)
    ensures WorkOf(f, [r], disk) == Work(f, r, disk)
  {
    assert AllOk([r], disk) ==> ReceiverOk([r][0], disk);
    WorkOfOne(f, r, disk);
  }

  ghost predicate ReceiverOk(r: Receiver, disk: Disk)
    requires DiskOk(disk)
  {
    r.offset < |disk| && r.level + Height(DiskTree(disk, r.offset)) <= MAX_LEVEL
  }

  ghost predicate AllOk(rs: seq<Receiver>, disk: Disk)
    requires DiskOk(disk)
  {
    forall i | 0 <= i < |rs| :: ReceiverOk(rs[i], disk)
  }

  lemma AllOkConcat(a: seq<Receiver>, b: seq<Receiver>, disk: Disk)
    requires DiskOk(disk)
    ensures AllOk(a + b, disk) <==> AllOk(a, disk) && AllOk(b, disk)
  {
    var c := a + b;
    if AllOk(c, disk) {
      forall i | 0 <= i < |a| ensures ReceiverOk(a[i], disk) {
        assert ReceiverOk(c[i], disk);
      }
      forall i | 0 <= i < |b| ensures ReceiverOk(b[i], disk) {
        assert ReceiverOk(c[|a| + i], disk);
      }
    }
  }

  lemma Concat(f: Filter, a: seq<Receiver>, b: seq<Receiver>, disk: Disk)
    requires DiskOk(disk)
    ensures AllOk(a + b, disk) <==> AllOk(a, disk) && AllOk(b, disk)
    ensures WorkOf(f, a + b, disk) == WorkOf(f, a, disk) + WorkOf(f, b, disk)
  {
    AllOkConcat(a, b, disk);
    WorkOfConcat(f, a, b, disk);
  }

  lemma WalkTally(f: Filter, p0: Key, b: Branch, t: Tree)
    ensures var v := Visit(p0, b, t);
      && multiset(Visits(f, p0, b, t)) ==
           multiset{v} + (if Enters(f, v) then multiset(KidVisits(f, PathAfter(p0, b, t), t, 0)) else multiset{})
      && multiset(KidVisits(f, p0, t, BRANCHES)) == multiset{}
  {
    WalkUnfolds(f, p0, b, t);
  }

  lemma BranchTally(aux: UpdateAux, f: Filter, p: Key, n: Node, b: Nibble)
    requires aux.Valid() && Walkable(aux, n)
    ensures |n.mask| == BRANCHES && DiskOk(aux.disk) && n.Shape(|aux.disk|)
    ensures var t := n.Denote(aux.disk);
      && multiset(KidVisits(f, p, t, b)) == multiset(BranchVisits(f, p, t, b)) + multiset(KidVisits(f, p, t, b + 1))
      && (!n.mask[b] || !Intersects(f, p + [b]) ==> multiset(BranchVisits(f, p, t, b)) == multiset{})
    ensures RankAt(n, b + 1) == RankAt(n, b) + if n.mask[b] then 1 else 0
  {
    hide Node.Denote, KidVisits, BranchVisits, Walkable;
    BranchUnfolds(aux, f, p, n, b, []);
    var t := n.Denote(aux.disk);
    assert [] + BranchVisits(f, p, t, b) == BranchVisits(f, p, t, b) && [] + KidVisits(f, p, t, b) == KidVisits(f, p, t, b);
  }

  /** What goes on below one branch: a whole walk of the child, or a read that stands for it. */
  lemma BranchWork(f: Filter, p: Key, t: Tree, b: Nibble, level: nat)
    requires Kid(t, b).Some? && Intersects(f, p + [b]) && level > 0 && level - 1 + Height(t) <= MAX_LEVEL
    ensures var c := Kid(t, b).value;
      BranchVisits(f, p, t, b) == Visits(f, p, Some(b), c) && level + Height(c) <= MAX_LEVEL
  {
    KidIsLower(t, b, BRANCHES);
  }

  /** How many children not in memory a walk comes to through nodes in memory, counting those the filter lets it go to. */
  ghost function Missing(nodes: set<Node>, n: Node, f: Filter, path: Key, b: Branch, t: Tree): nat
    reads nodes`next, nodes`mask
    decreases t, BRANCHES + 1
  {
    if Enters(f, Visit(path, b, t)) then MissingKids(nodes, n, f, PathAfter(path, b, t), t, 0) else 0
  }

  ghost function MissingKids(nodes: set<Node>, n: Node, f: Filter, path: Key, t: Tree, i: nat): nat
    requires i <= BRANCHES
    reads nodes`next, nodes`mask
    decreases t, BRANCHES - i
  {
    if i == BRANCHES then 0
    else MissingBranch(nodes, n, f, path, t, i) + MissingKids(nodes, n, f, path, t, i + 1)
  }

  ghost function MissingBranch(nodes: set<Node>, n: Node, f: Filter, path: Key, t: Tree, i: Nibble): nat
    reads nodes`next, nodes`mask
    decreases t, 0
  {
    if Kid(t, i).None? || !Intersects(f, path + [i]) then 0
    else
      var c := ChildInMemory(nodes, n, i);
      if c == null then 1 else Missing(nodes, c, f, path, Some(i), Kid(t, i).value)
  }

  /** How many children before branch `b` have to be read. */
  ghost function MissingBefore(nodes: set<Node>, n: Node, f: Filter, path: Key, t: Tree, b: nat): nat
    requires b <= BRANCHES
    reads nodes`next, nodes`mask
  {
    if b == 0 then 0
    else
      MissingBefore(nodes, n, f, path, t, b - 1) +
      if Kid(t, b - 1).Some? && Intersects(f, path + [b - 1]) && ChildInMemory(nodes, n, b - 1) == null then 1 else 0
  }

  lemma NoneBefore(nodes: set<Node>, n: Node, f: Filter, path: Key, t: Tree)
    ensures MissingBefore(nodes, n, f, path, t, 0) == 0
  {
  }

  lemma ResidentsUnfold(nodes: set<Node>, n: Node, f: Filter, path: Key, b: Branch, t: Tree)
    ensures Residents(nodes, n, f, path, b, t)
         == 1 + if Enters(f, Visit(path, b, t)) then ResidentKids(nodes, n, f, PathAfter(path, b, t), t, 0) else 0
  {
  }

  /** A walk visits the nodes in memory and at least the children it finds missing. */
  lemma {:induction false} MissingVisited(nodes: set<Node>, n: Node, f: Filter, path: Key, b: Branch, t: Tree)
    ensures Residents(nodes, n, f, path, b, t) + Missing(nodes, n, f, path, b, t) <= |Visits(f, path, b, t)|
    decreases t, BRANCHES + 1
  {
    if Enters(f, Visit(path, b, t)) {
      MissingKidsVisited(nodes, n, f, PathAfter(path, b, t), t, 0);
    }
  }

  lemma {:induction false} MissingKidsVisited(nodes: set<Node>, n: Node, f: Filter, path: Key, t: Tree, i: nat)
    requires i <= BRANCHES
    ensures ResidentKids(nodes, n, f, path, t, i) + MissingKids(nodes, n, f, path, t, i) <= |KidVisits(f, path, t, i)|
    decreases t, BRANCHES - i
  {
    hide Intersects, ChildInMemory, Visits, Residents, Missing;
    if i < BRANCHES {
      MissingKidsVisited(nodes, n, f, path, t, i + 1);
      var c := ChildInMemory(nodes, n, i);
      if Kid(t, i).Some? && c != null {
        MissingVisited(nodes, c, f, path, Some(i), Kid(t, i).value);
      }
    }
  }

  /** Every read stands for at least one visit. */
  lemma {:induction false} WorkSize(f: Filter, rs: seq<Receiver>, disk: Disk)
    requires DiskOk(disk) && AllOk(rs, disk)
    ensures |WorkOf(f, rs, disk)| >= |rs|
  {
    hide Visits, DiskTree, DiskOk;
    if rs != [] {
      assert ReceiverOk(rs[|rs| - 1], disk);
      WorkSize(f, rs[..|rs| - 1], disk);
    }
  }

  lemma MissingUnfolds(nodes: set<Node>, n: Node, f: Filter, path: Key, b: Branch, t: Tree)
    ensures Missing(nodes, n, f, path, b, t)
         == if Enters(f, Visit(path, b, t)) then MissingKids(nodes, n, f, PathAfter(path, b, t), t, 0) else 0
  {
  }

  /** A walk that came to `n` missing children asked for the version before each, from question `start` on, and went
      on with as many reads more; or one of the answers stopped it. */
  ghost predicate Polled(at: nat -> bool, start: nat, asked: nat, n: nat, expired: bool, before: nat, reading: nat) {
    if expired then exists k :: start <= k < start + n && !at(k)
    else asked == start + n && reading == before + n && AllValid(at, start, n)
  }

  lemma NotPolled(at: nat -> bool, start: nat, reading: nat)
    ensures Polled(at, start, start, 0, false, reading, reading)
  {
  }

  lemma PolledOn(at: nat -> bool, start: nat, mid: nat, asked: nat, n: nat, more: nat, rest: nat, expired: bool,
                 before: nat, between: nat, reading: nat)
    requires Polled(at, start, mid, n, false, before, between) && Polled(at, mid, asked, more, expired, between, reading)
    ensures Polled(at, start, asked, n + more, expired, before, reading)
    ensures expired ==> Polled(at, start, asked, n + more + rest, expired, before, reading)
  {
  }

  class Sender {
    const aux: UpdateAux
    const filter: Filter
    const sink: Sink
    const clock: VersionClock
    ghost const start: nat
    const sched: Scheduler
    var withinRecursion: nat
    var expired: bool
    var completions: nat
    var result: bool

    constructor (aux: UpdateAux, filter: Filter, sink: Sink, clock: VersionClock, max: nat)
      ensures this.aux == aux && this.filter == filter && this.sink == sink && this.clock == clock && start == clock.asked
      ensures fresh(sched) && sched.max == max && sched.outstanding == [] && Queue(sched.buckets) == []
      ensures aux.Valid() ==> Valid()
      ensures sched.Busy() && withinRecursion == 0 && !expired && completions == 0
    {
      this.aux, this.filter, this.sink, this.clock, start := aux, filter, sink, clock, clock.asked;
      sched := new Scheduler(max);
      withinRecursion, expired, completions, result := 0, false, 0, false;
    }

    ghost predicate Valid()
      reads this`expired, aux, aux.nodes, sched, clock`asked
    {
      && aux.Valid() && DiskOk(aux.disk) && sched.Window()
      && AllOk(sched.outstanding, aux.disk) && AllOk(Queue(sched.buckets), aux.disk)
      && start <= clock.asked && (expired ==> Queue(sched.buckets) == [] && DidExpire())
    }

    /** The clock has said no when it was asked. */
    ghost predicate DidExpire()
      reads clock`asked
    {
      exists k: nat | start <= k < clock.asked :: !clock.at(k)
    }

    lemma ItsValid()
      requires Valid()
      ensures aux.Valid() && DiskOk(aux.disk) && (expired ==> DidExpire())
    {
    }

    /** The visits still to come. */
    ghost function Remaining(): multiset<Visit>
      requires DiskOk(aux.disk)
      reads aux`disk, sched
    {
      WorkOf(filter, sched.outstanding, aux.disk) + WorkOf(filter, Queue(sched.buckets), aux.disk)
    }

    /** The visits made and the visits still to come. */
    ghost function Tally(): multiset<Visit>
      requires DiskOk(aux.disk)
      reads aux`disk, sched, sink`visits
    {
      multiset(sink.visits) + Remaining()
    }

    /** Reads under way or waiting. */
    ghost function Reading(): nat
      reads sched
    {
      |sched.outstanding| + |Queue(sched.buckets)|
    }

    /** Nothing is lost and nothing is added; once the version has expired, reads may be dropped. */
    ghost predicate Keeps(total: multiset<Visit>)
      requires DiskOk(aux.disk)
      reads this`expired, aux`disk, sched, sink`visits
    {
      if expired then Tally() <= total else Tally() == total
    }

    lemma ItKeeps(total: multiset<Visit>)
      requires DiskOk(aux.disk) && !expired && Tally() == total
      ensures Keeps(total)
    {
    }

    method InitiatePendingReads()
      requires Valid() && !expired
      modifies sched
      ensures Valid() && sched.Busy() && Tally() == old(Tally()) && Reading() == old(Reading())
    {
      hide Queue, UpdateAux.Valid, DiskOk, WorkOf, Work, AllOk;
      ghost var o, q := sched.outstanding, Queue(sched.buckets);
      sched.InitiatePendingReads();
      ghost var k := |sched.outstanding| - |o|;
      assert q == q[..k] + q[k..];
      Concat(filter, o, q[..k], aux.disk);
      Concat(filter, q[..k], q[k..], aux.disk);
    }

    /** Asks the clock. */
    method StillValid() returns (valid: bool)
      requires Valid()
      modifies clock
      ensures Valid() && valid == clock.at(old(clock.asked)) && clock.asked == old(clock.asked) + 1
      ensures !valid ==> DidExpire()
    {
      hide UpdateAux.Valid, DiskOk, AllOk, Queue, Scheduler.Window;
      valid := clock.IsValid();
    }

    /** Stops the walk; the reads in flight still have to come back. */
    method Expire()
      requires Valid() && DidExpire()
      modifies this`expired, sched
      ensures Valid() && expired && sched.Busy() && sched.outstanding == old(sched.outstanding)
      ensures Tally() <= old(Tally())
    {
      hide UpdateAux.Valid, DiskOk, WorkOf, AllOk, Work;
      NoWork(filter, aux.disk);
      expired := true;
      sched.Clear();
    }

    /** Reads a child now if there is room, else lets it wait. */
    method ReadOrWait(r: Receiver, priority: nat)
      requires Valid() && !expired && sched.Busy() && ReceiverOk(r, aux.disk) && priority > 0
      modifies sched
      ensures Valid() && sched.Busy() && Tally() == old(Tally()) + Work(filter, r, aux.disk)
      ensures Reading() == old(Reading()) + 1
      ensures if old(|sched.outstanding|) < sched.max then sched.outstanding == old(sched.outstanding) + [r] && sched.buckets == old(sched.buckets)
              else sched.outstanding == old(sched.outstanding) && sched.buckets == Pushed(old(sched.buckets), priority, r)
    {
      hide Queue, UpdateAux.Valid, DiskOk, WorkOf, Work, AllOk, Pushed;
      OneOk(filter, r, aux.disk);
      if sched.outstandingReads >= sched.max {
        ghost var s := Sized(sched.buckets, priority + 1);
        ghost var hi, lo := Queue(s[priority..]), Queue(s[..priority]);
        sched.Enqueue(priority, r);
        Concat(filter, hi, lo, aux.disk);
        Concat(filter, hi, [r], aux.disk);
        Concat(filter, hi + [r], lo, aux.disk);
      } else {
        Concat(filter, sched.outstanding, [r], aux.disk);
        sched.Start(r);
      }
    }

    /** The parallel walk from one node on: goes on in memory, and leaves reads behind for the rest. */
    method Walk(node: Node, m: Machine, branch: Branch)
      requires Valid() && !expired && Walkable(aux, node) && node.Shape(|aux.disk|)
      requires m.filter == filter && m.sink == sink && (branch == None ==> m.path == [])
      requires m.level + Height(node.Denote(aux.disk)) <= MAX_LEVEL
      modifies this`expired, sched, m, sink, clock
      ensures Valid() && sched.Busy()
      ensures Keeps(old(Tally()) + multiset(Visits(filter, old(m.path), branch, node.Denote(aux.disk))))
      ensures |sink.visits| > old(|sink.visits|)
      ensures !expired ==> |sink.visits| == old(|sink.visits|) + Residents(aux.nodes, node, filter, old(m.path), branch, node.Denote(aux.disk))
      ensures old(sink.Faithful(filter)) ==> sink.Faithful(filter)
      ensures !expired ==> m.level == old(m.level) && m.path == old(m.path)
      ensures Polled(clock.at, old(clock.asked), clock.asked,
                     Missing(aux.nodes, node, filter, old(m.path), branch, node.Denote(aux.disk)), expired, old(Reading()), Reading())
      decreases node.Denote(aux.disk), 4
    {
      hide Node.Denote, Visits, KidVisits, BranchVisits, UpdateAux.Valid, Walkable, Rank, Height, Valid, Tally, Missing, MissingKids, Reading, Polled,
           Queue, Sink.Faithful, Enters, Intersects, Scheduler.Window, Scheduler.Busy, KidsOf, DiskTree, Keeps, PathAfter, Node.Shape, Residents, ResidentKids, MissingBefore;
      ItsValid();
      ghost var t, p0 := node.Denote(aux.disk), m.path;
      ghost var total := Tally() + multiset(Visits(filter, p0, branch, t));
      SameTop(node, aux.disk);
      WalkTally(filter, p0, branch, t);
      ResidentsUnfold(aux.nodes, node, filter, p0, branch, t);
      MissingUnfolds(aux.nodes, node, filter, p0, branch, t);
      NotPolled(clock.at, clock.asked, Reading());
      ghost var missing, resident := Missing(aux.nodes, node, filter, p0, branch, t), Residents(aux.nodes, node, filter, p0, branch, t);
      ghost var asked, reading := clock.asked, Reading();
      var go := Enter(node, m, branch, t);
      assert Polled(clock.at, asked, clock.asked, 0, false, reading, Reading());
      if !go {
        m.level := m.level - 1;
        ItKeeps(total);
        assert missing == 0 && resident == 1;
        return;
      }
      WalkBack(node, m, branch, p0, total);
    }

    /** The bottom of Walk: the branches, then the machine goes back up. */
    method WalkBack(node: Node, m: Machine, branch: Branch, ghost p0: Key, ghost total: multiset<Visit>)
      requires Valid() && DiskOk(aux.disk) && sched.Busy() && !expired && Walkable(aux, node) && node.Shape(|aux.disk|)
      requires m.filter == filter && m.sink == sink && m.level > 0 && (branch == None ==> p0 == [])
      requires m.level - 1 + Height(node.Denote(aux.disk)) <= MAX_LEVEL
      requires m.path == PathAfter(p0, branch, node.Denote(aux.disk))
      requires Tally() + multiset(KidVisits(filter, m.path, node.Denote(aux.disk), 0)) == total
      modifies this`expired, sched, m, sink, clock
      ensures Valid() && sched.Busy() && DiskOk(aux.disk)
      ensures Keeps(total)
      ensures |sink.visits| >= old(|sink.visits|)
      ensures !expired ==> |sink.visits| == old(|sink.visits|) + ResidentKids(aux.nodes, node, filter, old(m.path), node.Denote(aux.disk), 0)
      ensures old(sink.Faithful(filter)) ==> sink.Faithful(filter)
      ensures !expired ==> m.level == old(m.level) - 1 && m.path == p0
      ensures Polled(clock.at, old(clock.asked), clock.asked,
                     MissingKids(aux.nodes, node, filter, old(m.path), node.Denote(aux.disk), 0), expired, old(Reading()), Reading())
      decreases node.Denote(aux.disk), 3
    {
      hide Node.Denote, Visits, KidVisits, BranchVisits, UpdateAux.Valid, Walkable, Rank, Height, Valid, Tally, MissingKids, Reading, Polled,
           Queue, Sink.Faithful, Enters, Intersects, Scheduler.Window, Scheduler.Busy, KidsOf, DiskTree, Keeps, PathAfter, Node.Shape, ResidentKids, MissingBefore;
      ghost var t := node.Denote(aux.disk);
      SameTop(node, aux.disk);
      WalkBranches(node, m, total);
      if !expired {
        m.level := m.level - 1;
        GoesBack(p0, branch, node, t);
        m.Up(branch, node, p0);
      }
    }

    /** The loop over the branches of a node. */
    method WalkBranches(node: Node, m: Machine, ghost total: multiset<Visit>)
      requires Valid() && DiskOk(aux.disk) && sched.Busy() && !expired && Walkable(aux, node) && node.Shape(|aux.disk|)
      requires m.filter == filter && m.sink == sink && m.level > 0
      requires m.level - 1 + Height(node.Denote(aux.disk)) <= MAX_LEVEL
      requires Tally() + multiset(KidVisits(filter, m.path, node.Denote(aux.disk), 0)) == total
      modifies this`expired, sched, m, sink, clock
      ensures Valid() && sched.Busy() && DiskOk(aux.disk)
      ensures Keeps(total)
      ensures |sink.visits| >= old(|sink.visits|)
      ensures !expired ==> |sink.visits| == old(|sink.visits|) + ResidentKids(aux.nodes, node, filter, old(m.path), node.Denote(aux.disk), 0)
      ensures old(sink.Faithful(filter)) ==> sink.Faithful(filter)
      ensures !expired ==> m.level == old(m.level) && m.path == old(m.path)
      ensures Polled(clock.at, old(clock.asked), clock.asked,
                     MissingKids(aux.nodes, node, filter, old(m.path), node.Denote(aux.disk), 0), expired, old(Reading()), Reading())
      decreases node.Denote(aux.disk), 2
    {
      hide Node.Denote, Visits, KidVisits, BranchVisits, UpdateAux.Valid, Walkable, Rank, Height, Valid, Tally, MissingBranch, Reading,
           Queue, Sink.Faithful, Enters, Intersects, Scheduler.Window, Scheduler.Busy, KidsOf, DiskTree, Keeps, Node.Shape, ResidentBranch, MissingBefore;
      ghost var t, p := node.Denote(aux.disk), m.path;
      SameTop(node, aux.disk);
      var idx, childrenRead := 0, 0;
      ghost var n, visited := MissingKids(aux.nodes, node, filter, p, t, 0), |sink.visits| + ResidentKids(aux.nodes, node, filter, p, t, 0);
      NoneBefore(aux.nodes, node, filter, p, t);
      for b := 0 to BRANCHES
        invariant MissingKids(aux.nodes, node, filter, p, t, b) <= n
        invariant Polled(clock.at, old(clock.asked), clock.asked, n - MissingKids(aux.nodes, node, filter, p, t, b), false,
                         old(Reading()), Reading())
        invariant Valid() && DiskOk(aux.disk) && sched.Busy() && !expired && m.path == p && m.level == old(m.level)
        invariant idx == RankAt(node, b) && childrenRead == MissingBefore(aux.nodes, node, filter, p, t, b)
        invariant Tally() + multiset(KidVisits(filter, p, t, b)) == total
        invariant |sink.visits| >= old(|sink.visits|)
        invariant |sink.visits| + ResidentKids(aux.nodes, node, filter, p, t, b) == visited
        invariant old(sink.Faithful(filter)) ==> sink.Faithful(filter)
      {
        ghost var mid, reading := clock.asked, Reading();
        ghost var here, later := MissingBranch(aux.nodes, node, filter, p, t, b), MissingKids(aux.nodes, node, filter, p, t, b + 1);
        assert MissingKids(aux.nodes, node, filter, p, t, b) == here + later;
        idx, childrenRead := WalkBranch(b, idx, node, m, childrenRead, total);
        PolledOn(clock.at, old(clock.asked), mid, clock.asked, n - here - later, here, later, expired, old(Reading()), reading, Reading());
        if expired {
          return;
        }
      }
      WalkTally(filter, p, None, t);
      ItKeeps(total);
    }

    /** The top of Walk: start what can be started, then show the node to the machine. */
    method Enter(node: Node, m: Machine, branch: Branch, ghost t: Tree) returns (go: bool)
      requires Valid() && !expired && t.path == node.path && t.value == node.value
      requires m.filter == filter && m.sink == sink && m.level < MAX_LEVEL
      modifies sched, m, sink
      ensures Valid() && DiskOk(aux.disk) && sched.Busy() && m.level == old(m.level) + 1
      ensures go == Enters(filter, Visit(old(m.path), branch, t))
      ensures m.path == if go then PathAfter(old(m.path), branch, t) else old(m.path)
      ensures Tally() == old(Tally()) + multiset{Visit(old(m.path), branch, t)} && Reading() == old(Reading())
      ensures |sink.visits| == old(|sink.visits|) + 1
      ensures old(sink.Faithful(filter)) ==> sink.Faithful(filter)
    {
      hide UpdateAux.Valid, WorkOf, AllOk, Queue, Sink.Faithful, Enters;
      InitiatePendingReads();
      m.level := m.level + 1;
      go := m.Down(branch, node, t);
    }

    /** One turn of the loop over the branches. */
    method WalkBranch(b: Nibble, idx: nat, node: Node, m: Machine, childrenRead: nat, ghost total: multiset<Visit>)
      returns (idx': nat, childrenRead': nat)
      requires Valid() && sched.Busy() && !expired && Walkable(aux, node) && node.Shape(|aux.disk|)
      requires m.filter == filter && m.sink == sink && m.level > 0
      requires m.level - 1 + Height(node.Denote(aux.disk)) <= MAX_LEVEL
      requires idx == RankAt(node, b) && childrenRead == MissingBefore(aux.nodes, node, filter, m.path, node.Denote(aux.disk), b)
      requires Tally() + multiset(KidVisits(filter, m.path, node.Denote(aux.disk), b)) == total
      modifies this`expired, sched, m, sink, clock
      ensures Valid() && sched.Busy() && DiskOk(aux.disk)
      ensures expired ==> Keeps(total)
      ensures !expired ==> Tally() + multiset(KidVisits(filter, m.path, node.Denote(aux.disk), b + 1)) == total
      ensures idx' == RankAt(node, b + 1) || expired
      ensures !expired ==> childrenRead' == MissingBefore(aux.nodes, node, filter, old(m.path), node.Denote(aux.disk), b + 1)
      ensures |sink.visits| >= old(|sink.visits|)
      ensures !expired ==> |sink.visits| == old(|sink.visits|) + ResidentBranch(aux.nodes, node, filter, old(m.path), node.Denote(aux.disk), b)
      ensures old(sink.Faithful(filter)) ==> sink.Faithful(filter)
      ensures !expired ==> m.level == old(m.level) && m.path == old(m.path)
      ensures Polled(clock.at, old(clock.asked), clock.asked,
                     MissingBranch(aux.nodes, node, filter, old(m.path), node.Denote(aux.disk), b), expired, old(Reading()), Reading())
      decreases node.Denote(aux.disk), 1
    {
      hide Node.Denote, Visits, KidVisits, BranchVisits, UpdateAux.Valid, Walkable, Rank, Height, Valid, Tally, Missing, ChildInMemory, Reading,
           Queue, Sink.Faithful, Enters, Intersects, Scheduler.Window, Scheduler.Busy, KidsOf, DiskTree, Residents;
      ItsValid();
      BranchTally(aux, filter, m.path, node, b);
      FoundInMemory(aux, node, b);
      idx', childrenRead' := idx, childrenRead;
      if node.mask[b] {
        if m.ShouldVisit(b) {
          childrenRead' := WalkBelow(b, idx, node, m, childrenRead);
          if expired {
            return;
          }
        }
        idx' := idx + 1;
      }
    }

    /** One child: walked now when in memory, else read now or later. */
    method WalkBelow(b: Nibble, idx: nat, node: Node, m: Machine, childrenRead: nat) returns (childrenRead': nat)
      requires Valid() && sched.Busy() && !expired && Walkable(aux, node) && node.Shape(|aux.disk|)
      requires m.filter == filter && m.sink == sink && m.level > 0
      requires m.level - 1 + Height(node.Denote(aux.disk)) <= MAX_LEVEL
      requires node.mask[b] && idx == Rank(node.mask, b) && Intersects(filter, m.path + [b])
      requires childrenRead == MissingBefore(aux.nodes, node, filter, m.path, node.Denote(aux.disk), b)
      modifies this`expired, sched, m, sink, clock
      ensures Valid() && sched.Busy()
      ensures Keeps(old(Tally()) + multiset(BranchVisits(filter, old(m.path), node.Denote(aux.disk), b)))
      ensures |sink.visits| >= old(|sink.visits|)
      ensures !expired ==> |sink.visits| == old(|sink.visits|) + ResidentBranch(aux.nodes, node, filter, old(m.path), node.Denote(aux.disk), b)
      ensures old(sink.Faithful(filter)) ==> sink.Faithful(filter)
      ensures !expired ==> m.level == old(m.level) && m.path == old(m.path)
      ensures childrenRead' == childrenRead + if !expired && ChildInMemory(aux.nodes, node, b) == null then 1 else 0
      ensures Polled(clock.at, old(clock.asked), clock.asked,
                     MissingBranch(aux.nodes, node, filter, old(m.path), node.Denote(aux.disk), b), expired, old(Reading()), Reading())
      decreases node.Denote(aux.disk), 0
    {
      hide Node.Denote, DiskTree, KidsOf, Visits, KidVisits, Walkable, Rank, Height, HeightBelow, Valid, Tally, Missing, ChildInMemory, Reading,
           DidExpire, Sink.Faithful, Intersects, UpdateAux.Valid, Scheduler.Window, Scheduler.Busy, BranchVisits, Residents, MissingBefore;
      ItsValid();
      WalkableChild(aux, node, b);
      FoundInMemory(aux, node, b);
      BranchWork(filter, m.path, node.Denote(aux.disk), b, m.level);
      childrenRead' := childrenRead;
      var next := node.next[idx];
      if next == null {
        var read := ReadMissing(Receiver(b, node.fnext[idx], m.level, m.path), childrenRead);
        if read {
          childrenRead' := childrenRead + 1;
        }
      } else {
        Walk(next, m, Some(b));
      }
    }

    /** A child that is not in memory: its read starts or waits, unless the version has expired. */
    method ReadMissing(r: Receiver, childrenRead: nat) returns (read: bool)
      requires Valid() && sched.Busy() && !expired && ReceiverOk(r, aux.disk) && r.level > 0
      modifies this`expired, sched, clock
      ensures Valid() && sched.Busy() && read == !expired
      ensures Keeps(old(Tally()) + Work(filter, r, aux.disk))
      ensures read == clock.at(old(clock.asked)) && clock.asked == old(clock.asked) + 1
      ensures read ==> Reading() == old(Reading()) + 1
      ensures if !read then sched.outstanding == old(sched.outstanding)
              else if old(|sched.outstanding|) < sched.max then
                sched.outstanding == old(sched.outstanding) + [r] && sched.buckets == old(sched.buckets)
              else
                sched.outstanding == old(sched.outstanding) && sched.buckets == Pushed(old(sched.buckets), Priority(r.level, childrenRead), r)
    {
      hide Work, ReceiverOk, Valid, Tally, Reading, DidExpire, UpdateAux.Valid, Scheduler.Window, Scheduler.Busy, DiskOk, Pushed;
      ItsValid();
      read := StillValid();
      if read {
        ReadOrWait(r, Priority(r.level, childrenRead));
      } else {
        Expire();
      }
    }

    ghost predicate Drained()
      reads sched
    {
      sched.outstanding == [] && Queue(sched.buckets) == []
    }

    /** Between two events: the walk keeps `whole`, and has completed once or never, as it is drained or not. */
    ghost predicate Resting(whole: multiset<Visit>)
      reads this, aux, aux.nodes, sched, sink, clock`asked
    {
      && Valid() && DiskOk(aux.disk) && sched.Busy() && Keeps(whole) && sink.Faithful(filter)
      && withinRecursion == 0
      && completions == (if Drained() then 1 else 0)
      && (Drained() ==> result == !expired)
    }

    /** The version was asked for once before each read and once after it, and said to be valid each time: twice for
        each node visited that was not in memory, and once for each read still to come back. Once it has expired, the
        answer was one of these. `resident` nodes are in memory. */
    ghost predicate Paced(whole: multiset<Visit>, resident: nat)
      reads this`expired, clock`asked, sink`visits, sched
    {
      if expired then resident <= |whole| && StoppedWithin(2 * (|whole| - resident))
      else KeepsPace(resident, 0)
    }

    ghost predicate StoppedWithin(n: nat) {
      exists k: nat | start <= k < start + n :: !clock.at(k)
    }

    /** `out`: reads that have come back and whose node is not visited yet. */
    ghost predicate KeepsPace(resident: nat, out: nat)
      reads clock`asked, sink`visits, sched
    {
      && clock.asked + 2 * resident == start + 2 * |sink.visits| + Reading() + out
      && start <= clock.asked && AllValid(clock.at, start, clock.asked - start)
    }

    lemma PacedAtStart(whole: multiset<Visit>, resident: nat, n: nat)
      requires Polled(clock.at, start, clock.asked, n, expired, 0, Reading())
      requires (!expired ==> |sink.visits| == resident) && resident + n <= |whole|
      ensures Paced(whole, resident)
    {
      hide Reading;
    }

    lemma PacedIff(whole: multiset<Visit>, resident: nat)
      requires Valid() && DiskOk(aux.disk) && Paced(whole, resident) && Drained() && resident <= |whole|
      requires !expired ==> |sink.visits| == |whole|
      ensures !expired <==> AllValid(clock.at, start, 2 * (|whole| - resident))
      ensures !expired ==> clock.asked == start + 2 * (|whole| - resident)
    {
      if expired {
        var k: nat :| start <= k < start + 2 * (|whole| - resident) && !clock.at(k);
      }
    }

    /** Waiting reads stand for visits still to be made. */
    lemma ReadingFits()
      requires Valid()
      ensures DiskOk(aux.disk) && Reading() <= |Remaining()|
    {
      hide UpdateAux.Valid, DiskOk, AllOk, WorkOf, Queue;
      WorkSize(filter, sched.outstanding, aux.disk);
      WorkSize(filter, Queue(sched.buckets), aux.disk);
    }

    method CompleteIfDone()
      requires Valid() && withinRecursion == 0
      modifies this`completions, this`result
      ensures completions == old(completions) + if Drained() then 1 else 0
      ensures Drained() ==> result == !expired
    {
      if sched.count == 0 && sched.outstandingReads == 0 {
        completions, result := completions + 1, !expired;
      }
    }

    lemma NothingYet()
      requires Valid() && Drained() && sink.visits == [] && sink.entries == []
      ensures DiskOk(aux.disk) && Tally() == multiset{} && sink.Faithful(filter)
    {
    }

    /** The start of the walk, at the root. */
    method Init(root: Node, m: Machine)
      requires Valid() && !expired && Drained() && withinRecursion == 0 && completions == 0 && sink.visits == [] && sink.entries == []
      requires Walkable(aux, root) && root.Shape(|aux.disk|) && Height(root.Denote(aux.disk)) <= MAX_LEVEL
      requires m.filter == filter && m.sink == sink && m.level == 0 && m.path == []
      modifies this`expired, this`withinRecursion, this`completions, this`result, sched, m, sink, clock
      ensures Resting(multiset(Visits(filter, [], None, root.Denote(aux.disk))))
      ensures Polled(clock.at, old(clock.asked), clock.asked, Missing(aux.nodes, root, filter, [], None, root.Denote(aux.disk)), expired,
                     0, Reading())
      ensures old(clock.asked) == start ==> Paced(multiset(Visits(filter, [], None, root.Denote(aux.disk))),
                                                  Residents(aux.nodes, root, filter, [], None, root.Denote(aux.disk)))
    {
      hide Node.Denote, Visits, Walkable, Height, Valid, UpdateAux.Valid, KidsOf, DiskTree, Tally, Keeps, Scheduler.Busy,
           Sink.Faithful, Missing, Residents, Polled, Paced;
      NothingYet();
      ghost var whole := multiset(Visits(filter, [], None, root.Denote(aux.disk)));
      assert Tally() + whole == whole;
      withinRecursion := withinRecursion + 1;
      Walk(root, m, None);
      withinRecursion := withinRecursion - 1;
      MissingVisited(aux.nodes, root, filter, [], None, root.Denote(aux.disk));
      if old(clock.asked) == start {
        PacedAtStart(whole, Residents(aux.nodes, root, filter, [], None, root.Denote(aux.disk)),
                     Missing(aux.nodes, root, filter, [], None, root.Denote(aux.disk)));
      }
      CompleteIfDone();
    }

    /** Read `k` comes back. */
    method SetValue(k: nat, ghost whole: multiset<Visit>, ghost resident: nat)
      requires Resting(whole) && k < |sched.outstanding| && Paced(whole, resident)
      modifies this`expired, this`withinRecursion, this`completions, this`result, sched, sink, clock
      ensures Resting(whole)
      ensures |Remaining()| < old(|Remaining()|) && Paced(whole, resident)
    {
      hide Tally, Remaining, Visits, UpdateAux.Valid, Sink.Faithful, Height, Valid, Scheduler.Busy, Drained, DiskOk, AllValid, StoppedWithin, Queue, AllOk, WorkOf;
      ghost var before := Tally();
      BeforeEvent(whole);
      var r := TakeBack(k);
      Deliver(r, before, whole, resident);
      AfterEvent(whole, before);
      if withinRecursion == 0 {
        CompleteIfDone();
      }
    }

    lemma BeforeEvent(whole: multiset<Visit>)
      requires Resting(whole)
      ensures |Tally()| == |sink.visits| + |Remaining()| && Tally() <= whole
      ensures sched.outstanding != [] ==> !Drained()
      ensures !expired ==> Tally() == whole
    {
    }

    lemma AfterEvent(whole: multiset<Visit>, before: multiset<Visit>)
      requires DiskOk(aux.disk) && Tally() <= before <= whole && (!expired ==> Tally() == before == whole)
      ensures Keeps(whole)
    {
    }

    /** What coming back leads to: nothing once the version has expired, else the walk goes on. */
    method Deliver(r: Receiver, ghost before: multiset<Visit>, ghost whole: multiset<Visit>, ghost resident: nat)
      requires before <= whole && (!expired ==> before == whole)
      requires if expired then Paced(whole, resident) else KeepsPace(resident, 1)
      requires Valid() && DiskOk(aux.disk) && ReceiverOk(r, aux.disk) && withinRecursion == 0 && sink.Faithful(filter)
      requires Tally() + Work(filter, r, aux.disk) == before && |Work(filter, r, aux.disk)| > 0
      modifies this`expired, this`withinRecursion, sched, sink, clock
      ensures Valid() && sched.Busy() && withinRecursion == 0 && sink.Faithful(filter)
      ensures Tally() <= before && (!expired ==> Tally() == before && !old(expired))
      ensures |sink.visits| + |Remaining()| <= |before|
      ensures |Remaining()| < |before| - old(|sink.visits|)
      ensures Paced(whole, resident)
    {
      hide Tally, Remaining, Work, DiskTree, UpdateAux.Valid, Sink.Faithful, Height, Valid, Scheduler.Busy, ReceiverOk, DidExpire;
      ghost var mid := Tally();
      ItsValid();
      assert |before| == |mid| + |Work(filter, r, aux.disk)|;
      SizeOf(mid);
      ReadingFits();
      ghost var visits, reading, was := |sink.visits|, Reading(), clock.asked;
      var valid := false;
      if !expired {
        valid := StillValid();
        if !valid {
          StopsHere(whole, resident, was, visits, reading);
        }
      }
      if !valid {
        Expire();
        SizeOf(mid);
      } else {
        ghost var n := GoOn(r, before);
        GoesOnPaced(whole, resident, was, visits, reading, n);
        SizeOf(before);
      }
    }

    /** The question after a read has stopped the walk. */
    lemma StopsHere(whole: multiset<Visit>, resident: nat, was: nat, visits: nat, reading: nat)
      requires !clock.at(was) && start <= was && was + 2 * resident == start + 2 * visits + reading + 1 && visits + reading + 1 <= |whole|
      ensures resident <= |whole| && StoppedWithin(2 * (|whole| - resident))
    {
    }

    /** The question after a read was answered yes, and the walk has gone on from the node, with `n` reads more. */
    lemma GoesOnPaced(whole: multiset<Visit>, resident: nat, was: nat, visits: nat, reading: nat, n: nat)
      requires start <= was && was + 2 * resident == start + 2 * visits + reading + 1 && visits + reading + 1 + n <= |whole|
      requires AllValid(clock.at, start, was - start) && clock.at(was)
      requires Polled(clock.at, was + 1, clock.asked, n, expired, reading, Reading()) && (!expired ==> |sink.visits| == visits + 1)
      ensures Paced(whole, resident)
    {
      hide Reading;
      if expired {
        var k: nat :| was + 1 <= k < was + 1 + n && !clock.at(k);
        assert start <= k < start + 2 * (|whole| - resident);
      }
    }

    method GoOn(r: Receiver, ghost before: multiset<Visit>) returns (ghost n: nat)
      requires Valid() && DiskOk(aux.disk) && ReceiverOk(r, aux.disk) && withinRecursion == 0 && sink.Faithful(filter)
      requires !expired && Tally() + Work(filter, r, aux.disk) == before
      modifies this`expired, this`withinRecursion, sched, sink, clock
      ensures Valid() && sched.Busy() && withinRecursion == 0 && sink.Faithful(filter)
      ensures Tally() <= before && (!expired ==> Tally() == before)
      ensures |sink.visits| > old(|sink.visits|) && (!expired ==> |sink.visits| == old(|sink.visits|) + 1)
      ensures n + 1 <= |Work(filter, r, aux.disk)| && Polled(clock.at, old(clock.asked), clock.asked, n, expired, old(Reading()), Reading())
    {
      hide Node.Denote, DiskTree, Visits, Tally, UpdateAux.Valid, Sink.Faithful, Height, Valid, Scheduler.Busy, Residents, Missing, Reading,
           Polled;
      var node := aux.ReadNode(r.offset, true);
      ReadsOfRead(aux.nodes, node, filter, r.path, Some(r.branch), node.Denote(aux.disk));
      MissingVisited(aux.nodes, node, filter, r.path, Some(r.branch), node.Denote(aux.disk));
      n := Missing(aux.nodes, node, filter, r.path, Some(r.branch), node.Denote(aux.disk));
      var m := new Machine(filter, sink, r.level, r.path);
      withinRecursion := withinRecursion + 1;
      Walk(node, m, Some(r.branch));
      withinRecursion := withinRecursion - 1;
    }

    lemma SizeOf(total: multiset<Visit>)
      requires DiskOk(aux.disk) && Tally() <= total
      ensures |sink.visits| + |Remaining()| <= |total|
      ensures |Tally()| <= |total|
    {
      var rest := total - Tally();
      assert total == Tally() + rest;
    }

    /** With no read allowed nothing is under way, and what waits will wait for ever. */
    lemma WithoutReads(start: nat, n: nat, whole: multiset<Visit>)
      requires Resting(whole) && Polled(clock.at, start, clock.asked, n, expired, 0, Reading())
      ensures sched.max == 0 ==> sched.outstanding == [] && (completions == 0 <==> n > 0 && AllValid(clock.at, start, n))
    {
    }

    /** Lets the reads come back, one after the other. */
    method WaitUntilDone(schedule: nat -> nat, ghost whole: multiset<Visit>, ghost resident: nat)
      requires Resting(whole) && Paced(whole, resident)
      modifies this`expired, this`withinRecursion, this`completions, this`result, sched, sink, clock
      ensures Resting(whole) && sched.outstanding == [] && Paced(whole, resident)
      ensures old(sched.outstanding) == [] ==> completions == old(completions)
    {
      RestingDisk(whole);
      hide Remaining, Resting, DiskOk, Paced;
      var turn := 0;
      ghost var none := sched.outstanding == [];
      while sched.outstanding != []
        invariant Resting(whole) && DiskOk(aux.disk) && Paced(whole, resident)
        invariant none ==> sched.outstanding == [] && completions == old(completions)
        decreases |Remaining()|
      {
        SetValue(schedule(turn) % |sched.outstanding|, whole, resident);
        RestingDisk(whole);
        turn := turn + 1;
      }
    }

    lemma RestingDisk(whole: multiset<Visit>)
      requires Resting(whole)
      ensures DiskOk(aux.disk)
    {
    }

    /** What is known when no read is under way any more. */
    lemma NothingLeft(whole: multiset<Visit>, resident: nat)
      requires Resting(whole) && sched.outstanding == [] && Paced(whole, resident) && resident <= |whole|
      ensures completions <= 1 && (sched.max > 0 ==> completions == 1)
      ensures completions == 1 ==> if result then multiset(sink.visits) == whole else multiset(sink.visits) <= whole
      ensures completions == 1 && !result ==> exists k: nat | start <= k < clock.asked :: !clock.at(k)
      ensures sink.entries == ReportedAll(filter, sink.visits)
      ensures completions == 1 ==> (result <==> AllValid(clock.at, start, 2 * (|whole| - resident)))
      ensures completions == 1 && result ==> clock.asked == start + 2 * (|whole| - resident)
    {
      if completions == 1 {
        PacedIff(whole, resident);
      }
    }

    method TakeBack(k: nat) returns (r: Receiver)
      requires Valid() && k < |sched.outstanding|
      modifies sched
      ensures Valid() && ReceiverOk(r, aux.disk)
      ensures Tally() + Work(filter, r, aux.disk) == old(Tally()) && |Work(filter, r, aux.disk)| > 0
      ensures Queue(sched.buckets) == old(Queue(sched.buckets)) && Reading() + 1 == old(Reading())
    {
      hide DiskTree, Visits, Queue, UpdateAux.Valid, WorkOf, AllOk, DiskOk;
      ghost var o := sched.outstanding;
      assert o == o[..k] + ([o[k]] + o[k + 1..]);
      Concat(filter, o[..k], [o[k]] + o[k + 1..], aux.disk);
      Concat(filter, [o[k]], o[k + 1..], aux.disk);
      OneOk(filter, o[k], aux.disk);
      r := sched.Complete(k);
      Concat(filter, o[..k], o[k + 1..], aux.disk);
    }
  }

  /** Equal visits in any order make equal callbacks in some order. */
  lemma {:induction false} SameVisitsSameCallbacks(f: Filter, vs: seq<Visit>, ws: seq<Visit>)
    requires multiset(vs) == multiset(ws)
    ensures multiset(ReportedAll(f, vs)) == multiset(ReportedAll(f, ws))
    decreases |vs|
  {
    hide Reported;
    if vs == [] {
      assert |ws| == |multiset(ws)| == |multiset(vs)|;
    } else {
      var n := |vs| - 1;
      var i := Matching(vs, ws);
      SameVisitsSameCallbacks(f, vs[..n], ws[..i] + ws[i + 1..]);
      TakenOut(f, ws[..i], vs[n], ws[i + 1..]);
    }
  }

  /** The last of `vs`, wherever it is in `ws`. */
  lemma Matching<T>(vs: seq<T>, ws: seq<T>) returns (i: nat)
    requires multiset(vs) == multiset(ws) && vs != []
    ensures i < |ws| && ws == ws[..i] + [vs[|vs| - 1]] + ws[i + 1..]
    ensures multiset(vs[..|vs| - 1]) == multiset(ws[..i] + ws[i + 1..])
  {
    var n := |vs| - 1;
    var v := vs[n];
    assert v in multiset(vs) && v in multiset(ws);
    i :| 0 <= i < |ws| && ws[i] == v;
    assert vs == vs[..n] + [v] && ws == ws[..i] + [v] + ws[i + 1..];
    Cancel(multiset(vs[..n]), multiset(ws[..i] + ws[i + 1..]), v);
  }

  lemma Cancel<T>(a: multiset<T>, b: multiset<T>, v: T)
    requires a + multiset{v} == b + multiset{v}
    ensures a == b
  {
    assert a == (a + multiset{v}) - multiset{v};
  }

  lemma TakenOut(f: Filter, a: seq<Visit>, v: Visit, b: seq<Visit>)
    ensures multiset(ReportedAll(f, a + [v] + b)) == multiset(ReportedAll(f, a + b)) + multiset(Reported(f, v))
  {
    hide Reported;
    ReportedConcat(f, a, b);
    ReportedConcat(f, a + [v], b);
    assert (a + [v])[..|a|] == a;
  }

  /** The whole parallel walk; `schedule` picks which of the reads in flight comes back next. */
  method TraverseOnDisk(aux: UpdateAux, root: Node, filter: Filter, max: nat, clock: VersionClock, schedule: nat -> nat, sink: Sink)
    returns (completions: nat, ok: bool)
    requires aux.Valid() && root in aux.nodes && DiskOk(aux.disk) && root.Shape(|aux.disk|)
    requires Height(root.Denote(aux.disk)) <= MAX_LEVEL && sink.visits == [] && sink.entries == []
    modifies sink, clock
    ensures completions <= 1 && (max > 0 ==> completions == 1)
    ensures var n := Missing(aux.nodes, root, filter, [], None, root.Denote(aux.disk));
            max == 0 ==> (completions == 0 <==> n > 0 && AllValid(clock.at, old(clock.asked), n))
    ensures var recursive := multiset(Visits(filter, [], None, root.Denote(aux.disk)));
            completions == 1 ==> if ok then multiset(sink.visits) == recursive else multiset(sink.visits) <= recursive
    ensures completions == 1 && !ok ==> exists k: nat | old(clock.asked) <= k < clock.asked :: !clock.at(k)
    ensures var n := Reads(aux.nodes, root, filter, [], None, root.Denote(aux.disk));
            completions == 1 ==> (ok <==> AllValid(clock.at, old(clock.asked), 2 * n)) && (ok ==> clock.asked == old(clock.asked) + 2 * n)
    ensures completions == 1 && ok ==> multiset(sink.entries) == multiset(Listing(filter, root.Denote(aux.disk)))
  {
    hide Visits, Height, UpdateAux.Valid, Node.Denote, Queue, DiskTree, KidsOf, Sender.Remaining, Sender.Tally, Scheduler.Window,
         Missing, Polled, AllValid, Sender.Resting, Sender.Reading, ReportedAll, Sender.Paced, Residents;
    var s := new Sender(aux, filter, sink, clock, max);
    var m := new Machine(filter, sink, 0, []);
    ghost var whole := multiset(Visits(filter, [], None, root.Denote(aux.disk)));
    s.Init(root, m);
    s.WithoutReads(old(clock.asked), Missing(aux.nodes, root, filter, [], None, root.Denote(aux.disk)), whole);
    ghost var resident := Residents(aux.nodes, root, filter, [], None, root.Denote(aux.disk));
    ResidentsVisited(aux.nodes, root, filter, [], None, root.Denote(aux.disk));
    s.WaitUntilDone(schedule, whole, resident);
    s.NothingLeft(whole, resident);
    completions, ok := s.completions, s.result;
    if completions == 1 && ok {
      SameVisitsSameCallbacks(filter, sink.visits, Visits(filter, [], None, root.Denote(aux.disk)));
    }
  }

  lemma {:induction false} HeightAtMost(t: Tree, h: nat, n: nat)
    requires n <= BRANCHES && forall b: Nibble | Kid(t, b).Some? :: Height(Kid(t, b).value) <= h
    ensures HeightBelow(t, n) <= h
  {
    if n > 0 {
      HeightAtMost(t, h, n - 1);
    }
  }

  lemma {:induction false} SomeMissing(nodes: set<Node>, n: Node, f: Filter, path: Key, t: Tree, i: nat, b: Nibble)
    requires i <= b && Kid(t, b).Some? && Intersects(f, path + [b]) && ChildInMemory(nodes, n, b) == null
    ensures MissingKids(nodes, n, f, path, t, i) > 0
    decreases b - i
  {
    if i < b {
      SomeMissing(nodes, n, f, path, t, i + 1, b);
    }
  }

  /** A root whose only child, a leaf, is on disk. */
  method RootOverDisk() returns (aux: UpdateAux, root: Node)
    ensures fresh(aux) && aux.Valid() && root in aux.nodes && DiskOk(aux.disk) && root.Shape(|aux.disk|)
    ensures Kid(root.Denote(aux.disk), 2).Some? && ChildInMemory(aux.nodes, root, 2) == null
    ensures Height(root.Denote(aux.disk)) <= 2
  {
    hide Height;
    var leaf := Image(seq(BRANCHES, i => false), [], Some([7]), 0, [], []);
    var top := Image(seq(BRANCHES, i => i == 2), [], None, 0, [0], [0]);
    NoBits(leaf.mask, BRANCHES);
    OneBit(top.mask, 2, BRANCHES);
    aux := new UpdateAux([leaf, top]);
    root := aux.ReadNode(1, true);
    aux.nodes := {root};
    assert Linked(root, aux.nodes, aux.up, aux.disk);
    SmallHeight(root.Denote(aux.disk), DiskTree(aux.disk, 0));
  }

  lemma SmallHeight(t: Tree, leaf: Tree)
    requires forall b: Nibble :: KidAt(t.kids, b) == if b == 2 then Some(leaf) else None
    requires forall b: Nibble :: KidAt(leaf.kids, b) == None
    ensures Height(t) <= 2
  {
    assert forall b: Nibble :: Kid(leaf, b) == None;
    HeightAtMost(leaf, 0, BRANCHES);
    assert forall b: Nibble :: Kid(t, b) == if b == 2 then Some(leaf) else None;
    HeightAtMost(t, 1, BRANCHES);
  }

  /** Without a read allowed, the walk of such a root never completes. */
  method WalkWithoutReads() returns (completions: nat)
    ensures completions == 0
  {
    hide Height, Node.Denote, Node.Shape, DiskTree, DiskOk, KidsOf, ChildInMemory, Missing, MissingKids, UpdateAux.Valid, Visits, ReportedAll, Rank;
    var aux, root := RootOverDisk();
    SomeMissing(aux.nodes, root, GetAll, [], root.Denote(aux.disk), 0, 2);
    MissingUnfolds(aux.nodes, root, GetAll, [], None, root.Denote(aux.disk));
    var clock := new VersionClock(k => true);
    var sink := new Sink();
    var ok;
    completions, ok := TraverseOnDisk(aux, root, GetAll, 0, clock, turn => 0, sink);
  }
}
