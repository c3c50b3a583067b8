/** Lookups that wait for reads: requests for one node share one read, and go on when it comes back. */
module FindNotify {
  import opened Trie
  import opened TrieHeap
  import opened Traverse
  import opened Waiting

  /** What a request is answered with. */
  type Reply = Answer<Node?>

  /** The child of a node in memory that a read is for. */
  datatype Child = Child(parent: Node, index: nat)

  /** What was asked: None stands for an absent root. */
  datatype Question = Question(tree: Option<Tree>, start: nat, key: Key)

  ghost predicate ReadOk(r: Read<Child>, nodes: set<Node>)
    reads nodes`fnext
  {
    var c := r.origin;
    c.parent in nodes && c.index < |c.parent.fnext| && c.parent.fnext[c.index] == r.key
  }

  ghost predicate ReadsOk(rs: seq<Read<Child>>, nodes: set<Node>)
    reads nodes`fnext
  {
    forall i | 0 <= i < |rs| :: ReadOk(rs[i], nodes)
  }

  lemma OthersOk(rs: seq<Read<Child>>, nodes: set<Node>, k: nat)
    requires ReadsOk(rs, nodes) && k < |rs|
    ensures ReadsOk(rs[..k] + rs[k + 1..], nodes)
  {
    hide ReadOk;
  }

  lemma OneMoreOk(rs: seq<Read<Child>>, nodes: set<Node>, parent: Node, index: nat)
    requires ReadsOk(rs, nodes) && parent in nodes && index < |parent.fnext|
    ensures ReadsOk(rs + [Read(parent.fnext[index], Child(parent, index))], nodes)
  {
    assert forall i | 0 <= i < |rs| :: ReadOk(rs[i], nodes);
  }

  lemma ReadsMore(rs: seq<Read<Child>>, nodes: set<Node>, more: set<Node>)
    requires ReadsOk(rs, nodes) && nodes <= more
    ensures ReadsOk(rs, more)
  {
    assert forall i | 0 <= i < |rs| :: ReadOk(rs[i], nodes);
  }

  /** The search for what is left has the outcome of the search that was asked for. */
  ghost predicate Asks(q: Question, t: Tree, i: nat, key: Key)
  {
    i <= |t.path| && q.tree.Some? && q.start <= |q.tree.value.path| && Find(t, i, key) == Find(q.tree.value, q.start, q.key)
  }

  /** The continuation stored there will find what its request asked for. */
  ghost predicate OnTrack(c: Cont<()>, o: Offset, asked: map<PromiseId, Question>, disk: Disk)
    requires DiskOk(disk)
  {
    o < |disk| && c.promise in asked && Asks(asked[c.promise], DiskTree(disk, o), 0, c.key)
  }

  ghost predicate AllOnTrack(table: Table<()>, asked: map<PromiseId, Question>, disk: Disk)
    requires DiskOk(disk)
  {
    forall o, i | o in table && 0 <= i < |table[o]| :: OnTrack(table[o][i], o, asked, disk)
  }

  /** The answer is what the blocking search finds, or says that the search must go on elsewhere. */
  ghost predicate Right(q: Question, a: Reply, nodes: set<Node>, disk: Disk)
    requires DiskOk(disk)
    reads nodes`mask, nodes`path, nodes`value, nodes`version, nodes`fnext, nodes`minv
  {
    if q.tree.None? then a == Answer(null, 0, RootNodeIsNull)
    else
      && a.node != null && a.node in nodes && a.node.Shape(|disk|)
      && (a.res != NeedToContinueInIoThread ==>
            q.start <= |q.tree.value.path| &&
            Found(a.node.Denote(disk), a.index, a.res) == Find(q.tree.value, q.start, q.key))
      && (a.res == NeedToContinueInIoThread ==> a.index == |a.node.path| && exists k: Key | k != [] ::
            Asks(q, a.node.Denote(disk), a.index, k))
  }

  ghost predicate AllRight(promises: Promises<Reply>, asked: map<PromiseId, Question>, nodes: set<Node>, disk: Disk)
    requires DiskOk(disk)
    reads nodes`mask, nodes`path, nodes`value, nodes`version, nodes`fnext, nodes`minv
  {
    asked.Keys == promises.Keys && forall p | p in promises && promises[p].Some? :: Right(asked[p], promises[p].value, nodes, disk)
  }

  lemma StoreOnTrack(table: Table<()>, asked: map<PromiseId, Question>, disk: Disk, o: Offset, c: Cont<()>)
    requires DiskOk(disk) && AllOnTrack(table, asked, disk) && OnTrack(c, o, asked, disk)
    ensures AllOnTrack(Stored(table, o, c), asked, disk)
  {
    hide Asks;
  }

  /** The way to `key` below `n` comes to a child that is not in memory. */
  ghost predicate Leaves(mem: Memory, n: Node, t: Tree, key: Key) {
    exists j: nat :: Absent(mem, n, t, key, j)
  }

  /** It does so at the end of the path of `m`. */
  ghost predicate LeavesAt(mem: Memory, n: Node, t: Tree, key: Key, m: Node) {
    m in mem && exists at: nat :: LeavesBehind(mem, n, t, key, m, at)
  }

  ghost predicate LeavesBehind(mem: Memory, n: Node, t: Tree, key: Key, m: Node, at: nat)
    requires m in mem
  {
    at <= |key| && ResidentAt(mem, n, key[..at]) == m && Absent(mem, n, t, key, at + |mem[m].path|)
  }

  /** What one go at a request comes to. In memory it finds its answer; where its way leaves memory, it waits for the
      read on the I/O thread, and elsewhere sends the caller there. */
  ghost predicate Settled(a: Option<Reply>, onIoThread: bool, mem: Memory, n: Node, t: Tree, key: Key) {
    if !Leaves(mem, n, t, key) then a.Some? && a.value.res != NeedToContinueInIoThread
    else if onIoThread then a == None
    else
      && a.Some? && a.value.res == NeedToContinueInIoThread && a.value.node != null && a.value.node in mem
      && LeavesAt(mem, n, t, key, a.value.node)
  }

  lemma SettledAbove(a: Option<Reply>, onIoThread: bool, mem: Memory, n: Node, t: Tree, key: Key, c: Node, d: Tree, rest: Key)
    requires Settled(a, onIoThread, mem, c, d, rest) && (Leaves(mem, n, t, key) <==> Leaves(mem, c, d, rest))
    requires forall m | m in mem && LeavesAt(mem, c, d, rest, m) :: LeavesAt(mem, n, t, key, m)
    ensures Settled(a, onIoThread, mem, n, t, key)
  {
    hide Leaves, LeavesAt;
  }

  /** The way ends at this node. */
  lemma StaysIn(mem: Memory, n: Node, t: Tree, key: Key, i: nat)
    requires i <= |t.path| && i <= |key|
    requires i < |key| ==> if i < |t.path| then key[i] != t.path[i] else Kid(t, key[i]).None?
    ensures !Leaves(mem, n, t, key)
  {
    hide ResidentAt;
    assert key[..0] == [];
    BranchedToNothing(t);
    WayEnds(t, key, 0, i);
    forall j: nat ensures !Absent(mem, n, t, key, j) {
      assert !Branches(t, key, j);
    }
  }

  /** The way goes on below this node. */
  lemma GoesOn(mem: Memory, n: Node, t: Tree, key: Key, l: nat)
    requires l == |t.path| + 1 <= |key| && t.path <= key && n in mem && mem[n].path == t.path && Kid(t, key[l - 1]).Some?
    ensures var c := ChildIn(mem, n, key[l - 1]); var d := Kid(t, key[l - 1]).value;
      if c == null then Leaves(mem, n, t, key) && LeavesAt(mem, n, t, key, n)
      else
        && (Leaves(mem, n, t, key) <==> Leaves(mem, c, d, key[l..]))
        && forall m | m in mem && LeavesAt(mem, c, d, key[l..], m) :: LeavesAt(mem, n, t, key, m)
  {
    hide ResidentAt, BranchedTo, ChildIn;
    var c, d := ChildIn(mem, n, key[l - 1]), Kid(t, key[l - 1]).value;
    AtTheStart(mem, n, t, key);
    assert key[0..] == key && key[..0] == [];
    AbsentHere(mem, mem, n, t, key, 0, n, t);
    if c == null {
      assert Absent(mem, n, t, key, 0 + |mem[n].path|);
      assert LeavesBehind(mem, n, t, key, n, 0) by {
        NowhereElse(mem, n);
      }
    } else {
      hide Absent;
      GoesOnBelow(mem, n, t, key, l, c, d);
      if Leaves(mem, n, t, key) {
        var j: nat :| Absent(mem, n, t, key, j);
        assert Absent(mem, c, d, key[l..], j - l);
      }
      if Leaves(mem, c, d, key[l..]) {
        var j: nat :| Absent(mem, c, d, key[l..], j);
        assert Absent(mem, n, t, key, j + l);
      }
      forall m | m in mem && LeavesAt(mem, c, d, key[l..], m) ensures LeavesAt(mem, n, t, key, m) {
        var at: nat :| LeavesBehind(mem, c, d, key[l..], m, at);
        ResidentOn(mem, n, key[..l], key[l..][..at]);
        assert key[..l] + key[l..][..at] == key[..l + at];
        assert LeavesBehind(mem, n, t, key, m, l + at);
      }
    }
  }

  lemma NowhereElse(mem: Memory, n: Node)
    ensures ResidentAt(mem, n, []) == n
  {
  }

  /** What is missing below the child is what is missing behind its branch. */
  lemma GoesOnBelow(mem: Memory, n: Node, t: Tree, key: Key, l: nat, c: Node, d: Tree)
    requires l == |t.path| + 1 <= |key| && BranchedTo(t, key[..l]) == Some(d) && ResidentAt(mem, n, key[..l]) == c
    ensures forall j: nat | Absent(mem, n, t, key, j) :: j >= l && Absent(mem, c, d, key[l..], j - l)
    ensures forall j: nat | Absent(mem, c, d, key[l..], j) :: Absent(mem, n, t, key, j + l)
  {
    hide ResidentAt, BranchedTo;
    forall j: nat | Absent(mem, n, t, key, j) ensures j >= l && Absent(mem, c, d, key[l..], j - l) {
      assert key[..0] == [];
      BranchedToNothing(t);
      BranchesBelow(t, key, 0, j);
      assert j >= l;
      BranchedOn(t, key[..l], key[l..][..j - l + 1]);
      ResidentOn(mem, n, key[..l], key[l..][..j - l + 1]);
      assert key[..l] + key[l..][..j - l + 1] == key[..j + 1];
    }
    forall j: nat | Absent(mem, c, d, key[l..], j) ensures Absent(mem, n, t, key, j + l) {
      BranchedOn(t, key[..l], key[l..][..j + 1]);
      ResidentOn(mem, n, key[..l], key[l..][..j + 1]);
      assert key[..l] + key[l..][..j + 1] == key[..j + l + 1];
    }
  }

  class Finder {
    const aux: UpdateAux
    var inflights: Table<()>
    var pending: seq<Read<Child>>
    var promises: Promises<Reply>
    ghost var asked: map<PromiseId, Question>
    ghost var place: Places
    ghost var left: map<PromiseId, nat>

    constructor (aux: UpdateAux)
      requires aux.Valid()
      ensures this.aux == aux && Valid({}) && promises == map[] && pending == []
    {
      this.aux := aux;
      inflights, pending, promises := map[], [], map[];
      asked, place, left := map[], map[], map[];
    }

    ghost predicate Valid(hand: set<PromiseId>)
      reads this, aux, aux.nodes
    {
      && aux.Valid() && DiskOk(aux.disk)
      && OneReadEach(pending, inflights.Keys) && ReadsOk(pending, aux.nodes)
      && OneContEach(inflights, promises, place, left, hand)
      && AllOnTrack(inflights, asked, aux.disk)
      && AllRight(promises, asked, aux.nodes, aux.disk)
    }

    /** Sets a promise that is in hand. */
    method SetPromise(p: PromiseId, a: Reply, ghost hand: set<PromiseId>)
      requires Valid(hand) && p in hand && p in asked && Right(asked[p], a, aux.nodes, aux.disk)
      modifies this`promises, this`left
      ensures Valid(hand - {p}) && promises == old(promises)[p := Some(a)] && left == old(left) - {p}
    {
      hide UpdateAux.Valid, OneReadEach, ReadsOk, AllOnTrack, Right, OneContEach, DiskOk;
      SetKeeps(inflights, promises, place, left, hand, p, a);
      promises := promises[p := Some(a)];
      left := left - {p};
    }

    /** Stores the rest of a request with the read of child `index` of `node`, starting that read if need be. */
    method WaitFor(p: PromiseId, node: Node, index: nat, key: Key, ghost hand: set<PromiseId>)
      requires Valid(hand) && p in hand && node in aux.nodes && index < |node.fnext| && p in asked
      requires OnTrack(Cont(p, key, ()), node.fnext[index], asked, aux.disk)
      modifies this`inflights, this`pending, this`place, this`left
      ensures Valid(hand - {p}) && left == old(left)[p := |key| + 1]
    {
      hide UpdateAux.Valid, OneReadEach, ReadsOk, AllOnTrack, AllRight, OneContEach, DiskOk, OnTrack, ReadOk;
      var offset := node.fnext[index];
      var cont := Cont(p, key, ());
      StoreKeeps(inflights, promises, place, left, hand, offset, cont);
      StoreOnTrack(inflights, asked, aux.disk, offset, cont);
      ghost var table := Stored(inflights, offset, cont);
      place := place[p := (offset, if offset in inflights then |inflights[offset]| else 0)];
      left := left[p := |key| + 1];
      ghost var keys := inflights.Keys;
      if offset in inflights {
        inflights := inflights[offset := inflights[offset] + [cont]];
        assert inflights.Keys == keys;
      } else {
        var read := Read(offset, Child(node, index));
        ReadAdded(pending, keys, read);
        OneMoreOk(pending, aux.nodes, node, index);
        inflights := inflights[offset := [] + [cont]];
        assert inflights.Keys == keys + {offset};
        pending := pending + [read];
      }
      assert inflights == table;
    }

    /** Goes on with a request at `node`: answers it, or stores it with a read. */
    method FindFrom(p: PromiseId, node: Node, start: nat, key: Key, onIoThread: bool, ghost hand: set<PromiseId>)
      requires Valid(hand) && p in hand && p in asked && p in promises && promises[p] == None && p in left && left[p] > |key|
      requires node in aux.nodes && node.Shape(|aux.disk|) && Asks(asked[p], node.Denote(aux.disk), start, key)
      modifies this`inflights, this`pending, this`promises, this`place, this`left
      ensures Valid(hand - {p}) && Lighter(old(left), left, p)
      ensures OnlySet(old(promises), promises, p, onIoThread)
      ensures Settled(promises[p], onIoThread, aux.Mem(), node, node.Denote(aux.disk), node.path[..start] + key)
      decreases |key|, 1
    {
      hide UpdateAux.Valid, OneReadEach, ReadsOk, AllOnTrack, AllRight, OneContEach, DiskOk, Node.Denote, Find, KidsOf,
           DiskTree, Rank, UpdateAux.Mem, Leaves, LeavesAt;
      ghost var t := node.Denote(aux.disk);
      SameTop(node, aux.disk);
      var pi, ni := MatchPath(node.path, start, key, t);
      FindStep(t, ni, key[pi..]);
      assert Asks(asked[p], t, ni, key[pi..]);
      assert pi < |key| ==> key[pi..][0] == key[pi] && key[pi..][1..] == key[pi + 1..];
      WayOn(aux, node, start, key, pi, ni);
      if ni < |node.path| {
        SetPromise(p, Answer(node, ni, if pi >= |key| then KeyEndsEarlier else KeyMismatch), hand);
        return;
      }
      if pi == |key| {
        SetPromise(p, Answer(node, ni, Success), hand);
        return;
      }
      WalkableChild(aux, node, key[pi]);
      if node.mask[key[pi]] {
        assert key[pi..] == [key[pi]] + key[pi + 1..];
        GoDown(p, node, ni, key[pi], key[pi + 1..], onIoThread, hand, node.path[..start] + key);
      } else {
        SetPromise(p, Answer(node, ni, BranchNotExist), hand);
      }
    }

    /** Goes on at a child: in memory, or when its read comes back. */
    method GoDown(p: PromiseId, node: Node, ni: nat, branch: Nibble, nextKey: Key, onIoThread: bool, ghost hand: set<PromiseId>, ghost full: Key)
      requires Valid(hand) && p in hand && p in asked && p in promises && promises[p] == None && p in left && left[p] > |nextKey| + 1
      requires node in aux.nodes && node.Shape(|aux.disk|) && ni == |node.path| && node.mask[branch] && Rank(node.mask, branch) < |node.next|
      requires ni + 1 <= |full| && full[ni + 1..] == nextKey && Kid(node.Denote(aux.disk), branch).Some?
      requires Asks(asked[p], node.Denote(aux.disk), ni, [branch] + nextKey) && Asks(asked[p], Kid(node.Denote(aux.disk), branch).value, 0, nextKey)
      requires var t, mem, c := node.Denote(aux.disk), aux.Mem(), node.next[Rank(node.mask, branch)];
        if c == null then Leaves(mem, node, t, full) && LeavesAt(mem, node, t, full, node)
        else
          && (Leaves(mem, node, t, full) <==> Leaves(mem, c, Kid(t, branch).value, nextKey))
          && forall m | m in mem && LeavesAt(mem, c, Kid(t, branch).value, nextKey, m) :: LeavesAt(mem, node, t, full, m)
      modifies this`inflights, this`pending, this`promises, this`place, this`left
      ensures Valid(hand - {p}) && Lighter(old(left), left, p)
      ensures OnlySet(old(promises), promises, p, onIoThread)
      ensures Settled(promises[p], onIoThread, aux.Mem(), node, node.Denote(aux.disk), full)
      decreases |nextKey|, 2
    {
      hide UpdateAux.Valid, OneReadEach, ReadsOk, AllOnTrack, AllRight, OneContEach, DiskOk, Node.Denote, Find, KidsOf,
           DiskTree, Rank, UpdateAux.Mem, Leaves, LeavesAt;
      WalkableChild(aux, node, branch);
      SameTop(node, aux.disk);
      var index := Rank(node.mask, branch);
      aux.ItsLinked(node, index);
      if node.next[index] != null {
        var c := node.next[index];
        ghost var mem, t, d := aux.Mem(), node.Denote(aux.disk), c.Denote(aux.disk);
        assert c.path[..0] + nextKey == nextKey && d == Kid(t, branch).value;
        assert forall m | m in mem && LeavesAt(mem, c, d, nextKey, m) :: LeavesAt(mem, node, t, full, m);
        FindFrom(p, c, 0, nextKey, onIoThread, hand);
        SettledAbove(promises[p], onIoThread, mem, node, t, full, c, d, nextKey);
      } else if !onIoThread {
        SetPromise(p, Answer(node, ni, NeedToContinueInIoThread), hand);
      } else {
        WaitFor(p, node, index, nextKey, hand);
      }
    }

    /** Where the way goes after the path of a node has been matched as far as it agrees with the key. */
    lemma WayOn(aux: UpdateAux, node: Node, start: nat, key: Key, pi: nat, ni: nat)
      requires aux.Valid() && node in aux.nodes && DiskOk(aux.disk) && node.Shape(|aux.disk|)
      requires start <= ni <= |node.path| && pi <= |key| && pi == ni - start && node.path[start..ni] == key[..pi]
      requires pi == |key| || ni == |node.path| || key[pi] != node.path[ni]
      ensures var t, full, mem := node.Denote(aux.disk), node.path[..start] + key, aux.Mem();
        if ni < |node.path| || pi == |key| || !node.mask[key[pi]] then !Leaves(mem, node, t, full)
        else
          && full[ni + 1..] == key[pi + 1..] && Rank(node.mask, key[pi]) < |node.next| && Kid(t, key[pi]).Some?
          && var c := node.next[Rank(node.mask, key[pi])];
            if c == null then Leaves(mem, node, t, full) && LeavesAt(mem, node, t, full, node)
            else
              && (Leaves(mem, node, t, full) <==> Leaves(mem, c, Kid(t, key[pi]).value, full[ni + 1..]))
              && forall m | m in mem && LeavesAt(mem, c, Kid(t, key[pi]).value, full[ni + 1..], m) :: LeavesAt(mem, node, t, full, m)
    {
      hide DiskTree, Leaves, LeavesAt, Rank, UpdateAux.Valid;
      aux.ItsShape(node);
      var t, full, mem := node.Denote(aux.disk), node.path[..start] + key, aux.Mem();
      assert pi < |key| ==> full[ni] == key[pi];
      if ni < |node.path| || pi == |key| || !node.mask[key[pi]] {
        StaysIn(mem, node, t, full, ni);
      } else {
        RankMono(node.mask, key[pi], BRANCHES);
        assert node.path <= full by {
          assert node.path == node.path[..start] + node.path[start..ni];
        }
        GoesOn(mem, node, t, full, ni + 1);
      }
    }

    lemma PendingIsOk(r: Read<Child>)
      requires aux.Valid() && OneReadEach(pending, inflights.Keys) && ReadsOk(pending, aux.nodes) && r in pending
      ensures ReadOk(r, aux.nodes) && r.key in inflights && |r.origin.parent.next| == |r.origin.parent.fnext|
    {
      var k :| 0 <= k < |pending| && pending[k] == r;
      ReadTaken(pending, inflights.Keys, k);
      assert Linked(r.origin.parent, aux.nodes, aux.up, aux.disk);
    }

    /** Makes sure the node a read was for is in memory. */
    method LoadAwaited(r: Read<Child>) returns (node: Node)
      requires Valid({}) && r in pending
      modifies aux`nodes, aux`up, r.origin.parent`next
      ensures Valid({}) && aux.disk == old(aux.disk) && ReadOk(r, aux.nodes) && r.key < |aux.disk|
      ensures r.key in inflights && fresh(aux.nodes - old(aux.nodes))
      ensures node in aux.nodes && node.Shape(|aux.disk|) && node.Denote(aux.disk) == DiskTree(aux.disk, r.key)
      ensures r.origin.index < |r.origin.parent.next| && r.origin.parent.next[r.origin.index] == node
    {
      hide OneContEach, AllOnTrack, UpdateAux.Valid, Node.Denote, DiskTree, KidsOf, Rank, Find, Asks, AllRight, DiskOk, OneReadEach, ReadsOk;
      ghost var nodes := aux.nodes;
      PendingIsOk(r);
      var parent, index := r.origin.parent, r.origin.index;
      aux.ItsLinked(parent, index);
      if parent.next[index] == null {
        var ok := aux.LoadChild(parent, index, true);
        RightMore(promises, asked, nodes, aux.nodes, aux.disk);
        ReadsMore(pending, nodes, aux.nodes);
        aux.ItsLinked(parent, index);
      }
      node := parent.next[index];
    }

    /** The continuations waiting for an offset leave the table. */
    method TakeOut(offset: Offset) returns (conts: seq<Cont<()>>)
      requires aux.Valid() && DiskOk(aux.disk) && offset in inflights
      requires OneReadEach(pending, inflights.Keys - {offset}) && ReadsOk(pending, aux.nodes) && OneContEach(inflights, promises, place, left, {})
      requires AllOnTrack(inflights, asked, aux.disk) && AllRight(promises, asked, aux.nodes, aux.disk)
      modifies this`inflights, this`place
      ensures conts == old(inflights)[offset] && conts != [] && Valid(Promised(conts, 0))
      ensures Ready(conts, 0, offset)
    {
      hide UpdateAux.Valid, OneReadEach, ReadsOk, AllRight, DiskOk, OnTrack;
      conts := inflights[offset];
      TakeKeeps(inflights, promises, place, left, offset);
      ghost var keys := inflights.Keys;
      place := Elsewhere(place, offset);
      inflights := inflights - {offset};
      assert inflights.Keys == keys - {offset};
    }

    /** The continuations from `i` on are in hand, each for a promise of its own. */
    ghost predicate Ready(conts: seq<Cont<()>>, i: nat, offset: Offset)
      requires DiskOk(aux.disk)
      reads this`promises, this`asked, this`left, aux`disk
    {
      && (forall j | i <= j < |conts| :: conts[j].promise in left && left[conts[j].promise] == |conts[j].key| + 1
            && conts[j].promise in promises && promises[conts[j].promise] == None && OnTrack(conts[j], offset, asked, aux.disk))
      && forall j, l | i <= j < l < |conts| :: conts[j].promise != conts[l].promise
    }

    /** Read `k` comes back: everybody waiting for the node goes on from it. */
    method SetValue(k: nat)
      requires Valid({}) && k < |pending|
      modifies this`inflights, this`pending, this`promises, this`place, this`left
      modifies aux`nodes, aux`up, pending[k].origin.parent`next
      ensures Valid({}) && aux.disk == old(aux.disk) && asked == old(asked) && fresh(aux.nodes - old(aux.nodes))
      ensures OthersKept(old(promises), promises)
      ensures Sum(left) < old(Sum(left))
      ensures var c := old(pending[k].origin); c.index < |c.parent.next| && c.parent.next[c.index] != null
    {
      hide UpdateAux.Valid, OneReadEach, ReadsOk, AllOnTrack, AllRight, OneContEach, DiskOk, Node.Denote, DiskTree, Sum, Ready, OthersKept;
      var r := pending[k];
      var node := LoadAwaited(r);
      ReadTaken(pending, inflights.Keys, k);
      OthersOk(pending, aux.nodes, k);
      var offset := r.key;
      pending := pending[..k] + pending[k + 1..];
      TakenKey(inflights, promises, place, left, offset);
      if offset in inflights {
        var conts := TakeOut(offset);
        GoOn(conts, offset, node);
      }
    }

    /** Runs the continuations one after the other. */
    method GoOn(conts: seq<Cont<()>>, offset: Offset, node: Node)
      requires conts != [] && Valid(Promised(conts, 0)) && Ready(conts, 0, offset)
      requires offset < |aux.disk| && node in aux.nodes && node.Shape(|aux.disk|) && node.Denote(aux.disk) == DiskTree(aux.disk, offset)
      modifies this`inflights, this`pending, this`promises, this`place, this`left
      ensures Valid({}) && OthersKept(old(promises), promises) && Sum(left) < old(Sum(left))
    {
      hide UpdateAux.Valid, OneReadEach, ReadsOk, AllOnTrack, AllRight, OneContEach, DiskOk, Node.Denote, DiskTree, Sum, Promised;
      for i := 0 to |conts|
        invariant Valid(Promised(conts, i)) && Ready(conts, i, offset)
        invariant OthersKept(old(promises), promises)
        invariant if i == 0 then Sum(left) == old(Sum(left)) else Sum(left) < old(Sum(left))
      {
        var c := conts[i];
        ghost var before := left;
        PromisedStep(conts, i);
        FindFrom(c.promise, node, 0, c.key, true, Promised(conts, i));
        LighterSum(before, left, c.promise);
        OthersStay(before, left, c.promise);
      }
      PromisedStep(conts, |conts|);
    }

    /** A new request for `key` below `root`, to be answered through promise `p`. */
    method Request(p: PromiseId, root: Node?, start: nat, key: Key, onIoThread: bool)
      requires Valid({}) && p !in promises && (root != null ==> root in aux.nodes && root.Shape(|aux.disk|) && start <= |root.path|)
      modifies this`inflights, this`pending, this`promises, this`asked, this`place, this`left
      ensures Valid({})
      ensures asked == old(asked)[p := Question(if root == null then None else Some(root.Denote(aux.disk)), start, key)]
      ensures promises.Keys == old(promises).Keys + {p} && forall q | q in old(promises) :: promises[q] == old(promises)[q]
      ensures if root == null then promises[p] == Some(Answer(null, 0, RootNodeIsNull))
              else Settled(promises[p], onIoThread, aux.Mem(), root, root.Denote(aux.disk), root.path[..start] + key)
    {
      hide UpdateAux.Valid, OneReadEach, ReadsOk, AllOnTrack, AllRight, OneContEach, DiskOk, Node.Denote, Find, UpdateAux.Mem, Settled;
      ghost var q := Question(if root == null then None else Some(root.Denote(aux.disk)), start, key);
      AskKeeps(p, q);
      assert {p} - {p} == {};
      promises, asked, left := promises[p := None], asked[p := q], left[p := |key| + 1];
      if root == null {
        SetPromise(p, Answer(null, 0, RootNodeIsNull), {p});
      } else {
        SameTop(root, aux.disk);
        FindFrom(p, root, start, key, onIoThread, {p});
      }
    }

    lemma AskKeeps(p: PromiseId, q: Question)
      requires Valid({}) && p !in promises
      ensures OneContEach(inflights, promises[p := None], place, left[p := |q.key| + 1], {p})
      ensures AllOnTrack(inflights, asked[p := q], aux.disk)
      ensures AllRight(promises[p := None], asked[p := q], aux.nodes, aux.disk)
    {
      hide UpdateAux.Valid, OneReadEach, ReadsOk, Right, Asks, DiskOk;
      var promises', left' := promises[p := None], left[p := |q.key| + 1];
      forall r ensures Unset(promises', r) <==> r in place || r == p {
        assert r != p ==> (Unset(promises', r) <==> Unset(promises, r));
      }
      forall o, i | o in inflights && 0 <= i < |inflights[o]| ensures HeldAt(inflights, place, left', o, i) {
        assert HeldAt(inflights, place, left, o, i) && OnTrack(inflights[o][i], o, asked, aux.disk);
        assert Unset(promises, inflights[o][i].promise);
      }
    }

    /** Lets every read come back, in the order `schedule` picks: then every promise has its answer. */
    method Drain(schedule: nat -> nat)
      requires Valid({})
      modifies this`inflights, this`pending, this`promises, this`place, this`left
      modifies aux`nodes, aux`up, aux.nodes`next
      ensures Valid({}) && pending == [] && asked == old(asked) && aux.disk == old(aux.disk)
      ensures forall p | p in promises :: promises[p].Some? && Right(asked[p], promises[p].value, aux.nodes, aux.disk)
      ensures OthersKept(old(promises), promises)
    {
      hide UpdateAux.Valid, OneReadEach, ReadsOk, AllOnTrack, OneContEach, DiskOk, Right, Sum;
      var turn := 0;
      while pending != []
        invariant Valid({}) && asked == old(asked) && aux.disk == old(aux.disk) && fresh(aux.nodes - old(aux.nodes))
        invariant OthersKept(old(promises), promises)
        decreases Sum(left)
      {
        var k := schedule(turn) % |pending|;
        PendingIsOk(pending[k]);
        SetValue(k);
        turn := turn + 1;
      }
      NoReads(pending, inflights.Keys);
      NobodyWaits(inflights, promises, place, left);
    }
  }

  lemma RightMore(promises: Promises<Reply>, asked: map<PromiseId, Question>, nodes: set<Node>, more: set<Node>, disk: Disk)
    requires DiskOk(disk) && nodes <= more && AllRight(promises, asked, nodes, disk)
    ensures AllRight(promises, asked, more, disk)
  {
    hide Asks, Find, Node.Denote, KidsOf;
    forall p | p in promises && promises[p].Some? ensures Right(asked[p], promises[p].value, more, disk) {
      assert Right(asked[p], promises[p].value, nodes, disk);
    }
  }
}
