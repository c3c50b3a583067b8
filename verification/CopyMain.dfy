/** The whole copy. */
module CopyMain {
  import opened Trie
  import opened TrieHeap
  import opened CopySpec
  import opened VersionOrder
  import opened NodeBuilders
  import opened CopyTrie
  import opened CopyBuild
  import opened CopyRewrite

  /** Ancestor `k` took the branch recorded for it. */
  ghost predicate OnPath(w: Place, g: Way, k: nat, nodes: set<Node>)
    requires k < |w.stack| == |g.ctx| && |g.trail| == |w.stack| + 1
    reads w.stack[k].node`mask, w.stack[k].node`next
  {
    var s := w.stack[k];
    && s.node in nodes && |s.node.mask| == BRANCHES && s.node == g.trail[k]
    && s.node.mask[g.ctx[k].branch] && s.index == Rank(s.node.mask, g.ctx[k].branch) < |s.node.next|
  }

  ghost predicate Leads(w: Place, g: Way, k: nat, nodes: set<Node>)
    requires k < |w.stack| == |g.ctx| && |g.trail| == |w.stack| + 1
    reads w.stack[k].node`mask, w.stack[k].node`next
  {
    var s := w.stack[k];
    OnPath(w, g, k, nodes) && s.node != w.node && s.node.next[s.index] == g.trail[k + 1]
  }

  /** Ancestor `k` still leads to the next node unless it is the node whose children were moved. */
  ghost predicate Step1(w: Place, g: Way, srcNode: Node, k: nat, nodes: set<Node>)
    requires k < |w.stack| == |g.ctx| && |g.trail| == |w.stack| + 1
    reads w.stack[k].node`mask, w.stack[k].node`next
  {
    var s := w.stack[k];
    && OnPath(w, g, k, nodes)
    && s.node.next[s.index] == if s.node == srcNode then null else g.trail[k + 1]
  }

  /** Before the new node is built nothing has been moved. */
  lemma WalkedSteps(root: Node, w: Place, g: Way, aux: UpdateAux)
    requires aux.Valid() && Walked(root, w, g, aux.nodes, aux.up, aux.disk)
    ensures |w.stack| == |g.ctx| && |g.trail| == |w.stack| + 1 && Distinct(g.trail) && g.trail[0] == root
    ensures Means(w.stack, g.ctx, aux.nodes, aux.disk)
    ensures forall k | 0 <= k < |w.stack| :: Leads(w, g, k, aux.nodes)
  {
    hide KidsOf, Node.Denote, Rank;
    RouteIsDistinct(RouteOf(g), root, w.node, aux.nodes, aux.up);
    forall k | 0 <= k < |w.stack| ensures Leads(w, g, k, aux.nodes) {
      assert Entry(w, g, k) && LinkAt(RouteOf(g), k, aux.nodes, aux.up);
    }
  }

  lemma ClimbStart(w: Place, g: Way, n: Node, newTree: Tree, nodes: set<Node>, disk: Disk)
    requires DiskOk(disk) && |w.stack| == |g.ctx| && Means(w.stack, g.ctx, nodes, disk)
    requires n in nodes && n.Shape(|disk|) && n.Denote(disk) == newTree
    ensures Climbed(w.stack, g.ctx, n, newTree, |w.stack| + 1, nodes, disk)
  {
    hide KidsOf, Node.Denote;
  }

  /** The new node sits below the last ancestor: the ladder is ready to be climbed. */
  lemma LadderReady(w: Place, g: Way, n: Node, srcNode: Node, nodes: set<Node>)
    requires |w.stack| == |g.ctx| > 0 && |g.trail| == |w.stack| + 1 && Distinct(g.trail)
    requires n in nodes && n !in g.trail
    requires forall k | 0 <= k < |w.stack| - 1 :: Step1(w, g, srcNode, k, nodes)
    requires OnPath(w, g, |w.stack| - 1, nodes)
    requires var s := w.stack[|w.stack| - 1]; s.node.next[s.index] == n
    ensures Ladder(w.stack, g.ctx, n, nodes)
    ensures forall k | 0 <= k < |w.stack| :: w.stack[k].index < |w.stack[k].node.next|
    ensures (forall k | 0 <= k < |w.stack| :: w.stack[k].node.next[w.stack[k].index] != null)
            <==> forall k | 0 <= k < |w.stack| - 1 :: w.stack[k].node != srcNode
  {
    hide Rank;
    var m := |w.stack| - 1;
    forall k | 0 <= k < |w.stack|
      ensures w.stack[k].node == g.trail[k] && Rung(w.stack, g.ctx, n, k, nodes)
      ensures w.stack[k].node.next[w.stack[k].index] == null <==> k < m && w.stack[k].node == srcNode
    {
      if k < m {
        assert Step1(w, g, srcNode, k, nodes);
        if k + 1 < m {
          assert Step1(w, g, srcNode, k + 1, nodes);
        }
      }
    }
  }

  /** Hangs the new node below the last ancestor and rewrites the ancestors. */
  method AttachAndRewrite(aux: UpdateAux, root: Node, w: Place, n: Node, ghost g: Way, ghost srcNode: Node)
    returns (ok: bool)
    requires aux.Valid() && n in aux.nodes && n !in aux.up && root !in aux.up && root in aux.nodes
    requires |w.stack| == |g.ctx| > 0 && |g.trail| == |w.stack| + 1 && Distinct(g.trail)
    requires n !in g.trail && g.trail[0] == root
    requires Means(w.stack, g.ctx, aux.nodes, aux.disk)
    requires forall k | 0 <= k < |w.stack| :: Step1(w, g, srcNode, k, aux.nodes)
    requires n.Shape(|aux.disk|)
    modifies aux`disk, aux`up
    modifies (set k | 0 <= k < |w.stack| :: w.stack[k].node)`next
    modifies (set k | 0 <= k < |w.stack| :: w.stack[k].node)`fnext, (set k | 0 <= k < |w.stack| :: w.stack[k].node)`minv
    ensures ok <==> forall k | 0 <= k < |w.stack| - 1 :: w.stack[k].node != srcNode
    ensures ok ==> aux.Valid() && root !in aux.up && DiskOk(aux.disk) && old(aux.disk) <= aux.disk
    ensures ok ==> root.Shape(|aux.disk|) && root.Denote(aux.disk) == Plug(g.ctx, old(n.Denote(aux.disk)))
    ensures ok && old(aux.Exact()) ==> aux.Exact()
    ensures ok ==> Kept(aux.nodes - (set k | 0 <= k < |w.stack| :: w.stack[k].node), old(aux.disk), aux.disk)
  {
    hide KidsOf, Node.Denote, ValidBut, Rank, Ladder, Climbed, Kept, UpdateAux.Exact;
    ghost var newTree := n.Denote(aux.disk);
    var last := w.stack[|w.stack| - 1];
    assert Step1(w, g, srcNode, |w.stack| - 1, aux.nodes) && Step1(w, g, srcNode, 0, aux.nodes);
    assert w.stack[0].node == root;
    ClimbStart(w, g, n, newTree, aux.nodes, aux.disk);
    label B:
    SetNext(aux, last.node, last.index, n);
    forall k | 0 <= k < |w.stack| - 1 ensures Step1(w, g, srcNode, k, aux.nodes) {
      assert old@B(Step1(w, g, srcNode, k, aux.nodes)) && old@B(Step1(w, g, srcNode, |w.stack| - 1, aux.nodes));
    }
    LadderReady(w, g, n, srcNode, aux.nodes);
    ok := RewriteAncestors(aux, w.stack, n, g.ctx, newTree);
    if ok {
      ParentlessIsHarmless(aux, root);
      RootClimbed(w.stack, g.ctx, n, newTree, aux.nodes, aux.disk);
    }
  }

  lemma RootClimbed(stack: seq<Step>, ctx: seq<Frame>, n: Node, newTree: Tree, nodes: set<Node>, disk: Disk)
    requires DiskOk(disk) && |ctx| == |stack| > 0 && Climbed(stack, ctx, n, newTree, 0, nodes, disk)
    ensures stack[0].node.Shape(|disk|) && stack[0].node.Denote(disk) == Plug(ctx, newTree)
  {
    assert ctx[0..] == ctx;
  }

  /** The other roots. */
  function Bystanders(nodes: set<Node>, up: Parents, root: Node): set<Node> {
    set n | n in nodes && n !in up && n != root
  }

  lemma MeansKept(stack: seq<Step>, ctx: seq<Frame>, nodes: set<Node>, d: Disk, d': Disk, more: set<Node>)
    requires |stack| == |ctx| && Kept(nodes, d, d') && Means(stack, ctx, nodes, d) && nodes <= more
    ensures Means(stack, ctx, more, d')
  {
    hide KidsOf, Node.Denote;
  }

  lemma BystandersKept(w: Place, others: set<Node>, now: set<Node>, d: Disk, d': Disk, d'': Disk)
    requires Kept(others, d, d') && others <= now
    requires Kept(now - (set k | 0 <= k < |w.stack| :: w.stack[k].node), d', d'')
    requires forall k | 0 <= k < |w.stack| :: w.stack[k].node !in others
    ensures Kept(others, d, d'')
  {
    hide KidsOf, Node.Denote;
  }

  lemma PathIsNoBystander(root: Node, w: Place, g: Way, nodes: set<Node>, up: Parents, disk: Disk, others: set<Node>)
    requires DiskOk(disk) && Walked(root, w, g, nodes, up, disk)
    requires root !in others && forall n | n in others :: n !in up
    ensures forall k | 0 <= k < |w.stack| :: w.stack[k].node !in others
    ensures forall n | n in g.trail :: n in nodes
  {
    hide KidsOf, Node.Denote, Rank, Means;
    forall k | 0 <= k < |w.stack| ensures w.stack[k].node !in others && g.trail[k] in nodes {
      assert Entry(w, g, k) && LinkAt(RouteOf(g), k, nodes, up);
      if k > 0 {
        assert LinkAt(RouteOf(g), k - 1, nodes, up);
      }
    }
  }

  /** Ancestor `k` is the source node exactly when the roots and the keys agree. */
  lemma SourceIsAncestor(root: Node, w: Place, g: Way, held: Held, sp: Key, nodes: set<Node>, up: Parents, disk: Disk, k: nat)
    requires DiskOk(disk) && Walked(root, w, g, nodes, up, disk) && k < |w.stack|
    requires Standing(held, nodes, up) && held.root !in up && Before(held.route.hops) + held.last.path == sp
    ensures w.stack[k].node == held.last <==> held.root == root && AncestorKeys(g.ctx)[k] == sp
  {
    hide KidsOf, Node.Denote, Rank, Before;
    assert Entry(w, g, k);
    var r := RouteOf(g);
    var here := Route(r.trail[..k + 1], r.hops[..k]);
    forall j | 0 <= j < k ensures LinkAt(here, j, nodes, up) {
      assert LinkAt(r, j, nodes, up);
    }
    var n := g.trail[k];
    assert LinkAt(r, k, nodes, up);
    assert Resident(here, root, n, nodes, up);
    assert AncestorKeys(g.ctx)[k] == Before(here.hops) + n.path;
    if n == held.last {
      SameEnd(here, root, held.route, held.root, n, nodes, up);
    }
    if held.root == root && AncestorKeys(g.ctx)[k] == sp {
      SameKey(here, n, held.route, held.last, root, nodes, up);
    }
  }

  /** The source node is an ancestor whose child pointer is still needed exactly for a self-nested copy. */
  lemma NestedIsOnPath(root: Node, whole: Tree, w: Place, g: Way, stop: Stop, job: Job, held: Held, sp: Key, aux: UpdateAux)
    requires aux.Valid() && OnTheWay(root, whole, w, g, job, aux.nodes, aux.up, aux.disk)
    requires stop != Refusal && StopsFor(stop, w, job.dp)
    requires Standing(held, aux.nodes, aux.up) && held.root !in aux.up && Before(held.route.hops) + held.last.path == sp
    ensures (exists k :: 0 <= k < |w.stack| - 1 && w.stack[k].node == held.last)
            <==> held.root == root && SelfNested(whole, sp, job.dp)
  {
    hide KidsOf, Rank, Before, Resident, Means;
    var ks := AncestorKeys(g.ctx);
    WalkEndsHere(w, stop, job, aux);
    assert Descents(whole, job.dp) == ks;
    forall k | 0 <= k < |w.stack|
      ensures w.stack[k].node == held.last <==> held.root == root && ks[k] == sp
    {
      SourceIsAncestor(root, w, g, held, sp, aux.nodes, aux.up, aux.disk, k);
    }
    if held.root == root && SelfNested(whole, sp, job.dp) {
      var k :| 0 <= k < |ks| - 1 && ks[..|ks| - 1][k] == sp;
      assert w.stack[k].node == held.last;
    }
    if k :| 0 <= k < |w.stack| - 1 && w.stack[k].node == held.last {
      assert ks[..|ks| - 1][k] == sp;
    }
  }

  lemma WalkEndsHere(w: Place, stop: Stop, job: Job, aux: UpdateAux)
    requires aux.Valid() && w.node.Shape(|aux.disk|) && Position(w.node, job.dp, w.pi, w.ni)
    requires stop != Refusal && StopsFor(stop, w, job.dp)
    ensures Descents(w.node.Denote(aux.disk), Rest(job.dp, w.pi, w.ni)) == []
  {
    var rest := Rest(job.dp, w.pi, w.ni);
    assert rest[..w.ni] == job.dp[w.pi - w.ni..w.pi];
    CommonPrefixIs(w.node.path, rest, w.ni);
    if w.pi < |job.dp| {
      assert rest[w.ni] == job.dp[w.pi];
    }
  }

  /** Everything Build leaves behind for the ancestors. */
  lemma StillOnPath(w: Place, g: Way, srcNode: Node, nodes: set<Node>, more: set<Node>, k: nat)
    requires k < |w.stack| == |g.ctx| && |g.trail| == |w.stack| + 1 && nodes <= more
    requires OnPath(w, g, k, nodes)
    requires w.stack[k].node.next[w.stack[k].index] == if w.stack[k].node == srcNode then null else g.trail[k + 1]
    ensures Step1(w, g, srcNode, k, more)
  {
  }

  /** Builds the new node at the place where the walk stopped and brings the ancestors up to date. */
  method Finish(aux: UpdateAux, srcNode: Node, root: Node, w: Place, stop: Stop, dp: Key, rv: Option<Bytes>, ver: int,
                ghost g: Way, ghost others: set<Node>)
    returns (r: Node?)
    requires aux.Valid() && srcNode in aux.nodes && root in aux.nodes && root !in aux.up
    requires DiskOk(aux.disk) && srcNode.Shape(|aux.disk|) && w.node.Shape(|aux.disk|) && w.node in aux.nodes
    requires stop != Refusal && StopsFor(stop, w, dp) && Position(w.node, dp, w.pi, w.ni)
    requires |w.stack| == |g.ctx| && |g.trail| == |w.stack| + 1 && Distinct(g.trail) && g.trail[0] == root
    requires Means(w.stack, g.ctx, aux.nodes, aux.disk)
    requires forall k | 0 <= k < |w.stack| :: Leads(w, g, k, aux.nodes)
    requires forall k | 0 <= k < |w.stack| :: w.stack[k].node !in others
    requires (forall n | n in g.trail :: n in aux.nodes) && others <= aux.nodes
    modifies aux, aux.nodes`next, aux.nodes`fnext, aux.nodes`minv
    ensures r != null ==> aux.Valid() && r in aux.nodes && r !in aux.up
    ensures r != null ==> DiskOk(aux.disk) && old(aux.disk) <= aux.disk && r.Shape(|aux.disk|)
    ensures r != null && old(aux.Exact()) ==> aux.Exact()
    ensures r != null ==> Kept(others, old(aux.disk), aux.disk)
    ensures forall n | n in others :: n.fnext == old(n.fnext) && n.minv == old(n.minv)
    ensures var b := Graft(old(w.node.Denote(aux.disk)), w.stack == [], Rest(dp, w.pi, w.ni), old(srcNode.Denote(aux.disk)), rv, ver);
            && (r != null ==> PlugOpt(g.ctx, b) == Some(r.Denote(aux.disk)))
            && (r == null <==> b == None || exists k :: 0 <= k < |w.stack| - 1 && w.stack[k].node == srcNode)
  {
    hide KidsOf, Node.Denote, Rank, Graft, Kept, StopsFor, Distinct, UpdateAux.Valid, UpdateAux.Exact, Means;
    ghost var nodes, d0 := aux.nodes, aux.disk;
    forall k | 0 <= k < |w.stack| ensures w.stack[k].node in nodes {
      assert Leads(w, g, k, aux.nodes);
    }
    label B:
    var n := Build(aux, srcNode, w, stop, dp, w.stack == [], rv, ver);
    if n == null {
      return null;
    }
    ghost var d1 := aux.disk;
    KeptSubset(others, nodes, d0, d1);
    if w.stack == [] {
      return n;
    }
    MeansKept(w.stack, g.ctx, nodes, d0, d1, aux.nodes);
    forall k | 0 <= k < |w.stack| ensures Step1(w, g, srcNode, k, aux.nodes) {
      assert old@B(Leads(w, g, k, aux.nodes));
      StillOnPath(w, g, srcNode, nodes, aux.nodes, k);
    }
    ghost var now := aux.nodes;
    var ok := AttachAndRewrite(aux, root, w, n, g, srcNode);
    if ok {
      BystandersKept(w, others, now, d0, d1, aux.disk);
    }
    r := if ok then root else null;
  }

  /** The copy into an existing trie, from a source node already found. */
  method CopyInto(aux: UpdateAux, srcNode: Node, root: Node, dp: Key, rv: Option<Bytes>, ver: int, valid: nat -> bool,
                  ghost held: Held, ghost sp: Key)
    returns (r: Node?, stop: Stop)
    requires aux.Valid() && srcNode in aux.nodes && root in aux.nodes && root !in aux.up
    requires DiskOk(aux.disk) && srcNode.Shape(|aux.disk|) && root.Shape(|aux.disk|)
    requires Standing(held, aux.nodes, aux.up) && held.last == srcNode && held.root in aux.nodes && held.root !in aux.up
    requires Before(held.route.hops) + srcNode.path == sp
    modifies aux, aux.nodes`next, aux.nodes`fnext, aux.nodes`minv
    ensures stop == Refusal <==> old(aux.GivesUp(root, 0, dp, valid))
    ensures r != null ==> aux.Valid() && r in aux.nodes && r !in aux.up
    ensures r != null ==> DiskOk(aux.disk) && old(aux.disk) <= aux.disk && r.Shape(|aux.disk|)
    ensures r != null ==>
              Graft(old(root.Denote(aux.disk)), true, dp, old(srcNode.Denote(aux.disk)), rv, ver) == Some(r.Denote(aux.disk))
    ensures r != null && old(aux.Exact()) ==> aux.Exact()
    ensures r != null ==> Kept(Bystanders(old(aux.nodes), old(aux.up), root), old(aux.disk), aux.disk)
    ensures forall n | n in Bystanders(old(aux.nodes), old(aux.up), root) :: n.fnext == old(n.fnext) && n.minv == old(n.minv)
    ensures r == null <==>
            || stop == Refusal
            || Graft(old(root.Denote(aux.disk)), true, dp, old(srcNode.Denote(aux.disk)), rv, ver) == None
            || (held.root == root && SelfNested(old(root.Denote(aux.disk)), sp, dp))
  {
    hide KidsOf, Node.Denote, Rank, Graft, Kept, StopsFor, Plug, UpdateAux.Valid, UpdateAux.Exact, Walked, Means, Distinct, Before, Standing, Descents,
         UpdateAux.GivesUp;
    ghost var job, whole := Job(dp, srcNode.Denote(aux.disk), rv, ver), root.Denote(aux.disk);
    ghost var others := Bystanders(aux.nodes, aux.up, root);
    var w: Place;
    ghost var g;
    stop, w, g := Walk(aux, root, dp, valid, job, held);
    if stop == Refusal {
      return null, stop;
    }
    WalkedSteps(root, w, g, aux);
    PathIsNoBystander(root, w, g, aux.nodes, aux.up, aux.disk, others);
    NestedIsOnPath(root, whole, w, g, stop, job, held, sp, aux);
    r := Finish(aux, srcNode, root, w, stop, dp, rv, ver, g, others);
  }

  /** The way to the destination comes to a child that is not in memory, and that the search for the source does not
      bring in, at a nibble at which the answer is no. */
  ghost predicate DestGivesUp(aux: UpdateAux, srcRoot: Node, sp: Key, destRoot: Node?, dp: Key, valid: nat -> bool)
    reads aux`disk, aux`nodes, aux.nodes`mask, aux.nodes`path, aux.nodes`next, destRoot
  {
    destRoot != null && DiskOk(aux.disk) && destRoot.Shape(|aux.disk|) &&
    RefusedBeside(aux.Mem(), destRoot, destRoot.Denote(aux.disk), dp, valid, srcRoot == destRoot, sp)
  }

  ghost predicate RefusedBeside(mem: Memory, root: Node, t: Tree, dp: Key, valid: nat -> bool, same: bool, sp: Key) {
    exists k: nat | k < |dp| :: !valid(k) && Absent(mem, root, t, dp, k) && !(same && dp[..k + 1] <= sp)
  }

  /** What the destination walk is refused after the source has been searched for. */
  lemma RefusedAfter(aux: UpdateAux, before: Memory, srcRoot: Node, sp: Key, destRoot: Node, dp: Key, valid: nat -> bool)
    requires DiskOk(aux.disk) && destRoot.Shape(|aux.disk|) && srcRoot.Shape(|aux.disk|) && destRoot in before && destRoot !in aux.up
    requires Loaded(before, aux.Mem(), srcRoot, srcRoot.Denote(aux.disk), sp, |sp|) && aux.SameElsewhere(before, srcRoot)
    ensures aux.GivesUp(destRoot, 0, dp, valid) <==>
              RefusedBeside(before, destRoot, destRoot.Denote(aux.disk), dp, valid, srcRoot == destRoot, sp)
  {
    hide KidsOf, ResidentAt, BranchedTo, MemoryOf;
    var t := destRoot.Denote(aux.disk);
    assert destRoot.path[..0] + dp == dp;
    forall k: nat | k < |dp|
      ensures Absent(aux.Mem(), destRoot, t, dp, 0 + k) <==>
                Absent(before, destRoot, t, dp, k) && !(srcRoot == destRoot && dp[..k + 1] <= sp)
    {
      if srcRoot == destRoot {
        assert LoadedAt(before, aux.Mem(), srcRoot, t, sp, |sp|, dp[..k + 1]);
      } else {
        assert SameAt(before, aux.Mem(), destRoot, dp[..k + 1]);
      }
    }
    BesideIs(before, aux.Mem(), destRoot, t, dp, valid, srcRoot == destRoot, sp);
  }

  lemma BesideIs(before: Memory, mem: Memory, root: Node, t: Tree, dp: Key, valid: nat -> bool, same: bool, sp: Key)
    requires forall k: nat | k < |dp| ::
      Absent(mem, root, t, dp, 0 + k) <==> Absent(before, root, t, dp, k) && !(same && dp[..k + 1] <= sp)
    ensures Refused(mem, root, t, dp, 0, |dp|, valid) <==> RefusedBeside(before, root, t, dp, valid, same, sp)
  {
    hide Absent;
    if Refused(mem, root, t, dp, 0, |dp|, valid) {
      var k: nat :| k < |dp| && !valid(k) && Absent(mem, root, t, dp, 0 + k);
      assert Absent(before, root, t, dp, k);
    }
    if RefusedBeside(before, root, t, dp, valid, same, sp) {
      var k: nat :| k < |dp| && !valid(k) && Absent(before, root, t, dp, k) && !(same && dp[..k + 1] <= sp);
      assert Absent(mem, root, t, dp, 0 + k);
    }
  }

  datatype Outcome = Copied(root: Node) | Aborted | Expired

  /** The source root's value; a root without one counts as holding the empty value. */
  function RootValue(v: Option<Bytes>): Option<Bytes> {
    if v.Some? then v else Some([])
  }

  /** The trie the copy makes out of a source subtrie and an optional destination. */
  function CopyOf(src: Tree, dest: Option<Tree>, dp: Key, rv: Option<Bytes>, ver: int): Option<Tree> {
    match dest
    case None => if dp == [] then None else Some(FreshRoot(dp, src, rv, ver))
    case Some(d) => Graft(d, true, dp, src, rv, ver)
  }

  ghost function DenoteOpt(n: Node?, disk: Disk): Option<Tree>
    requires DiskOk(disk) && (n != null ==> n.Shape(|disk|))
    reads n
  {
    if n == null then None else Some(n.Denote(disk))
  }

  /** When the copy is as ordered by version as its inputs. */
  ghost predicate CopyKeepsOrder(src: Tree, dest: Option<Tree>, dp: Key, ver: int) {
    match dest
    case None => KidsAtMost(src, ver)
    case Some(d) => KeepsOrder(d, dp, src, ver)
  }

  lemma CopyKeepsOrderIff(s: Tree, sp: Key, dest: Option<Tree>, dp: Key, rv: Option<Bytes>, ver: int)
    requires VersionOrdered(s) && (dest.Some? ==> VersionOrdered(dest.value)) && Find(s, 0, sp).res == Success
    requires CopyOf(Find(s, 0, sp).node, dest, dp, rv, ver).Some?
    ensures var src := Find(s, 0, sp).node;
            VersionOrdered(CopyOf(src, dest, dp, rv, ver).value) <==> CopyKeepsOrder(src, dest, dp, ver)
  {
    hide Find, Graft, KeepsOrder, VersionOrdered, KidsAtMost;
    FindIsAt(s, 0, sp);
    assert s.path[..0] + sp == sp;
    SubtrieOrdered(s, sp);
    var src := Find(s, 0, sp).node;
    match dest
    case None => FreshRootOrderIff(dp, src, rv, ver);
    case Some(d) => GraftKeepsOrderIff(d, true, dp, src, rv, ver);
  }

  lemma OrderedIff(s: Tree, sp: Key, dest: Option<Tree>, dp: Key, rv: Option<Bytes>, ver: int)
    requires Find(s, 0, sp).res == Success
    ensures var src := Find(s, 0, sp).node; var copy := CopyOf(src, dest, dp, rv, ver);
            copy.Some? && BothOrdered(s, dest) ==> (VersionOrdered(copy.value) <==> CopyKeepsOrder(src, dest, dp, ver))
  {
    if CopyOf(Find(s, 0, sp).node, dest, dp, rv, ver).Some? && BothOrdered(s, dest) {
      CopyKeepsOrderIff(s, sp, dest, dp, rv, ver);
    }
  }

  /** Inputs ordered by version. */
  ghost predicate BothOrdered(s: Tree, dest: Option<Tree>) {
    VersionOrdered(s) && (dest.Some? ==> VersionOrdered(dest.value))
  }

  /** Copies the subtrie at `sp` below `srcRoot` to `dp` below `destRoot`. */
  method CopyTrieImpl(aux: UpdateAux, srcRoot: Node, sp: Key, destRoot: Node?, dp: Key, ver: int,
                      srcValid: nat -> bool, destValid: nat -> bool)
    returns (out: Outcome)
    requires aux.Valid() && srcRoot in aux.nodes && srcRoot !in aux.up
    requires destRoot != null ==> destRoot in aux.nodes && destRoot !in aux.up
    requires DiskOk(aux.disk) && srcRoot.Shape(|aux.disk|) && (destRoot != null ==> destRoot.Shape(|aux.disk|))
    modifies aux, aux.nodes`next, aux.nodes`fnext, aux.nodes`minv
    ensures out == Expired <==>
              || old(aux.GivesUp(srcRoot, 0, sp, srcValid))
              || (Find(old(srcRoot.Denote(aux.disk)), 0, sp).res == Success && old(DestGivesUp(aux, srcRoot, sp, destRoot, dp, destValid)))
    ensures var found := Find(old(srcRoot.Denote(aux.disk)), 0, sp);
            var copy := CopyOf(found.node, old(DenoteOpt(destRoot, aux.disk)), dp, RootValue(old(srcRoot.value)), ver);
            out == Aborted ==>
              || found.res != Success
              || copy == None
              || (srcRoot == destRoot && SelfNested(old(srcRoot.Denote(aux.disk)), sp, dp))
    ensures out.Copied? ==> aux.Valid() && out.root in aux.nodes && out.root !in aux.up
    ensures out.Copied? ==> DiskOk(aux.disk) && old(aux.disk) <= aux.disk && out.root.Shape(|aux.disk|)
    ensures out.Copied? ==>
              var found := Find(old(srcRoot.Denote(aux.disk)), 0, sp);
              && found.res == Success
              && CopyOf(found.node, old(DenoteOpt(destRoot, aux.disk)), dp, RootValue(old(srcRoot.value)), ver)
                 == Some(out.root.Denote(aux.disk))
              && !(srcRoot == destRoot && SelfNested(old(srcRoot.Denote(aux.disk)), sp, dp))
    ensures out.Copied? && old(aux.Exact()) ==> aux.Exact()
    ensures var s, dest := old(srcRoot.Denote(aux.disk)), old(DenoteOpt(destRoot, aux.disk));
            out.Copied? && BothOrdered(s, dest) ==>
              (VersionOrdered(out.root.Denote(aux.disk)) <==> CopyKeepsOrder(Find(s, 0, sp).node, dest, dp, ver))
    ensures out.Copied? && srcRoot != destRoot ==>
              srcRoot.Shape(|aux.disk|) && srcRoot.Denote(aux.disk) == old(srcRoot.Denote(aux.disk))
  {
    hide KidsOf, Node.Denote, Rank, Graft, UpdateAux.Valid, UpdateAux.Exact, Kept, Before, SelfNested, Find, SetKid, Resident,
         BothOrdered, VersionOrdered, CopyKeepsOrder, UpdateAux.GivesUp, Loaded, UpdateAux.SameElsewhere, MemoryOf, UpdateAux.Mem,
         RefusedBeside;
    ghost var mem := aux.Mem();
    ghost var s, dest := srcRoot.Denote(aux.disk), DenoteOpt(destRoot, aux.disk);
    ghost var d0 := aux.disk;
    var srcNode, index, res, r := aux.FindBlocking(srcRoot, 0, sp, srcValid);
    if res == VersionNoLongerExist {
      return Expired;
    }
    if res != Success {
      return Aborted;
    }
    assert srcRoot.path[..0] + sp == sp;
    var rv := RootValue(srcRoot.value);
    ghost var before, up := aux.nodes, aux.up;
    OrderedIff(s, sp, dest, dp, rv, ver);
    if destRoot == null {
      if dp == [] {
        return Aborted;
      }
      var n := CopyToNothing(aux, srcNode, dp, rv, ver);
      KeptAt(srcRoot, before, d0, aux.disk);
      return Copied(n);
    }
    assert Standing(Held(r, srcRoot, srcNode), aux.nodes, aux.up);
    RefusedAfter(aux, mem, srcRoot, sp, destRoot, dp, destValid);
    var root, stop := CopyInto(aux, srcNode, destRoot, dp, rv, ver, destValid, Held(r, srcRoot, srcNode), sp);
    if root != null {
      if srcRoot != destRoot {
        KeptAt(srcRoot, Bystanders(before, up, destRoot), d0, aux.disk);
      }
      return Copied(root);
    }
    return if stop == Refusal then Expired else Aborted;
  }

  method CopyToNothing(aux: UpdateAux, srcNode: Node, dp: Key, rv: Option<Bytes>, ver: int) returns (n: Node)
    requires aux.Valid() && srcNode in aux.nodes && dp != []
    requires DiskOk(aux.disk) && srcNode.Shape(|aux.disk|)
    modifies aux, srcNode`next
    ensures aux.Valid() && n in aux.nodes && n !in aux.up
    ensures DiskOk(aux.disk) && old(aux.disk) <= aux.disk && n.Shape(|aux.disk|)
    ensures old(aux.Exact()) ==> aux.Exact()
    ensures n.Denote(aux.disk) == FreshRoot(dp, old(srcNode.Denote(aux.disk)), rv, ver)
    ensures Kept(old(aux.nodes), old(aux.disk), aux.disk)
  {
    hide KidsOf, Rank, Kept, SetKid, UpdateAux.Exact;
    ghost var nodes, d := aux.nodes, aux.disk;
    var child := MakeNodeFrom(aux, srcNode, dp[1..], srcNode.value, ver);
    ghost var more := aux.nodes;
    n := CreateRoot(aux, dp[0], child, ver, rv);
    KeptSubset(nodes, more, d, aux.disk);
    assert Linked(n, aux.nodes, aux.up, aux.disk);
  }

  /** What the copied trie answers: the source's entries below the destination prefix, the destination's
      own entries elsewhere. The root's value apart, it fails only for the value the new branch overwrites. */
  lemma CopyAnswers(s: Tree, sp: Key, dest: Option<Tree>, dp: Key, rv: Option<Bytes>, ver: int, key: Key)
    requires Find(s, 0, sp).res == Success && key != []
    requires dest.Some? ==> dest.value.path == [] && !DropsValue(dest.value, dp)
    requires CopyOf(Find(s, 0, sp).node, dest, dp, rv, ver).Some?
    ensures Value(CopyOf(Find(s, 0, sp).node, dest, dp, rv, ver).value, key) ==
            if dp <= key then Value(s, sp + key[|dp|..])
            else if dest.Some? then Value(dest.value, key) else None
  {
    var src := Find(s, 0, sp).node;
    FindIsAt(s, 0, sp);
    assert s.path[..0] + sp == sp;
    if dp <= key {
      SourceBelow(s, sp, src, key[|dp|..]);
    }
    match dest
    case None => FreshRootIsMapUpdate(dp, src, rv, ver, key);
    case Some(d) =>
      CopyIsMapUpdateIff(d, dp, src, rv, ver);
      assert IsMapUpdate(d, dp, src, Graft(d, true, dp, src, rv, ver).value);
  }

  /** What the copied trie answers at the empty key. */
  lemma CopyAnswersRoot(s: Tree, sp: Key, dest: Option<Tree>, dp: Key, ver: int)
    requires Find(s, 0, sp).res == Success && (dest.Some? ==> dest.value.path == [])
    requires CopyOf(Find(s, 0, sp).node, dest, dp, RootValue(s.value), ver).Some?
    ensures Value(CopyOf(Find(s, 0, sp).node, dest, dp, RootValue(s.value), ver).value, []) ==
            if dest.Some? && dp == [] then Value(s, sp)
            else if dest.None? || Kid(dest.value, dp[0]).None? then Some(if s.value.Some? then s.value.value else [])
            else Value(dest.value, [])
  {
    hide Find;
    FindIsAt(s, 0, sp);
    assert s.path[..0] + sp == sp;
    if dest.Some? && dp != [] {
      assert CommonPrefix([], dp) == 0;
    }
  }
}
