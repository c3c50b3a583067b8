/** Copying a subtrie to another place: walk to the destination, build the new node there, then
    rewrite the ancestors bottom-up. */
module CopyTrie {
  import opened Trie
  import opened TrieHeap
  import opened CopySpec

  /** An ancestor and the index of the child the walk went to. */
  datatype Step = Step(node: Node, index: nat)

  /** What that ancestor stood for, and the branch the walk took. */
  datatype Frame = Frame(tree: Tree, branch: Nibble)

  datatype Stop = Refusal | Mismatch | NoBranch | End

  function Plug(ctx: seq<Frame>, t: Tree): Tree {
    if ctx == [] then t
    else ctx[0].tree.(kids := SetKid(ctx[0].tree.kids, ctx[0].branch, Plug(ctx[1..], t)))
  }

  function PlugOpt(ctx: seq<Frame>, g: Option<Tree>): Option<Tree> {
    if g.None? then None else Some(Plug(ctx, g.value))
  }

  lemma {:induction false} PlugSnoc(ctx: seq<Frame>, f: Frame, t: Tree)
    ensures Plug(ctx + [f], t) == Plug(ctx, Plug([f], t))
  {
    if ctx == [] {
      assert [] + [f] == [f];
    } else {
      assert (ctx + [f])[1..] == ctx[1..] + [f];
      PlugSnoc(ctx[1..], f, t);
    }
  }

  function HopsOf(ctx: seq<Frame>): (hops: seq<Hop>)
    ensures |hops| == |ctx| && forall k :: 0 <= k < |ctx| ==> hops[k] == Hop(ctx[k].tree.path, ctx[k].branch)
  {
    seq(|ctx|, k requires 0 <= k < |ctx| => Hop(ctx[k].tree.path, ctx[k].branch))
  }

  /** The loop variables of the walk. */
  datatype Place = Place(node: Node, pi: nat, ni: nat, stack: seq<Step>)

  /** What the proof remembers of the way: meanings of the ancestors, and the nodes passed. */
  datatype Way = Way(ctx: seq<Frame>, trail: seq<Node>)

  /** The copy being made. */
  datatype Job = Job(dp: Key, src: Tree, rv: Option<Bytes>, ver: int)

  function RouteOf(g: Way): Route {
    Route(g.trail, HopsOf(g.ctx))
  }

  /** A trail from a parentless root never meets itself. */
  lemma {:induction false} RouteIsDistinct(r: Route, root: Node, n: Node, nodes: set<Node>, up: Parents)
    requires Resident(r, root, n, nodes, up) && root !in up
    ensures Distinct(r.trail)
    decreases |r.hops|
  {
    hide Rank;
    var m := |r.hops|;
    if m > 0 {
      var f := Front(r);
      ResidentPop(r, root, n, nodes, up);
      RouteIsDistinct(f, root, r.trail[m - 1], nodes, up);
      forall l | 0 <= l < m ensures r.trail[l] != r.trail[m] {
        assert LinkAt(r, m - 1, nodes, up);
        if l > 0 {
          assert LinkAt(r, l - 1, nodes, up) && f.trail[l - 1] != f.trail[m - 1];
        }
      }
    }
  }

  ghost predicate Distinct(trail: seq<Node>) {
    forall k, l | 0 <= l < k < |trail| :: trail[l] != trail[k]
  }

  /** Every ancestor still means what it did. */
  ghost predicate Means(stack: seq<Step>, ctx: seq<Frame>, nodes: set<Node>, disk: Disk)
    requires DiskOk(disk) && |stack| == |ctx|
    reads nodes`mask, nodes`path, nodes`value, nodes`version, nodes`fnext, nodes`minv
  {
    forall k | 0 <= k < |stack| ::
      stack[k].node in nodes && stack[k].node.Shape(|disk|) && stack[k].node.Denote(disk) == ctx[k].tree
  }

  /** The stack entries are the nodes and child indices of the route. */
  ghost predicate Entry(w: Place, g: Way, k: nat)
    requires k < |w.stack| == |g.ctx| && |g.trail| == |w.stack| + 1
    reads (set n | n in g.trail)`mask
  {
    |g.trail[k].mask| == BRANCHES && w.stack[k] == Step(g.trail[k], Rank(g.trail[k].mask, g.ctx[k].branch))
  }

  /** The walk from `root` has reached `w.node`. */
  ghost predicate Walked(root: Node, w: Place, g: Way, nodes: set<Node>, up: Parents, disk: Disk)
    requires DiskOk(disk)
    reads nodes, g.trail
  {
    && w.node in nodes && |w.stack| == |g.ctx| && |g.trail| == |g.ctx| + 1 && root in nodes && root !in up
    && Resident(RouteOf(g), root, w.node, nodes, up)
    && Means(w.stack, g.ctx, nodes, disk)
    && forall k | 0 <= k < |w.stack| :: Entry(w, g, k)
  }

  /** Where the walk stands: `node` matches `dp` up to nibble `pi`, `ni` nibbles into its own path. */
  ghost predicate Position(node: Node, dp: Key, pi: nat, ni: nat)
    reads node`path
  {
    ni <= pi <= |dp| && ni <= |node.path| && node.path[..ni] == dp[pi - ni..pi]
  }

  /** What is left of the key, counted from the start of the node's path. */
  function Rest(dp: Key, pi: nat, ni: nat): Key
    requires ni <= pi <= |dp|
  {
    dp[pi - ni..]
  }

  lemma WalkedPush(root: Node, w: Place, g: Way, aux: UpdateAux, b: Nibble, pi: nat)
    requires aux.Valid() && Walked(root, w, g, aux.nodes, aux.up, aux.disk)
    requires |w.node.mask| == BRANCHES && w.node.mask[b] && Rank(w.node.mask, b) < |w.node.next|
    requires w.node.next[Rank(w.node.mask, b)] != null
    ensures var i := Rank(w.node.mask, b); var c := w.node.next[i];
      && Walked(root, Place(c, pi, 0, w.stack + [Step(w.node, i)]), Pushed(g, w.node.Denote(aux.disk), b, c), aux.nodes, aux.up, aux.disk)
      && Kid(w.node.Denote(aux.disk), b) == Some(c.Denote(aux.disk))
  {
    var i := Rank(w.node.mask, b);
    var c, t := w.node.next[i], w.node.Denote(aux.disk);
    assert Linked(w.node, aux.nodes, aux.up, aux.disk) && ChildOk(w.node, i, aux.nodes, aux.up, aux.disk);
    ResidentPush(RouteOf(g), root, w.node, aux.nodes, aux.up, b);
    var g', w' := Pushed(g, t, b, c), Place(c, pi, 0, w.stack + [Step(w.node, i)]);
    assert HopsOf(g'.ctx) == HopsOf(g.ctx) + [Hop(w.node.path, b)];
    forall k | 0 <= k < |w'.stack| ensures Entry(w', g', k) {
      if k < |w.stack| {
        assert Entry(w, g, k);
      }
    }
  }

  function Pushed(g: Way, t: Tree, b: Nibble, c: Node): Way {
    Way(g.ctx + [Frame(t, b)], g.trail + [c])
  }

  /** Grafting below a child and plugging it back is grafting below its parent. */
  lemma GraftStep(t: Tree, isRoot: bool, rest: Key, src: Tree, rv: Option<Bytes>, ver: int)
    requires t.path < rest && Kid(t, rest[|t.path|]).Some?
    ensures var b := rest[|t.path|];
      Graft(t, isRoot, rest, src, rv, ver)
      == PlugOpt([Frame(t, b)], Graft(Kid(t, b).value, false, rest[|t.path| + 1..], src, rv, ver))
  {
    assert CommonPrefix(t.path, rest) == |t.path|;
    assert [Frame(t, rest[|t.path|])][1..] == [];
    var g := Graft(Kid(t, rest[|t.path|]).value, false, rest[|t.path| + 1..], src, rv, ver);
    if g.Some? {
      assert Plug([], g.value) == g.value;
    }
  }

  /** The keys of the ancestors. */
  function AncestorKeys(ctx: seq<Frame>): (ks: seq<Key>)
    ensures |ks| == |ctx|
  {
    seq(|ctx|, k requires 0 <= k < |ctx| => Before(HopsOf(ctx)[..k]) + ctx[k].tree.path)
  }

  /** Grafting into the whole is grafting `rest` into `t` and plugging the outcome back, and the search
      for `dp` has left the ancestors through children. */
  ghost predicate Reduced(whole: Tree, job: Job, ctx: seq<Frame>, t: Tree, rest: Key) {
    && Graft(whole, true, job.dp, job.src, job.rv, job.ver) == PlugOpt(ctx, Graft(t, ctx == [], rest, job.src, job.rv, job.ver))
    && Descents(whole, job.dp) == AncestorKeys(ctx) + Prefixed(Before(HopsOf(ctx)), Descents(t, rest))
  }

  lemma AncestorKeysPush(ctx: seq<Frame>, f: Frame)
    ensures HopsOf(ctx + [f]) == HopsOf(ctx) + [Hop(f.tree.path, f.branch)]
    ensures AncestorKeys(ctx + [f]) == AncestorKeys(ctx) + [Before(HopsOf(ctx)) + f.tree.path]
  {
    hide Before;
    var hops, hops' := HopsOf(ctx), HopsOf(ctx + [f]);
    assert hops' == hops + [Hop(f.tree.path, f.branch)];
    forall k | 0 <= k <= |ctx| ensures hops'[..k] == hops[..k] {
    }
    assert hops[..|ctx|] == hops;
  }

  lemma PrefixedCons(p: Key, a: Key, b: Nibble, ks: seq<Key>)
    ensures Prefixed(p, [a] + Prefixed(a + [b], ks)) == [p + a] + Prefixed(p + a + [b], ks)
  {
    var l, r := Prefixed(p, [a] + Prefixed(a + [b], ks)), [p + a] + Prefixed(p + a + [b], ks);
    forall k | 0 <= k < |l| ensures l[k] == r[k] {
      if k > 0 {
        assert p + (a + [b] + ks[k - 1]) == p + a + [b] + ks[k - 1];
      }
    }
  }

  lemma DescentsUnfold(t: Tree, rest: Key)
    requires t.path < rest && Kid(t, rest[|t.path|]).Some?
    ensures var b := rest[|t.path|];
      Descents(t, rest) == [t.path] + Prefixed(t.path + [b], Descents(Kid(t, b).value, rest[|t.path| + 1..]))
  {
    hide Prefixed;
    assert CommonPrefix(t.path, rest) == |t.path|;
  }

  lemma DescentsStep(ctx: seq<Frame>, t: Tree, rest: Key)
    requires t.path < rest && Kid(t, rest[|t.path|]).Some?
    ensures var b := rest[|t.path|]; var ctx' := ctx + [Frame(t, b)];
      AncestorKeys(ctx) + Prefixed(Before(HopsOf(ctx)), Descents(t, rest))
      == AncestorKeys(ctx') + Prefixed(Before(HopsOf(ctx')), Descents(Kid(t, b).value, rest[|t.path| + 1..]))
  {
    hide Prefixed, AncestorKeys, Descents, HopsOf;
    var b := rest[|t.path|];
    DescentsUnfold(t, rest);
    AncestorKeysPush(ctx, Frame(t, b));
    var hops := HopsOf(ctx);
    assert (hops + [Hop(t.path, b)])[..|hops|] == hops;
    PrefixedCons(Before(hops), t.path, b, Descents(Kid(t, b).value, rest[|t.path| + 1..]));
  }

  lemma ReducedStep(whole: Tree, job: Job, ctx: seq<Frame>, t: Tree, pi: nat)
    requires |t.path| <= pi < |job.dp| && t.path == job.dp[pi - |t.path|..pi]
    requires Reduced(whole, job, ctx, t, Rest(job.dp, pi, |t.path|))
    requires Kid(t, job.dp[pi]).Some?
    ensures Reduced(whole, job, ctx + [Frame(t, job.dp[pi])], Kid(t, job.dp[pi]).value, Rest(job.dp, pi + 1, 0))
  {
    hide Descents, AncestorKeys, Graft, Before, Prefixed;
    var f, rest := Frame(t, job.dp[pi]), Rest(job.dp, pi, |t.path|);
    assert rest[|t.path|] == job.dp[pi] && rest[|t.path| + 1..] == job.dp[pi + 1..] && t.path <= rest;
    GraftStep(t, ctx == [], rest, job.src, job.rv, job.ver);
    var g := Graft(Kid(t, job.dp[pi]).value, false, job.dp[pi + 1..], job.src, job.rv, job.ver);
    if g.Some? {
      PlugSnoc(ctx, f, g.value);
    }
    DescentsStep(ctx, t, rest);
  }

  ghost predicate OnTheWay(root: Node, whole: Tree, w: Place, g: Way, job: Job, nodes: set<Node>, up: Parents, disk: Disk)
    requires DiskOk(disk)
    reads nodes, g.trail, w.node`path
  {
    && Walked(root, w, g, nodes, up, disk)
    && w.node in nodes && w.node.Shape(|disk|)
    && Position(w.node, job.dp, w.pi, w.ni)
    && Reduced(whole, job, g.ctx, w.node.Denote(disk), Rest(job.dp, w.pi, w.ni))
  }

  ghost predicate StopsFor(stop: Stop, w: Place, dp: Key)
    reads w.node`path, w.node`mask
  {
    match stop
    case Refusal => true
    case End => w.pi == |dp|
    case Mismatch => w.pi < |dp| && w.ni < |w.node.path| && dp[w.pi] != w.node.path[w.ni]
    case NoBranch => w.pi < |dp| && w.ni == |w.node.path| && |w.node.mask| == BRANCHES && !w.node.mask[dp[w.pi]]
  }

  /** Down one branch of the node the walk has reached the end of. */
  lemma DownOne(root: Node, whole: Tree, w: Place, g: Way, job: Job, aux: UpdateAux)
    requires aux.Valid() && w.pi < |job.dp| && w.ni == |w.node.path|
    requires OnTheWay(root, whole, w, g, job, aux.nodes, aux.up, aux.disk)
    requires w.node.mask[job.dp[w.pi]] && Rank(w.node.mask, job.dp[w.pi]) < |w.node.next|
    requires w.node.next[Rank(w.node.mask, job.dp[w.pi])] != null
    ensures var b := job.dp[w.pi]; var i := Rank(w.node.mask, b); var c := w.node.next[i];
      OnTheWay(root, whole, Place(c, w.pi + 1, 0, w.stack + [Step(w.node, i)]),
               Pushed(g, w.node.Denote(aux.disk), b, c), job, aux.nodes, aux.up, aux.disk)
  {
    hide Walked, Reduced, KidsOf, Kid, Rank;
    var i := Rank(w.node.mask, job.dp[w.pi]);
    assert Linked(w.node, aux.nodes, aux.up, aux.disk) && ChildOk(w.node, i, aux.nodes, aux.up, aux.disk);
    WalkedPush(root, w, g, aux, job.dp[w.pi], w.pi + 1);
    ReducedStep(whole, job, g.ctx, w.node.Denote(aux.disk), w.pi);
  }

  lemma MatchOne(root: Node, whole: Tree, w: Place, g: Way, job: Job, nodes: set<Node>, up: Parents, disk: Disk)
    requires DiskOk(disk) && OnTheWay(root, whole, w, g, job, nodes, up, disk)
    requires w.pi < |job.dp| && w.ni < |w.node.path| && job.dp[w.pi] == w.node.path[w.ni]
    ensures OnTheWay(root, whole, w.(pi := w.pi + 1, ni := w.ni + 1), g, job, nodes, up, disk)
  {
    hide Reduced, Resident, Means;
    var w' := w.(pi := w.pi + 1, ni := w.ni + 1);
    assert Rest(job.dp, w.pi + 1, w.ni + 1) == Rest(job.dp, w.pi, w.ni);
    forall k | 0 <= k < |w.stack| ensures Entry(w', g, k) {
      assert Entry(w, g, k);
    }
    assert Walked(root, w', g, nodes, up, disk);
    assert w.node.path[..w.ni + 1] == w.node.path[..w.ni] + [w.node.path[w.ni]];
  }

  lemma OnPathSoFar(w: Place, dp: Key)
    requires Position(w.node, dp, w.pi, w.ni) && w.ni == |w.node.path|
    ensures w.ni <= w.pi <= |dp| && w.node.path <= dp[w.pi - w.ni..]
  {
    assert w.node.path[..w.ni] == w.node.path;
    assert dp[w.pi - w.ni..][..w.ni] == dp[w.pi - w.ni..w.pi];
  }

  /** Makes the child on the way resident. */
  method Load(aux: UpdateAux, root: Node, ghost whole: Tree, w: Place, index: nat, valid: bool, ghost g: Way, ghost job: Job, ghost held: Held,
              ghost before: Memory)
    returns (c: Node?)
    requires aux.Valid() && OnTheWay(root, whole, w, g, job, aux.nodes, aux.up, aux.disk)
    requires index < |w.node.next| && Standing(held, aux.nodes, aux.up)
    requires root.Shape(|aux.disk|) && before.Keys <= aux.nodes && w.ni == |w.node.path| && w.pi < |job.dp|
    requires w.node.mask[job.dp[w.pi]] && index == Rank(w.node.mask, job.dp[w.pi])
    requires aux.OnWay(before, root, job.dp, w.pi - w.ni, w.node)
    modifies aux`nodes, aux`up, w.node`next
    ensures aux.Valid() && aux.OnlyLoaded()
    ensures |w.node.next| == |old(w.node.next)| && c == w.node.next[index]
    ensures c != null ==> c in aux.nodes && c.Shape(|aux.disk|) && aux.OnWay(before, root, job.dp, w.pi + 1, c)
    ensures c == null <==> !valid && Absent(before, root, root.Denote(aux.disk), job.dp, w.pi)
    ensures OnTheWay(root, whole, w, g, job, aux.nodes, aux.up, aux.disk)
    ensures c != null ==> w.node.Shape(|aux.disk|) && OnTheWay(root, whole, Place(c, w.pi + 1, 0, w.stack + [Step(w.node, index)]),
                                   Pushed(g, w.node.Denote(aux.disk), job.dp[w.pi], c), job, aux.nodes, aux.up, aux.disk)
    ensures Standing(held, aux.nodes, aux.up)
  {
    hide KidsOf, Reduced, Resident, Node.Denote, UpdateAux.OnWay, Absent, Attaches, MemoryOf, UpdateAux.Mem, UpdateAux.Valid, Rank, DiskOk,
         UpdateAux.Exact, DiskTree;
    aux.ItsShape(w.node);
    ghost var mine := Held(RouteOf(g), root, w.node);
    ghost var t, nodes := w.node.Denote(aux.disk), aux.nodes;
    assert Means(w.stack, g.ctx, nodes, aux.disk);
    assert Standing(mine, aux.nodes, aux.up);
    OnPathSoFar(w, job.dp);
    c := aux.Descend(w.node, index, valid, {mine, held}, before, root, job.dp, w.pi - w.ni);
    assert Standing(mine, aux.nodes, aux.up) && w.node.Denote(aux.disk) == t;
    assert Means(w.stack, g.ctx, nodes, aux.disk);
    forall k | 0 <= k < |w.stack| ensures Entry(w, g, k) {
      assert old(Entry(w, g, k));
    }
    if c != null {
      DownOne(root, whole, w, g, job, aux);
    }
  }

  lemma PlaceIs(root: Node, whole: Tree, w: Place, g: Way, job: Job, nodes: set<Node>, up: Parents, disk: Disk)
    requires DiskOk(disk) && OnTheWay(root, whole, w, g, job, nodes, up, disk)
    ensures w.node in nodes && w.node.Shape(|disk|) && w.ni <= w.pi <= |job.dp| && w.ni <= |w.node.path| && root in nodes
  {
    hide Reduced, Resident, Means, KidsOf;
  }

  /** One turn of the walk: match a nibble, go down a branch, or stop. */
  method WalkStep(aux: UpdateAux, root: Node, w: Place, dp: Key, valid: bool, ghost whole: Tree, ghost g: Way, ghost job: Job, ghost held: Held,
                  ghost before: Memory, ghost answers: nat -> bool)
    returns (stop: Option<Stop>, w': Place, ghost g': Way)
    requires aux.Valid() && w.pi < |dp| && job.dp == dp && Standing(held, aux.nodes, aux.up) && w.node in aux.nodes
    requires OnTheWay(root, whole, w, g, job, aux.nodes, aux.up, aux.disk)
    requires root.Shape(|aux.disk|) && whole == root.Denote(aux.disk) && before.Keys <= aux.nodes
    requires aux.OnWay(before, root, dp, w.pi - w.ni, w.node)
    requires valid == answers(w.pi) && !Refused(before, root, whole, dp, 0, w.pi, answers)
    modifies aux`nodes, aux`up, w.node`next
    ensures aux.Valid() && aux.OnlyLoaded() && Standing(held, aux.nodes, aux.up)
    ensures OnTheWay(root, whole, w', g', job, aux.nodes, aux.up, aux.disk) && w'.node in aux.nodes
    ensures if stop.None? then w'.pi == w.pi + 1 else StopsFor(stop.value, w', dp) && stop.value != End
    ensures stop == None ==> w'.ni <= w'.pi && aux.OnWay(before, root, dp, w'.pi - w'.ni, w'.node)
    ensures stop == None ==> !Refused(before, root, whole, dp, 0, w'.pi, answers)
    ensures stop.Some? ==> (stop.value == Refusal <==> Refused(before, root, whole, dp, 0, |dp|, answers))
  {
    hide OnTheWay, KidsOf, Standing, UpdateAux.OnWay, Absent, NoMore, Loaded, Refused, MemoryOf, UpdateAux.Mem, UpdateAux.Exact,
         UpdateAux.Valid, Node.Denote, Rank, DiskTree, DiskOk, Pushed;
    aux.ItsShape(w.node);
    PlaceIs(root, whole, w, g, job, aux.nodes, aux.up, aux.disk);
    var node, nibble := w.node, dp[w.pi];
    stop, w', g' := None, w, g;
    RefusedOn(before, root, whole, dp, 0, w.pi, answers);
    if w.ni < |node.path| {
      if nibble != node.path[w.ni] {
        aux.WayStops(before, root, dp, w.pi - w.ni, node, w.ni);
        NotRefused(before, root, whole, dp, 0, w.pi, |dp|, answers, w.pi - w.ni);
        stop := Some(Mismatch);
      } else {
        aux.NotYet(before, root, dp, w.pi - w.ni, node, w.ni);
        MatchOne(root, whole, w, g, job, aux.nodes, aux.up, aux.disk);
        w' := w.(pi := w.pi + 1, ni := w.ni + 1);
      }
    } else if !node.mask[nibble] {
      aux.WayStops(before, root, dp, w.pi - w.ni, node, w.ni);
      NotRefused(before, root, whole, dp, 0, w.pi, |dp|, answers, w.pi - w.ni);
      stop := Some(NoBranch);
    } else {
      RankMono(node.mask, nibble, BRANCHES);
      var index := Rank(node.mask, nibble);
      var c := Load(aux, root, whole, w, index, valid, g, job, held, before);
      if c == null {
        RefusedLater(before, root, whole, dp, 0, w.pi + 1, |dp|, answers);
        stop := Some(Refusal);
      } else {
        w' := Place(c, w.pi + 1, 0, w.stack + [Step(node, index)]);
        g' := Pushed(g, node.Denote(aux.disk), nibble, c);
      }
    }
  }

  lemma AtTheRoot(root: Node, job: Job, aux: UpdateAux)
    requires aux.Valid() && root in aux.nodes && root !in aux.up
    ensures root.Shape(|aux.disk|)
    ensures OnTheWay(root, root.Denote(aux.disk), Place(root, 0, 0, []), Way([], [root]), job, aux.nodes, aux.up, aux.disk)
  {
    assert Linked(root, aux.nodes, aux.up, aux.disk);
    var t := root.Denote(aux.disk);
    forall k | 0 <= k < |Descents(t, job.dp)| ensures [] + Descents(t, job.dp)[k] == Descents(t, job.dp)[k] {
    }
    assert Prefixed([], Descents(t, job.dp)) == Descents(t, job.dp);
    assert Reduced(t, job, [], t, Rest(job.dp, 0, 0));
  }

  /** Follows the destination prefix as far as the trie has it, loading children on the way. */
  method Walk(aux: UpdateAux, root: Node, dp: Key, valid: nat -> bool, ghost job: Job, ghost held: Held)
    returns (stop: Stop, w: Place, ghost g: Way)
    requires aux.Valid() && root in aux.nodes && root !in aux.up && job.dp == dp && Standing(held, aux.nodes, aux.up)
    modifies aux`nodes, aux`up, aux.nodes`next
    ensures aux.Valid() && aux.OnlyLoaded() && Standing(held, aux.nodes, aux.up)
    ensures OnTheWay(root, old(root.Denote(aux.disk)), w, g, job, aux.nodes, aux.up, aux.disk)
    ensures StopsFor(stop, w, dp)
    ensures stop == Refusal <==> old(aux.GivesUp(root, 0, dp, valid))
  {
    hide OnTheWay, KidsOf, Standing, UpdateAux.OnWay, Refused, MemoryOf, UpdateAux.Mem, UpdateAux.SameElsewhere, UpdateAux.Exact, DiskTree,
         Rank, UpdateAux.OnlyLoaded;
    AtTheRoot(root, job, aux);
    hide UpdateAux.Valid, Node.Denote;
    assert root.path[..0] + dp == dp;
    aux.NothingHasCome(root, dp);
    stop, w, g := WalkOn(aux, root, dp, valid, job, held, root.Denote(aux.disk), aux.Mem());
  }

  /** The loop of the walk. */
  method WalkOn(aux: UpdateAux, root: Node, dp: Key, valid: nat -> bool, ghost job: Job, ghost held: Held, ghost whole: Tree, ghost before: Memory)
    returns (stop: Stop, w: Place, ghost g: Way)
    requires aux.Valid() && root in aux.nodes && job.dp == dp && Standing(held, aux.nodes, aux.up)
    requires DiskOk(aux.disk) && root.Shape(|aux.disk|) && whole == root.Denote(aux.disk)
    requires OnTheWay(root, whole, Place(root, 0, 0, []), Way([], [root]), job, aux.nodes, aux.up, aux.disk)
    requires before.Keys == aux.nodes && aux.OnWay(before, root, dp, 0, root)
    modifies aux`nodes, aux`up, aux.nodes`next
    ensures aux.Valid() && aux.OnlyLoaded() && Standing(held, aux.nodes, aux.up)
    ensures OnTheWay(root, whole, w, g, job, aux.nodes, aux.up, aux.disk)
    ensures StopsFor(stop, w, dp)
    ensures stop == Refusal <==> Refused(before, root, whole, dp, 0, |dp|, valid)
  {
    hide OnTheWay, KidsOf, Standing, UpdateAux.OnWay, NoMore, Loaded, Refused, MemoryOf, UpdateAux.Mem, UpdateAux.Valid, UpdateAux.Exact,
         Node.Denote, DiskTree, Rank, DiskOk, Node.Shape;
    w, g := Place(root, 0, 0, []), Way([], [root]);
    var loads: nat := 0;
    RefusedOn(before, root, whole, dp, 0, 0, valid);
    while w.pi < |dp|
      invariant aux.Valid() && aux.OnlyLoaded() && loads == w.pi <= |dp| && w.node in aux.nodes && DiskOk(aux.disk)
      invariant OnTheWay(root, whole, w, g, job, aux.nodes, aux.up, aux.disk) && Standing(held, aux.nodes, aux.up)
      invariant root.Shape(|aux.disk|) && w.node.Shape(|aux.disk|) && whole == root.Denote(aux.disk)
      invariant w.ni <= w.pi && w.ni <= |w.node.path| && aux.OnWay(before, root, dp, w.pi - w.ni, w.node)
      invariant !Refused(before, root, whole, dp, 0, w.pi, valid)
      decreases |dp| - w.pi
    {
      var r: Option<Stop>;
      r, w, g := WalkStep(aux, root, w, dp, valid(loads), whole, g, job, held, before, valid);
      if r.Some? {
        return r.value, w, g;
      }
      PlaceIs(root, whole, w, g, job, aux.nodes, aux.up, aux.disk);
      loads := loads + 1;
    }
    stop := End;
  }
}
