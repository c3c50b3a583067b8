/** The last phase of the copy: hang the new node below its parent and rewrite the ancestors bottom-up. */
module CopyRewrite {
  import opened Trie
  import opened TrieHeap
  import opened CopySpec
  import opened NodeBuilders
  import opened CopyTrie

  /** ChildOk, except that a stale child need not agree with its stored image. */
  ghost predicate LooseChild(n: Node, i: nat, stale: set<Node>, nodes: set<Node>, up: Parents, disk: Disk)
    requires DiskOk(disk) && n.Shape(|disk|) && i < |n.next| && i < |n.fnext|
    reads n`next, n`mask, n`fnext, n`minv
    reads nodes`mask, nodes`path, nodes`value, nodes`version, nodes`fnext, nodes`minv
  {
    var c := n.next[i];
    c != null ==>
      && c in nodes && c in up && up[c] == (n, i) && c.Shape(|disk|)
      && (c !in stale ==> c.Denote(disk) == DiskTree(disk, n.fnext[i]))
  }

  ghost predicate Loose(n: Node, stale: set<Node>, nodes: set<Node>, up: Parents, disk: Disk)
    requires DiskOk(disk)
    reads n`next, n`mask, n`fnext, n`minv
    reads nodes`mask, nodes`path, nodes`value, nodes`version, nodes`fnext, nodes`minv
  {
    && n.Shape(|disk|)
    && |n.next| == |n.fnext|
    && forall i :: 0 <= i < |n.next| ==> LooseChild(n, i, stale, nodes, up, disk)
  }

  /** Valid, except for the pointers to stale nodes. */
  ghost predicate ValidBut(aux: UpdateAux, stale: set<Node>)
    reads aux, aux.nodes
  {
    DiskOk(aux.disk) && forall n | n in aux.nodes :: Loose(n, stale, aux.nodes, aux.up, aux.disk)
  }

  /** A stale node without a resident parent does no harm. */
  lemma ParentlessIsHarmless(aux: UpdateAux, root: Node)
    requires ValidBut(aux, {root}) && root !in aux.up
    ensures aux.Valid()
  {
    hide KidsOf, DiskTree, Node.Denote, Rank;
    forall n | n in aux.nodes ensures Linked(n, aux.nodes, aux.up, aux.disk) {
      assert Loose(n, {root}, aux.nodes, aux.up, aux.disk);
      forall i | 0 <= i < |n.next| ensures ChildOk(n, i, aux.nodes, aux.up, aux.disk) {
        assert LooseChild(n, i, {root}, aux.nodes, aux.up, aux.disk);
      }
    }
  }

  method SetNext(aux: UpdateAux, p: Node, i: nat, c: Node)
    requires aux.Valid() && p in aux.nodes && i < |p.next| && c in aux.nodes && c !in aux.up
    modifies aux`up, p`next
    ensures ValidBut(aux, {c}) && p.next == old(p.next)[i := c]
    ensures c in aux.up && aux.up[c] == (p, i)
    ensures aux.up.Keys <= old(aux.up).Keys + {c}
    ensures old(aux.Exact()) ==> aux.Exact()
  {
    hide KidsOf, DiskTree, Node.Denote, Rank, ExactArrays, ExactDisk;
    assert Linked(p, aux.nodes, aux.up, aux.disk) && ChildOk(p, i, aux.nodes, aux.up, aux.disk);
    ghost var was := p.next[i];
    ghost var up := (if was == null then aux.up else aux.up - {was})[c := (p, i)];
    forall n | n in aux.nodes && n != p ensures Loose(n, {c}, aux.nodes, up, aux.disk) {
      assert Linked(n, aux.nodes, aux.up, aux.disk);
      forall j | 0 <= j < |n.next| ensures LooseChild(n, j, {c}, aux.nodes, up, aux.disk) {
        assert ChildOk(n, j, aux.nodes, aux.up, aux.disk);
      }
    }
    label B:
    p.next := p.next[i := c];
    aux.up := up;
    forall n | n in aux.nodes && n != p ensures Loose(n, {c}, aux.nodes, up, aux.disk) {
      assert old@B(Loose(n, {c}, aux.nodes, up, aux.disk));
    }
    forall j | 0 <= j < |p.next| ensures LooseChild(p, j, {c}, aux.nodes, up, aux.disk) {
      assert old(ChildOk(p, j, aux.nodes, aux.up, aux.disk));
    }
  }

  lemma OneKidChanged(mask: Mask, b: Nibble, fnext: seq<Offset>, d: Disk, d': Disk, off: Offset)
    requires DiskOk(d) && DiskOk(d') && d <= d' && off < |d'|
    requires |mask| == BRANCHES && mask[b] && |fnext| == Count(mask) && Rank(mask, b) < |fnext|
    requires forall i :: 0 <= i < |fnext| ==> fnext[i] < |d|
    ensures var offs := fnext[Rank(mask, b) := off]; forall i :: 0 <= i < |offs| ==> offs[i] < |d'|
    ensures KidsOf(mask, fnext[Rank(mask, b) := off], d', |d'|)
         == SetKid(KidsOf(mask, fnext, d, |d|), b, DiskTree(d', off))
  {
    var fnext' := fnext[Rank(mask, b) := off];
    KidsOfMono(mask, fnext, d, |d|, d', |d'|);
    var l, m := KidsOf(mask, fnext', d', |d'|), KidsOf(mask, fnext, d', |d'|);
    var r := SetKid(m, b, DiskTree(d', off));
    forall k: nat | k < BRANCHES ensures l[k] == r[k] {
      assert KidAt(r, k) == r[k] && KidAt(m, k) == m[k];
      if mask[k] {
        RankMono(mask, k, BRANCHES);
        RankMono(mask, if k < b then k else b, if k < b then b else k);
      }
    }
  }

  lemma ExactUpdate(fnext: seq<Offset>, minv: seq<int>, i: nat, off: Offset, m: int, disk: Disk)
    requires DiskOk(disk) && ExactArrays(fnext, minv, disk) && i < |fnext|
    requires off < |disk| && m == MinVersion(DiskTree(disk, off))
    ensures ExactArrays(fnext[i := off], minv[i := m], disk)
  {
    var fnext', minv' := fnext[i := off], minv[i := m];
    forall j | 0 <= j < |fnext'| ensures ExactAt(fnext', minv', j, disk) {
      assert ExactAt(fnext, minv, j, disk);
    }
  }

  /** Points child `i` of `p` at the image just written for it; now only `p` itself can be stale. */
  method PointAt(aux: UpdateAux, p: Node, i: nat, off: Offset, minv: int, ghost c: Node)
    requires p in aux.nodes && i < |p.next| && p.next[i] == c && c != p
    requires ValidBut(aux, {p, c}) && c.Shape(|aux.disk|)
    requires off < |aux.disk| && DiskTree(aux.disk, off) == c.Denote(aux.disk)
    requires p.Shape(|aux.disk|) && |p.next| == |p.fnext|
    modifies p`fnext, p`minv
    ensures ValidBut(aux, {p})
    ensures p.fnext == old(p.fnext)[i := off]
    ensures old(aux.Exact()) && minv == MinVersion(DiskTree(aux.disk, off)) ==> aux.Exact()
  {
    hide KidsOf, DiskTree, Node.Denote, Rank;
    assert Loose(p, {p, c}, aux.nodes, aux.up, aux.disk) && LooseChild(p, i, {p, c}, aux.nodes, aux.up, aux.disk);
    if aux.Exact() && minv == MinVersion(DiskTree(aux.disk, off)) {
      ExactUpdate(p.fnext, p.minv, i, off, minv, aux.disk);
    }
    hide ExactArrays, ExactDisk;
    p.fnext, p.minv := p.fnext[i := off], p.minv[i := minv];
    forall n | n in aux.nodes ensures Loose(n, {p}, aux.nodes, aux.up, aux.disk) {
      assert old(Loose(n, {p, c}, aux.nodes, aux.up, aux.disk));
      forall j | 0 <= j < |n.next| ensures LooseChild(n, j, {p}, aux.nodes, aux.up, aux.disk) {
        assert old(LooseChild(n, j, {p, c}, aux.nodes, aux.up, aux.disk));
      }
    }
  }

  /** Writes child `i` of `p` and points `p` at the new image. */
  method Rewrite(aux: UpdateAux, p: Node, i: nat, ghost b: Nibble)
    requires p in aux.nodes && i < |p.next| && p.next[i] != null
    requires ValidBut(aux, {p, p.next[i]}) && p.next[i] != p
    requires p.Shape(|aux.disk|) && p.mask[b] && i == Rank(p.mask, b) && p.next[i].Shape(|aux.disk|)
    modifies aux`disk, p`fnext, p`minv
    ensures ValidBut(aux, {p})
    ensures Kept(aux.nodes - {p}, old(aux.disk), aux.disk)
    ensures p.Shape(|aux.disk|) && p.Denote(aux.disk) == old(p.Denote(aux.disk)).(kids :=
              SetKid(old(p.Denote(aux.disk).kids), b, old(p.next[i].Denote(aux.disk))))
    ensures old(aux.Exact()) ==> aux.Exact()
  {
    hide KidsOf, DiskTree, Rank;
    var c := p.next[i];
    ghost var d := aux.disk;
    assert Loose(p, {p, c}, aux.nodes, aux.up, d) && LooseChild(p, i, {p, c}, aux.nodes, aux.up, d);
    var off := WriteNode(aux, c);
    DenoteMono(c, d, aux.disk);
    OneKidChanged(p.mask, b, p.fnext, d, aux.disk, off);
    RewrittenNodes(aux, p, i, c, d);
    var m := CalcMinVersion(c);
    if old(aux.Exact()) {
      ExactGrows(aux, d);
      assert c in aux.nodes;
      MinIsExact(c, aux.disk);
    }
    PointAt(aux, p, i, off, m, c);
    KeptOthers(aux, p, d);
  }

  lemma KeptOthers(aux: UpdateAux, p: Node, d: Disk)
    requires DiskOk(d) && DiskOk(aux.disk) && d <= aux.disk
    requires forall n | n in aux.nodes && n != p :: n.Shape(|d|)
    ensures Kept(aux.nodes - {p}, d, aux.disk)
  {
    forall n | n in aux.nodes && n != p ensures n.Shape(|aux.disk|) && n.Denote(aux.disk) == n.Denote(d) {
      DenoteMono(n, d, aux.disk);
    }
  }

  lemma RewrittenNodes(aux: UpdateAux, p: Node, i: nat, c: Node, d: Disk)
    requires DiskOk(d) && DiskOk(aux.disk) && d <= aux.disk
    requires forall n | n in aux.nodes :: Loose(n, {p, c}, aux.nodes, aux.up, d)
    ensures Kept(aux.nodes, d, aux.disk)
    ensures forall n | n in aux.nodes :: Loose(n, {p, c}, aux.nodes, aux.up, aux.disk)
  {
    hide KidsOf, DiskTree, Node.Denote, Rank;
    forall n | n in aux.nodes ensures n.Shape(|aux.disk|) && n.Denote(aux.disk) == n.Denote(d) {
      assert Loose(n, {p, c}, aux.nodes, aux.up, d);
      DenoteMono(n, d, aux.disk);
    }
    forall n | n in aux.nodes ensures Loose(n, {p, c}, aux.nodes, aux.up, aux.disk) {
      assert Loose(n, {p, c}, aux.nodes, aux.up, d);
      forall j | 0 <= j < |n.next| ensures LooseChild(n, j, {p, c}, aux.nodes, aux.up, aux.disk) {
        assert LooseChild(n, j, {p, c}, aux.nodes, aux.up, d);
        DiskTreeMono(d, aux.disk, n.fnext[j]);
      }
    }
  }

  /** Equal but for what hangs below the branch the walk took. */
  ghost predicate AgreesBut(t: Tree, f: Frame) {
    && t.path == f.tree.path && t.value == f.tree.value && t.version == f.tree.version
    && forall b: Nibble | b != f.branch :: KidAt(t.kids, b) == KidAt(f.tree.kids, b)
  }

  lemma AgreePlug(t: Tree, f: Frame, x: Tree)
    requires AgreesBut(t, f)
    ensures t.(kids := SetKid(t.kids, f.branch, x)) == Plug([f], x)
    ensures AgreesBut(Plug([f], x), f)
  {
    var l, r := SetKid(t.kids, f.branch, x), SetKid(f.tree.kids, f.branch, x);
    assert [f][1..] == [];
    forall k: nat | k < BRANCHES ensures l[k] == r[k] {
      assert KidAt(l, k) == l[k] && KidAt(r, k) == r[k];
    }
  }

  /** The node the child pointer of ancestor `k` must lead to. */
  function Below(stack: seq<Step>, newNode: Node, k: nat): Node
    requires k < |stack|
  {
    if k == |stack| - 1 then newNode else stack[k + 1].node
  }

  /** Ancestor `k` holds the next node, or has lost it because its children were moved away. */
  ghost predicate Rung(stack: seq<Step>, ctx: seq<Frame>, newNode: Node, k: nat, nodes: set<Node>)
    requires k < |stack| == |ctx|
    reads stack[k].node`mask, stack[k].node`next
  {
    var s := stack[k];
    && s.node in nodes && |s.node.mask| == BRANCHES
    && s.node.mask[ctx[k].branch] && s.index == Rank(s.node.mask, ctx[k].branch) < |s.node.next|
    && (s.node.next[s.index] == Below(stack, newNode, k) || (s.node.next[s.index] == null && k < |stack| - 1))
  }

  ghost predicate Ladder(stack: seq<Step>, ctx: seq<Frame>, newNode: Node, nodes: set<Node>)
    reads nodes`mask, nodes`next
    reads set s | s in stack :: s.node
  {
    && |ctx| == |stack| > 0 && newNode in nodes
    && (forall k | 0 <= k < |stack| :: Rung(stack, ctx, newNode, k, nodes))
    && (forall k | 0 <= k < |stack| :: stack[k].node != newNode)
    && forall k, l | 0 <= k < l < |stack| :: stack[k].node != stack[l].node
  }

  /** Which ancestors have been rewritten when `h` entries are left: those from `h` on stand for the grafted subtries. */
  ghost predicate Climbed(stack: seq<Step>, ctx: seq<Frame>, newNode: Node, newTree: Tree, h: nat, nodes: set<Node>, disk: Disk)
    requires DiskOk(disk) && |ctx| == |stack|
    reads nodes`mask, nodes`path, nodes`value, nodes`version, nodes`fnext, nodes`minv
  {
    && newNode in nodes && newNode.Shape(|disk|) && newNode.Denote(disk) == newTree
    && (forall k | 0 <= k < |stack| :: stack[k].node in nodes && stack[k].node.Shape(|disk|))
    && (forall k | 0 <= k < h && k < |stack| :: AgreesBut(stack[k].node.Denote(disk), ctx[k]))
    && (h < |stack| ==> stack[h].node.Denote(disk) == Plug(ctx[h..], newTree))
  }

  /** One rewriting moves the frontier up by one. */
  lemma ClimbOne(stack: seq<Step>, ctx: seq<Frame>, newNode: Node, newTree: Tree, k: nat, nodes: set<Node>, disk: Disk,
                 was: Tree, sub: Tree)
    requires k < |stack| == |ctx| && DiskOk(disk)
    requires newNode in nodes && newNode.Shape(|disk|) && newNode.Denote(disk) == newTree
    requires forall j | 0 <= j < |stack| :: stack[j].node in nodes && stack[j].node.Shape(|disk|)
    requires forall j | 0 <= j < k :: AgreesBut(stack[j].node.Denote(disk), ctx[j])
    requires AgreesBut(was, ctx[k]) && sub == Plug(ctx[k + 1..], newTree)
    requires stack[k].node.Denote(disk) == was.(kids := SetKid(was.kids, ctx[k].branch, sub))
    ensures Climbed(stack, ctx, newNode, newTree, k, nodes, disk)
    ensures k == |stack| - 1 ==> Climbed(stack, ctx, newNode, newTree, |stack|, nodes, disk)
  {
    AgreePlug(was, ctx[k], sub);
    assert ctx[k..] == [ctx[k]] + ctx[k + 1..];
    assert Plug(ctx[k..], newTree) == Plug([ctx[k]], sub) by {
      assert ctx[k..][1..] == ctx[k + 1..] && [ctx[k]][1..] == [];
    }
  }

  lemma ValidButMore(aux: UpdateAux, a: set<Node>, b: set<Node>)
    requires ValidBut(aux, a) && a <= b
    ensures ValidBut(aux, b)
  {
    hide KidsOf, DiskTree, Node.Denote, Rank;
    forall n | n in aux.nodes ensures Loose(n, b, aux.nodes, aux.up, aux.disk) {
      assert Loose(n, a, aux.nodes, aux.up, aux.disk);
      forall i | 0 <= i < |n.next| ensures LooseChild(n, i, b, aux.nodes, aux.up, aux.disk) {
        assert LooseChild(n, i, a, aux.nodes, aux.up, aux.disk);
      }
    }
  }

  /** What rewriting ancestor `k` needs to know about the node below it. */
  lemma BelowIsDone(stack: seq<Step>, ctx: seq<Frame>, newNode: Node, newTree: Tree, h: nat, k: nat, nodes: set<Node>, disk: Disk)
    requires DiskOk(disk) && |ctx| == |stack| && k < |stack| && k < h && (k < |stack| - 1 ==> h == k + 1)
    requires Climbed(stack, ctx, newNode, newTree, h, nodes, disk)
    ensures Below(stack, newNode, k).Shape(|disk|)
    ensures Below(stack, newNode, k).Denote(disk) == Plug(ctx[k + 1..], newTree)
  {
    if k == |stack| - 1 {
      assert ctx[k + 1..] == [];
    }
  }

  lemma OthersAgree(stack: seq<Step>, ctx: seq<Frame>, newNode: Node, newTree: Tree, k: nat, nodes: set<Node>, d: Disk, d': Disk)
    requires |ctx| == |stack| && k < |stack| && newNode in nodes && newNode != stack[k].node
    requires Kept(nodes - {stack[k].node}, d, d')
    requires forall j | 0 <= j < |stack| :: stack[j].node in nodes
    requires forall j | 0 <= j < k :: stack[j].node != stack[k].node
    requires newNode.Denote(d) == newTree
    requires forall j | 0 <= j < k :: stack[j].node.Shape(|d|) && AgreesBut(stack[j].node.Denote(d), ctx[j])
    ensures newNode.Shape(|d'|) && newNode.Denote(d') == newTree
    ensures forall j | 0 <= j < |stack| && stack[j].node != stack[k].node :: stack[j].node.Shape(|d'|)
    ensures forall j | 0 <= j < k :: AgreesBut(stack[j].node.Denote(d'), ctx[j])
  {
    hide KidsOf, Node.Denote, AgreesBut;
  }

  method RewriteOne(aux: UpdateAux, stack: seq<Step>, k: nat, newNode: Node, ghost ctx: seq<Frame>, ghost newTree: Tree,
                    ghost h: nat, ghost stale: Node)
    requires k < |stack| == |ctx| && k < h && (k < |stack| - 1 ==> h == k + 1)
    requires DiskOk(aux.disk) && ValidBut(aux, {stale}) && stale in {stack[k].node, Below(stack, newNode, k)}
    requires Ladder(stack, ctx, newNode, aux.nodes)
    requires Climbed(stack, ctx, newNode, newTree, h, aux.nodes, aux.disk)
    requires stack[k].index < |stack[k].node.next| && stack[k].node.next[stack[k].index] != null
    modifies aux`disk, stack[k].node`fnext, stack[k].node`minv
    ensures DiskOk(aux.disk) && old(aux.disk) <= aux.disk
    ensures ValidBut(aux, {stack[k].node})
    ensures Ladder(stack, ctx, newNode, aux.nodes)
    ensures Climbed(stack, ctx, newNode, newTree, k, aux.nodes, aux.disk)
    ensures k == |stack| - 1 ==> Climbed(stack, ctx, newNode, newTree, |stack|, aux.nodes, aux.disk)
    ensures Kept(aux.nodes - {stack[k].node}, old(aux.disk), aux.disk)
    ensures old(aux.Exact()) ==> aux.Exact()
  {
    hide KidsOf, Node.Denote, AgreesBut, ValidBut, Rank, UpdateAux.Exact;
    var p, i := stack[k].node, stack[k].index;
    assert Rung(stack, ctx, newNode, k, aux.nodes);
    ghost var d, was, sub := aux.disk, p.Denote(aux.disk), Plug(ctx[k + 1..], newTree);
    BelowIsDone(stack, ctx, newNode, newTree, h, k, aux.nodes, aux.disk);
    ValidButMore(aux, {stale}, {p, Below(stack, newNode, k)});
    Rewrite(aux, p, i, ctx[k].branch);
    OthersAgree(stack, ctx, newNode, newTree, k, aux.nodes, d, aux.disk);
    ClimbOne(stack, ctx, newNode, newTree, k, aux.nodes, aux.disk, was, sub);
  }

  lemma LooseIsKept(aux: UpdateAux, stale: Node)
    requires ValidBut(aux, {stale})
    ensures Kept(aux.nodes, aux.disk, aux.disk)
  {
    hide KidsOf, Node.Denote;
    forall n | n in aux.nodes ensures n.Shape(|aux.disk|) {
      assert Loose(n, {stale}, aux.nodes, aux.up, aux.disk);
    }
  }

  lemma KeptFewer(nodes: set<Node>, gone: set<Node>, d: Disk, d': Disk)
    requires Kept(nodes, d, d')
    ensures Kept(nodes - gone, d, d')
  {
  }

  lemma KeptOn(nodes: set<Node>, gone: set<Node>, p: Node, d: Disk, d': Disk, d'': Disk)
    requires Kept(nodes - gone, d, d') && Kept(nodes - {p}, d', d'') && p in gone
    ensures Kept(nodes - gone, d, d'')
  {
    hide KidsOf, Node.Denote;
  }

  lemma LadderRungs(stack: seq<Step>, ctx: seq<Frame>, newNode: Node, nodes: set<Node>)
    requires Ladder(stack, ctx, newNode, nodes)
    ensures |stack| > 0 && forall k | 0 <= k < |stack| :: stack[k].node in nodes && stack[k].index < |stack[k].node.next|
  {
    forall k | 0 <= k < |stack| ensures stack[k].node in nodes && stack[k].index < |stack[k].node.next| {
      assert Rung(stack, ctx, newNode, k, nodes);
    }
  }

  /** Pops the ancestors, the last one twice, and rewrites each; stops where a child pointer is gone. */
  method RewriteAncestors(aux: UpdateAux, stack: seq<Step>, newNode: Node, ghost ctx: seq<Frame>, ghost newTree: Tree)
    returns (ok: bool)
    requires DiskOk(aux.disk) && ValidBut(aux, {newNode}) && |ctx| == |stack|
    requires Ladder(stack, ctx, newNode, aux.nodes)
    requires forall k | 0 <= k < |stack| :: stack[k].index < |stack[k].node.next|
    requires Climbed(stack, ctx, newNode, newTree, |stack| + 1, aux.nodes, aux.disk)
    modifies aux`disk
    modifies (set k | 0 <= k < |stack| :: stack[k].node)`fnext, (set k | 0 <= k < |stack| :: stack[k].node)`minv
    ensures ok <==> forall k | 0 <= k < |stack| :: stack[k].node.next[stack[k].index] != null
    ensures DiskOk(aux.disk) && old(aux.disk) <= aux.disk
    ensures ok ==> ValidBut(aux, {stack[0].node})
    ensures ok && old(aux.Exact()) ==> aux.Exact()
    ensures ok ==> Climbed(stack, ctx, newNode, newTree, 0, aux.nodes, aux.disk)
    ensures ok ==> Kept(aux.nodes - (set k | 0 <= k < |stack| :: stack[k].node), old(aux.disk), aux.disk)
  {
    hide KidsOf, Node.Denote, ValidBut, Climbed, Rank, Ladder, Kept, DiskOk, UpdateAux.Exact;
    LadderRungs(stack, ctx, newNode, aux.nodes);
    LooseIsKept(aux, newNode);
    var steps, h: nat := stack + [stack[|stack| - 1]], |stack| + 1;
    ghost var rewritten, stale, d0 := set k | 0 <= k < |stack| :: stack[k].node, newNode, aux.disk;
    KeptFewer(aux.nodes, rewritten, d0, d0);
    while h > 0
      invariant h <= |stack| + 1
      invariant DiskOk(aux.disk) && d0 <= aux.disk
      invariant ValidBut(aux, {stale})
      invariant old(aux.Exact()) ==> aux.Exact()
      invariant stale == if h == |stack| + 1 then newNode else steps[h].node
      invariant Ladder(stack, ctx, newNode, aux.nodes)
      invariant Climbed(stack, ctx, newNode, newTree, h, aux.nodes, aux.disk)
      invariant Kept(aux.nodes - rewritten, d0, aux.disk)
      invariant forall k | h <= k < |stack| :: old(stack[k].node.next[stack[k].index]) != null
    {
      var p, i := steps[h - 1].node, steps[h - 1].index;
      if p.next[i] == null {
        return false;
      }
      ghost var d := aux.disk;
      RewriteOne(aux, stack, if h > |stack| then |stack| - 1 else h - 1, newNode, ctx, newTree, h, stale);
      KeptOn(aux.nodes, rewritten, p, d0, d, aux.disk);
      stale, h := p, h - 1;
    }
    ok := true;
  }
}
