/** The middle phase of the copy: the node that takes the place of the one where the walk stopped. */
module CopyBuild {
  import opened Trie
  import opened TrieHeap
  import opened CopySpec
  import opened NodeBuilders
  import opened CopyTrie

  lemma {:induction false} CommonPrefixIs(a: Key, b: Key, i: nat)
    requires i <= |a| && i <= |b| && a[..i] == b[..i]
    requires i == |a| || i == |b| || a[i] != b[i]
    ensures CommonPrefix(a, b) == i
    decreases i
  {
    if i > 0 {
      assert a[0] == a[..i][0] && b[0] == b[..i][0];
      assert a[1..][..i - 1] == a[..i][1..] && b[1..][..i - 1] == b[..i][1..];
      CommonPrefixIs(a[1..], b[1..], i - 1);
    }
  }

  /** The graft, read off the place where the walk stopped. */
  lemma GraftWhereStopped(t: Tree, isRoot: bool, pi: nat, ni: nat, stop: Stop, job: Job)
    requires ni <= pi <= |job.dp| && ni <= |t.path| && t.path[..ni] == job.dp[pi - ni..pi]
    requires match stop
      case Refusal => false
      case End => pi == |job.dp|
      case Mismatch => pi < |job.dp| && ni < |t.path| && job.dp[pi] != t.path[ni]
      case NoBranch => pi < |job.dp| && ni == |t.path| && Kid(t, job.dp[pi]).None?
    ensures var v := if isRoot then job.rv else None;
      Graft(t, isRoot, Rest(job.dp, pi, ni), job.src, job.rv, job.ver) ==
        match stop
        case End => if ni < |t.path| then None else Some(Tree(t.path, job.src.value, job.ver, job.src.kids))
        case Mismatch => Some(Tree(t.path[..ni], v, job.ver,
          SetKid(SetKid(NoKids(), job.dp[pi], Repath(job.src, job.dp[pi + 1..])), t.path[ni], Repath(t, t.path[ni + 1..]))))
        case _ => Some(Tree(t.path, v, job.ver, SetKid(t.kids, job.dp[pi], Repath(job.src, job.dp[pi + 1..]))))
  {
    var rest := Rest(job.dp, pi, ni);
    assert rest[..ni] == job.dp[pi - ni..pi];
    CommonPrefixIs(t.path, rest, ni);
    if pi < |job.dp| {
      assert rest[ni] == job.dp[pi] && rest[ni + 1..] == job.dp[pi + 1..];
    }
  }

  ghost predicate GaveUpChildren(n: Node, count: nat)
    reads n`next
  {
    |n.next| == count && forall i :: 0 <= i < |n.next| ==> n.next[i] == null
  }

  method BuildSplit(aux: UpdateAux, srcNode: Node, node: Node, pi: nat, ni: nat, dp: Key, value: Option<Bytes>, ver: int)
    returns (n: Node)
    requires aux.Valid() && srcNode in aux.nodes && node in aux.nodes
    requires pi < |dp| && ni < |node.path| && dp[pi] != node.path[ni]
    modifies aux, srcNode`next, node`next
    ensures aux.Valid() && fresh(n) && n in aux.nodes && n !in aux.up
    ensures forall c | c in old(aux.nodes) && c !in old(aux.up) :: c !in aux.up
    ensures old(aux.nodes) <= aux.nodes && Kept(old(aux.nodes), old(aux.disk), aux.disk)
    ensures n.Denote(aux.disk) == Tree(node.path[..ni], value, ver,
              SetKid(SetKid(NoKids(), dp[pi], Repath(old(srcNode.Denote(aux.disk)), dp[pi + 1..])),
                     node.path[ni], Repath(old(node.Denote(aux.disk)), node.path[ni + 1..])))
    ensures srcNode != node ==> GaveUpChildren(srcNode, old(|srcNode.next|))
    ensures old(aux.Exact()) ==> aux.Exact()
  {
    hide KidsOf, DiskTree, Kept, SetKid, UpdateAux.Exact;
    ghost var nodes0, d0 := aux.nodes, aux.disk;
    var destHalf := MakeNodeFrom(aux, srcNode, dp[pi + 1..], srcNode.value, srcNode.version);
    var nodeHalf := MakeNodeFrom(aux, node, node.path[ni + 1..], node.value, node.version);
    ghost var nodes1 := aux.nodes;
    n := CreateNodeWithTwoChildren(aux, node.path[..ni], dp[pi], destHalf, node.path[ni], nodeHalf, ver, value);
    KeptSubset(nodes0, nodes1, d0, aux.disk);
  }

  lemma KeptSubset(few: set<Node>, many: set<Node>, d: Disk, d': Disk)
    requires Kept(many, d, d') && few <= many
    ensures Kept(few, d, d')
  {
  }

  method BuildBranch(aux: UpdateAux, srcNode: Node, node: Node, pi: nat, dp: Key, value: Option<Bytes>, ver: int)
    returns (n: Node)
    requires aux.Valid() && srcNode in aux.nodes && node in aux.nodes
    requires pi < |dp| && |node.mask| == BRANCHES && !node.mask[dp[pi]]
    modifies aux, srcNode`next, node`next
    ensures aux.Valid() && fresh(n) && n in aux.nodes && n !in aux.up
    ensures forall c | c in old(aux.nodes) && c !in old(aux.up) :: c !in aux.up
    ensures old(aux.nodes) <= aux.nodes && Kept(old(aux.nodes), old(aux.disk), aux.disk)
    ensures n.Denote(aux.disk) == Tree(node.path, value, ver,
              SetKid(old(node.Denote(aux.disk)).kids, dp[pi], Repath(old(srcNode.Denote(aux.disk)), dp[pi + 1..])))
    ensures srcNode != node ==> GaveUpChildren(srcNode, old(|srcNode.next|))
    ensures old(aux.Exact()) ==> aux.Exact()
  {
    hide KidsOf, DiskTree, Kept, SetKid, UpdateAux.Exact;
    ghost var nodes0, d0 := aux.nodes, aux.disk;
    var destNode := MakeNodeFrom(aux, srcNode, dp[pi + 1..], srcNode.value, srcNode.version);
    ghost var nodes1 := aux.nodes;
    n := CreateNodeAddNewBranch(aux, node, dp[pi], destNode, ver, value);
    KeptSubset(nodes0, nodes1, d0, aux.disk);
  }

  /** Builds the node for the place where the walk stopped; none when the key ends inside a path. */
  method Build(aux: UpdateAux, srcNode: Node, w: Place, stop: Stop, dp: Key, isRoot: bool, rv: Option<Bytes>, ver: int)
    returns (n: Node?)
    requires aux.Valid() && srcNode in aux.nodes && w.node in aux.nodes
    requires stop != Refusal && StopsFor(stop, w, dp) && Position(w.node, dp, w.pi, w.ni)
    modifies aux, srcNode`next, w.node`next
    ensures n == null <==> stop == End && w.ni < |w.node.path|
    ensures n != null ==> aux.Valid() && fresh(n) && n in aux.nodes && n !in aux.up
    ensures forall c | c in old(aux.nodes) && c !in old(aux.up) :: c !in aux.up
    ensures n != null ==> old(aux.nodes) <= aux.nodes && Kept(old(aux.nodes), old(aux.disk), aux.disk)
    ensures n != null ==> DiskOk(aux.disk) && old(aux.disk) <= aux.disk && n.Shape(|aux.disk|)
    ensures n != null && old(aux.Exact()) ==> aux.Exact()
    ensures n != null && srcNode != w.node ==> GaveUpChildren(srcNode, old(|srcNode.next|))
    ensures var job := Job(dp, old(srcNode.Denote(aux.disk)), rv, ver);
            Graft(old(w.node.Denote(aux.disk)), isRoot, Rest(dp, w.pi, w.ni), job.src, rv, ver)
            == if n == null then None else Some(n.Denote(aux.disk))
  {
    hide KidsOf, DiskTree, Kept, SetKid, UpdateAux.Exact, Graft;
    assert Linked(srcNode, aux.nodes, aux.up, aux.disk) && Linked(w.node, aux.nodes, aux.up, aux.disk);
    ghost var job, t, nodes := Job(dp, srcNode.Denote(aux.disk), rv, ver), w.node.Denote(aux.disk), aux.nodes;
    ghost var d := aux.disk;
    KidIsAbsent(w.node, d);
    GraftWhereStopped(t, isRoot, w.pi, w.ni, stop, job);
    match stop {
    case Mismatch =>
      n := BuildSplit(aux, srcNode, w.node, w.pi, w.ni, dp, if isRoot then rv else None, ver);
    case NoBranch =>
      n := BuildBranch(aux, srcNode, w.node, w.pi, dp, if isRoot then rv else None, ver);
    case End =>
      if w.ni < |w.node.path| {
        return null;
      }
      n := MakeNodeFrom(aux, srcNode, w.node.path, srcNode.value, ver);
      KeptAll(aux, nodes, d);
    }
    KeptGrows(nodes, d, aux.disk);
    assert Linked(n, aux.nodes, aux.up, aux.disk);
  }

  lemma KeptGrows(nodes: set<Node>, d: Disk, d': Disk)
    requires Kept(nodes, d, d')
    ensures d <= d' && DiskOk(d) && DiskOk(d')
  {
  }

  lemma KidIsAbsent(n: Node, disk: Disk)
    requires DiskOk(disk) && n.Shape(|disk|)
    ensures forall b: Nibble | !n.mask[b] :: Kid(n.Denote(disk), b) == None
  {
  }

  lemma KeptAll(aux: UpdateAux, nodes: set<Node>, d: Disk)
    requires aux.Valid() && nodes <= aux.nodes && d == aux.disk
    ensures Kept(nodes, d, aux.disk)
  {
    ValidIsKept(aux);
  }
}
