/** The node builders of the copy: each makes a fresh node, moves child pointers into it and keeps
    memory and disk in agreement. */
module NodeBuilders {
  import opened Trie
  import opened TrieHeap
  import opened CopySpec

  /** A child on its way into a new node. */
  datatype ChildData = ChildData(branch: Nibble, ptr: Node?, offset: Offset, minv: int)

  function Offsets(cs: seq<ChildData>): (r: seq<Offset>)
    ensures |r| == |cs| && forall i :: 0 <= i < |r| ==> r[i] == cs[i].offset
  {
    seq(|cs|, i requires 0 <= i < |cs| => cs[i].offset)
  }

  function Minvs(cs: seq<ChildData>): (r: seq<int>)
    ensures |r| == |cs| && forall i :: 0 <= i < |r| ==> r[i] == cs[i].minv
  {
    seq(|cs|, i requires 0 <= i < |cs| => cs[i].minv)
  }

  function Pointers(cs: seq<ChildData>): (r: seq<Node?>)
    ensures |r| == |cs| && forall i :: 0 <= i < |r| ==> r[i] == cs[i].ptr
  {
    seq(|cs|, i requires 0 <= i < |cs| => cs[i].ptr)
  }

  lemma DenoteMono(n: Node, d: Disk, d': Disk)
    requires DiskOk(d) && DiskOk(d') && d <= d' && n.Shape(|d|)
    ensures n.Shape(|d'|) && n.Denote(d) == n.Denote(d')
  {
    KidsOfMono(n.mask, n.fnext, d, |d|, d', |d'|);
  }

  function MinOf(m: int, vs: seq<int>): int {
    if vs == [] then m else Min(MinOf(m, vs[..|vs| - 1]), vs[|vs| - 1])
  }

  method CalcMinVersion(n: Node) returns (m: int)
    ensures m == MinOf(n.version, n.minv)
  {
    m := n.version;
    for i := 0 to |n.minv|
      invariant m == MinOf(n.version, n.minv[..i])
    {
      assert n.minv[..i + 1][..i] == n.minv[..i];
      m := Min(m, n.minv[i]);
    }
    assert n.minv[..|n.minv|] == n.minv;
  }

  lemma ExactMono(fnext: seq<Offset>, minv: seq<int>, d: Disk, d': Disk)
    requires DiskOk(d) && DiskOk(d') && d <= d' && ExactArrays(fnext, minv, d)
    ensures ExactArrays(fnext, minv, d')
  {
    forall i | 0 <= i < |fnext| ensures ExactAt(fnext, minv, i, d') {
      assert ExactAt(fnext, minv, i, d);
      DiskTreeMono(d, d', fnext[i]);
    }
  }

  lemma ExactWritten(d: Disk, im: Image)
    requires DiskOk(d + [im]) && ExactDisk(d) && ExactArrays(im.fnext, im.minv, d)
    ensures ExactDisk(d + [im])
  {
    var d' := d + [im];
    forall o | 0 <= o < |d'| ensures ExactArrays(d'[o].fnext, d'[o].minv, d') {
      ExactMono(d'[o].fnext, d'[o].minv, d, d');
    }
  }

  /** The minimum over the recorded minima is the minimum over the children, branch by branch. */
  lemma {:induction false} MinKidsIsFold(n: Node, disk: Disk, b: nat)
    requires DiskOk(disk) && n.Shape(|disk|) && ExactArrays(n.fnext, n.minv, disk) && b <= BRANCHES
    ensures Rank(n.mask, b) <= |n.minv| && MinKids(n.Denote(disk), b) == MinOf(n.version, n.minv[..Rank(n.mask, b)])
  {
    RankMono(n.mask, b, BRANCHES);
    if b > 0 {
      MinKidsIsFold(n, disk, b - 1);
      var r := Rank(n.mask, b - 1);
      if n.mask[b - 1] {
        RankMono(n.mask, b - 1, BRANCHES);
        assert ExactAt(n.fnext, n.minv, r, disk);
        assert n.minv[..r + 1][..r] == n.minv[..r];
        assert Kid(n.Denote(disk), b - 1) == Some(DiskTree(disk, n.fnext[r]));
      } else {
        assert Kid(n.Denote(disk), b - 1) == None;
      }
    }
  }

  lemma MinIsExact(n: Node, disk: Disk)
    requires DiskOk(disk) && n.Shape(|disk|) && ExactArrays(n.fnext, n.minv, disk)
    ensures MinOf(n.version, n.minv) == MinVersion(n.Denote(disk))
  {
    MinKidsIsFold(n, disk, BRANCHES);
    assert n.minv[..|n.minv|] == n.minv;
  }

  /** Appends the node's image. */
  method WriteNode(aux: UpdateAux, n: Node) returns (off: Offset)
    requires DiskOk(aux.disk) && n.Shape(|aux.disk|)
    modifies aux`disk
    ensures off == |old(aux.disk)| && aux.disk == old(aux.disk) + [n.ToImage()]
    ensures DiskOk(aux.disk) && n.Shape(|aux.disk|)
    ensures DiskTree(aux.disk, off) == n.Denote(aux.disk)
    ensures old(ExactDisk(aux.disk) && ExactArrays(n.fnext, n.minv, aux.disk)) ==> ExactDisk(aux.disk)
  {
    off := |aux.disk|;
    if ExactDisk(aux.disk) && ExactArrays(n.fnext, n.minv, aux.disk) {
      ExactWritten(aux.disk, n.ToImage());
    }
    aux.disk := aux.disk + [n.ToImage()];
    KidsOfMono(n.mask, n.fnext, aux.disk, off, aux.disk, |aux.disk|);
  }

  /** A longer disk leaves every node linked and every meaning alone. */
  lemma LinkedLonger(n: Node, nodes: set<Node>, up: Parents, d: Disk, d': Disk)
    requires DiskOk(d) && DiskOk(d') && d <= d' && Linked(n, nodes, up, d)
    ensures Linked(n, nodes, up, d') && n.Denote(d') == n.Denote(d)
  {
    DenoteMono(n, d, d');
    forall i | 0 <= i < |n.next| ensures ChildOk(n, i, nodes, up, d') {
      assert ChildOk(n, i, nodes, up, d);
      DiskTreeMono(d, d', n.fnext[i]);
      if n.next[i] != null {
        DenoteMono(n.next[i], d, d');
      }
    }
  }

  /** The disk grew and no node changed its meaning. */
  ghost predicate Kept(nodes: set<Node>, d: Disk, d': Disk)
    reads nodes`mask, nodes`path, nodes`value, nodes`version, nodes`fnext, nodes`minv
  {
    && d <= d' && DiskOk(d) && DiskOk(d')
    && forall n | n in nodes :: n.Shape(|d|) && n.Shape(|d'|) && n.Denote(d') == n.Denote(d)
  }

  lemma KeptTrans(nodes: set<Node>, d: Disk, d': Disk, d'': Disk)
    requires Kept(nodes, d, d') && Kept(nodes, d', d'')
    ensures Kept(nodes, d, d'')
  {
    hide KidsOf, Node.Denote;
  }

  lemma KeptAt(n: Node, nodes: set<Node>, d: Disk, d': Disk)
    requires n in nodes && Kept(nodes, d, d')
    ensures d <= d' && DiskOk(d) && DiskOk(d') && n.Shape(|d|) && n.Shape(|d'|) && n.Denote(d') == n.Denote(d)
  {
  }

  lemma ValidIsKept(aux: UpdateAux)
    requires aux.Valid()
    ensures Kept(aux.nodes, aux.disk, aux.disk)
  {
    hide KidsOf, Node.Denote;
    forall n | n in aux.nodes ensures n.Shape(|aux.disk|) {
      assert Linked(n, aux.nodes, aux.up, aux.disk);
    }
  }

  lemma ExactGrows(aux: UpdateAux, d: Disk)
    requires DiskOk(d) && d <= aux.disk && ExactDisk(aux.disk)
    requires forall m | m in aux.nodes :: ExactArrays(m.fnext, m.minv, d)
    ensures aux.Exact()
  {
    forall m | m in aux.nodes ensures ExactArrays(m.fnext, m.minv, aux.disk) {
      ExactMono(m.fnext, m.minv, d, aux.disk);
    }
  }

  /** Writes a node that is already part of the trie. */
  method WriteKept(aux: UpdateAux, n: Node) returns (off: Offset)
    requires aux.Valid() && n in aux.nodes
    modifies aux`disk
    ensures aux.Valid() && old(aux.disk) < aux.disk && off < |aux.disk|
    ensures DiskTree(aux.disk, off) == n.Denote(aux.disk)
    ensures Kept(aux.nodes, old(aux.disk), aux.disk)
    ensures old(aux.Exact()) ==> aux.Exact()
  {
    ghost var d := aux.disk;
    off := WriteNode(aux, n);
    if old(aux.Exact()) {
      ExactGrows(aux, d);
    }
    forall m | m in aux.nodes ensures Linked(m, aux.nodes, aux.up, aux.disk) && m.Denote(aux.disk) == m.Denote(d) {
      LinkedLonger(m, aux.nodes, aux.up, d, aux.disk);
    }
  }

  /** The children of `from` move to `n`. */
  function Moved(up: Parents, from: Node, n: Node): (r: Parents)
    ensures r.Keys == up.Keys
  {
    map c | c in up :: if up[c].0 == from then (n, up[c].1) else up[c]
  }

  /** The new node stands for the old subtrie under another path, value and version; the old node
      keeps its meaning but gives up its resident children. */
  method MakeNodeFrom(aux: UpdateAux, from: Node, path: Key, value: Option<Bytes>, version: int)
    returns (n: Node)
    requires aux.Valid() && from in aux.nodes
    modifies aux`nodes, aux`up, from`next
    ensures aux.Valid() && fresh(n) && aux.nodes == old(aux.nodes) + {n}
    ensures aux.up == Moved(old(aux.up), from, n)
    ensures n.Denote(aux.disk) == old(from.Denote(aux.disk)).(path := path, value := value, version := version)
    ensures |from.next| == |old(from.next)| && forall i :: 0 <= i < |from.next| ==> from.next[i] == null
    ensures n.minv == from.minv && n.mask == from.mask && n.fnext == from.fnext && n.version == version
    ensures old(aux.Exact()) ==> aux.Exact()
  {
    hide KidsOf, DiskTree, Rank, ExactArrays, ExactDisk;
    assert Linked(from, aux.nodes, aux.up, aux.disk);
    n := new Node(from.mask, path, value, version, from.fnext, from.minv, from.next);
    ghost var nodes, up := aux.nodes + {n}, Moved(aux.up, from, n);
    forall m | m in aux.nodes && m != from ensures Linked(m, nodes, up, aux.disk) {
      LinkedMore(m, aux.nodes, aux.up, nodes, up, aux.disk);
    }
    forall i | 0 <= i < |n.next| ensures ChildOk(n, i, nodes, up, aux.disk) {
      assert ChildOk(from, i, aux.nodes, aux.up, aux.disk);
    }
    aux.nodes, aux.up := nodes, up;
    from.next := seq(|from.next|, _ => null);
  }

  ghost predicate ChildReady(c: ChildData, nodes: set<Node>, disk: Disk)
    requires DiskOk(disk)
    reads nodes`mask, nodes`path, nodes`value, nodes`version, nodes`fnext, nodes`minv
  {
    && c.offset < |disk|
    && (c.ptr != null ==> c.ptr in nodes && c.ptr.Shape(|disk|) && c.ptr.Denote(disk) == DiskTree(disk, c.offset))
  }

  lemma ReadyLonger(c: ChildData, nodes: set<Node>, d: Disk, d': Disk)
    requires DiskOk(d) && DiskOk(d') && d <= d' && ChildReady(c, nodes, d)
    ensures ChildReady(c, nodes, d')
  {
    DiskTreeMono(d, d', c.offset);
    if c.ptr != null {
      DenoteMono(c.ptr, d, d');
    }
  }

  /** No child has a resident parent, and none is listed twice. */
  ghost predicate Detached(cs: seq<ChildData>, up: Parents) {
    && (forall c | c in cs && c.ptr != null :: c.ptr !in up)
    && forall i, j | 0 <= i < j < |cs| :: cs[i].ptr != null ==> cs[i].ptr != cs[j].ptr
  }

  function Residents(cs: seq<ChildData>): set<Node> {
    set i | 0 <= i < |cs| && cs[i].ptr != null :: cs[i].ptr
  }

  ghost function Attached(cs: seq<ChildData>, n: Node): (r: Parents)
    ensures r.Keys == Residents(cs)
  {
    map c | c in Residents(cs) :: var i :| 0 <= i < |cs| && cs[i].ptr == c; (n, i)
  }

  /** Children ready to be put into a new node. */
  ghost predicate Collected(cs: seq<ChildData>, nodes: set<Node>, up: Parents, disk: Disk)
    requires DiskOk(disk)
    reads nodes`mask, nodes`path, nodes`value, nodes`version, nodes`fnext, nodes`minv
  {
    (forall c | c in cs :: ChildReady(c, nodes, disk)) && Detached(cs, up)
  }

  lemma CollectedSnoc(cs: seq<ChildData>, c: ChildData, nodes: set<Node>, up: Parents, disk: Disk)
    requires DiskOk(disk) && Collected(cs, nodes, up, disk) && ChildReady(c, nodes, disk)
    requires c.ptr != null ==> c.ptr !in up && forall x | x in cs :: x.ptr != c.ptr
    ensures Collected(cs + [c], nodes, up, disk)
  {
    var cs' := cs + [c];
    forall i, j | 0 <= i < j < |cs'| && cs'[i].ptr != null ensures cs'[i].ptr != cs'[j].ptr {
      if j < |cs| {
        assert cs[i].ptr != cs[j].ptr;
      } else {
        assert cs[i] in cs;
      }
    }
  }

  ghost predicate ExactChild(c: ChildData, disk: Disk)
    requires DiskOk(disk)
  {
    c.offset < |disk| && c.minv == MinVersion(DiskTree(disk, c.offset))
  }

  ghost predicate ExactChildren(cs: seq<ChildData>, disk: Disk)
    requires DiskOk(disk)
  {
    forall c | c in cs :: ExactChild(c, disk)
  }

  lemma ExactCollected(cs: seq<ChildData>, disk: Disk)
    requires DiskOk(disk) && ExactChildren(cs, disk)
    ensures ExactArrays(Offsets(cs), Minvs(cs), disk)
  {
    forall i | 0 <= i < |cs| ensures ExactAt(Offsets(cs), Minvs(cs), i, disk) {
      assert ExactChild(cs[i], disk);
    }
  }

  lemma ExactChildrenMono(cs: seq<ChildData>, d: Disk, d': Disk)
    requires DiskOk(d) && DiskOk(d') && d <= d' && ExactChildren(cs, d)
    ensures ExactChildren(cs, d')
  {
    forall c | c in cs ensures ExactChild(c, d') {
      DiskTreeMono(d, d', c.offset);
    }
  }

  lemma ReadyMore(c: ChildData, nodes: set<Node>, more: set<Node>, disk: Disk)
    requires DiskOk(disk) && nodes <= more && ChildReady(c, nodes, disk)
    ensures ChildReady(c, more, disk)
  {
  }

  lemma AttachedAt(cs: seq<ChildData>, n: Node, up: Parents)
    requires Detached(cs, up)
    ensures forall i | 0 <= i < |cs| && cs[i].ptr != null ::
      cs[i].ptr in up + Attached(cs, n) && (up + Attached(cs, n))[cs[i].ptr] == (n, i)
    ensures forall c | c in up :: (up + Attached(cs, n))[c] == up[c]
  {
    forall i | 0 <= i < |cs| && cs[i].ptr != null
      ensures cs[i].ptr in Attached(cs, n) && Attached(cs, n)[cs[i].ptr] == (n, i)
    {
      assert cs[i].ptr in Residents(cs);
    }
    forall i | 0 <= i < |cs| && cs[i].ptr != null ensures cs[i].ptr !in up {
      assert cs[i] in cs;
    }
  }

  lemma MadeNodeIsLinked(n: Node, cs: seq<ChildData>, nodes: set<Node>, up: Parents, disk: Disk)
    requires DiskOk(disk) && |n.mask| == BRANCHES && |cs| == Count(n.mask)
    requires n.fnext == Offsets(cs) && n.minv == Minvs(cs) && n.next == Pointers(cs)
    requires forall c | c in cs :: ChildReady(c, nodes, disk)
    requires forall i | 0 <= i < |cs| && cs[i].ptr != null :: cs[i].ptr in up && up[cs[i].ptr] == (n, i)
    ensures Linked(n, nodes, up, disk)
  {
    hide KidsOf, DiskTree, Node.Denote, Rank;
    forall i | 0 <= i < |n.next| ensures n.fnext[i] < |disk| {
      assert ChildReady(cs[i], nodes, disk);
    }
    forall i | 0 <= i < |n.next| ensures ChildOk(n, i, nodes, up, disk) {
      assert ChildReady(cs[i], nodes, disk);
    }
  }

  /** Assembles a node from children listed by ascending branch. */
  method MakeNode(aux: UpdateAux, mask: Mask, cs: seq<ChildData>, path: Key, value: Option<Bytes>, version: int)
    returns (n: Node)
    requires aux.Valid() && |mask| == BRANCHES && |cs| == Count(mask)
    requires Collected(cs, aux.nodes, aux.up, aux.disk)
    modifies aux`nodes, aux`up
    ensures aux.Valid() && fresh(n) && aux.nodes == old(aux.nodes) + {n}
    ensures aux.up == old(aux.up) + Attached(cs, n)
    ensures n.path == path && n.value == value && n.version == version && n.mask == mask
    ensures n.fnext == Offsets(cs) && n.minv == Minvs(cs) && n.next == Pointers(cs)
    ensures old(aux.Exact()) && ExactChildren(cs, aux.disk) ==> aux.Exact()
  {
    hide KidsOf, DiskTree, Node.Denote, Rank, Collected, ExactArrays, ExactDisk, ExactChildren, Attached, Linked;
    if ExactChildren(cs, aux.disk) {
      ExactCollected(cs, aux.disk);
    }
    n := new Node(mask, path, value, version, Offsets(cs), Minvs(cs), Pointers(cs));
    AddedNodeLinks(aux, n, cs);
    aux.nodes, aux.up := aux.nodes + {n}, aux.up + Attached(cs, n);
  }

  lemma AddedNodeLinks(aux: UpdateAux, n: Node, cs: seq<ChildData>)
    requires aux.Valid() && n !in aux.nodes && |n.mask| == BRANCHES && |cs| == Count(n.mask)
    requires Collected(cs, aux.nodes, aux.up, aux.disk)
    requires n.fnext == Offsets(cs) && n.minv == Minvs(cs) && n.next == Pointers(cs)
    ensures forall m | m in aux.nodes + {n} :: Linked(m, aux.nodes + {n}, aux.up + Attached(cs, n), aux.disk)
  {
    hide KidsOf, DiskTree, Node.Denote, Rank, ChildReady, Attached, Residents;
    var nodes, up := aux.nodes + {n}, aux.up + Attached(cs, n);
    AttachedAt(cs, n, aux.up);
    forall m | m in aux.nodes ensures Linked(m, nodes, up, aux.disk) {
      LinkedMore(m, aux.nodes, aux.up, nodes, up, aux.disk);
    }
    forall c | c in cs ensures ChildReady(c, nodes, aux.disk) {
      ReadyMore(c, aux.nodes, nodes, aux.disk);
    }
    MadeNodeIsLinked(n, cs, nodes, up, aux.disk);
  }

  /** One more branch leaves every old child at its new rank. */
  lemma {:induction false} RankInsert(mask: Mask, b: nat, k: nat)
    requires k <= |mask| && b < |mask| && !mask[b]
    ensures Rank(mask[b := true], k) == Rank(mask, k) + if b < k then 1 else 0
  {
    if k > 0 {
      RankInsert(mask, b, k - 1);
    }
  }

  lemma NewBranchKids(mask: Mask, b: Nibble, fnext: seq<Offset>, fnext': seq<Offset>, off: Offset, disk: Disk)
    requires DiskOk(disk) && |mask| == BRANCHES && !mask[b] && off < |disk|
    requires |fnext| == Count(mask) && |fnext'| == Count(mask[b := true])
    requires forall i :: 0 <= i < |fnext| ==> fnext[i] < |disk|
    requires forall i :: 0 <= i < |fnext'| ==> fnext'[i] < |disk|
    requires forall k | 0 <= k < BRANCHES && (mask[k] || k == b) ::
      Rank(mask[b := true], k) < |fnext'| && (mask[k] ==> Rank(mask, k) < |fnext|) &&
      fnext'[Rank(mask[b := true], k)] == if k == b then off else fnext[Rank(mask, k)]
    ensures KidsOf(mask[b := true], fnext', disk, |disk|) ==
            SetKid(KidsOf(mask, fnext, disk, |disk|), b, DiskTree(disk, off))
  {
    var l, r := KidsOf(mask[b := true], fnext', disk, |disk|), SetKid(KidsOf(mask, fnext, disk, |disk|), b, DiskTree(disk, off));
    forall k: Nibble ensures l[k] == r[k] {
      assert KidAt(r, k) == r[k];
      assert KidAt(KidsOf(mask, fnext, disk, |disk|), k) == KidsOf(mask, fnext, disk, |disk|)[k];
    }
    assert forall k | 0 <= k < BRANCHES :: l[k] == r[k] by {
      forall k | 0 <= k < BRANCHES ensures l[k] == r[k] {
        var n: Nibble := k;
        assert l[n] == r[n];
      }
    }
  }

  /** Takes the resident child `j` out of `n`. */
  method MoveNext(aux: UpdateAux, n: Node, j: nat) returns (c: Node?)
    requires aux.Valid() && n in aux.nodes && j < |n.next|
    modifies aux`up, n`next
    ensures aux.Valid() && c == old(n.next[j]) && n.next == old(n.next)[j := null]
    ensures c != null ==> c in aux.nodes && c in old(aux.up)
    ensures c != null ==> c.Shape(|aux.disk|) && c.Denote(aux.disk) == DiskTree(aux.disk, n.fnext[j])
    ensures aux.up == if c == null then old(aux.up) else old(aux.up) - {c}
    ensures c != null ==> forall i | 0 <= i < |n.next| :: n.next[i] != c
    ensures old(aux.Exact()) ==> aux.Exact()
  {
    hide KidsOf, DiskTree, Node.Denote, Rank;
    assert Linked(n, aux.nodes, aux.up, aux.disk) && ChildOk(n, j, aux.nodes, aux.up, aux.disk);
    c := n.next[j];
    if c != null {
      ghost var up := aux.up - {c};
      forall m | m in aux.nodes && m != n ensures Linked(m, aux.nodes, up, aux.disk) {
        LinkedMore(m, aux.nodes, aux.up, aux.nodes, up, aux.disk);
      }
      assert forall i | 0 <= i < |n.next| :: ChildOk(n, i, aux.nodes, aux.up, aux.disk);
      n.next := n.next[j := null];
      forall i | 0 <= i < |n.next| ensures n.next[i] != c && ChildOk(n, i, aux.nodes, up, aux.disk) {
        assert old(ChildOk(n, i, aux.nodes, aux.up, aux.disk));
      }
      aux.up := up;
    } else {
      assert n.next[j := null] == n.next;
    }
  }

  /** The children collected so far sit at their ranks in the new mask. */
  ghost predicate Placed(cs: seq<ChildData>, mask: Mask, b: nat, i: nat, fnext: seq<Offset>, off: Offset)
    requires i <= |mask| && b < |mask| && !mask[b]
  {
    && |cs| == Rank(mask[b := true], i)
    && forall k | 0 <= k < i && mask[b := true][k] :: PlacedAt(cs, mask, b, k, fnext, off)
  }

  ghost predicate PlacedAt(cs: seq<ChildData>, mask: Mask, b: nat, k: nat, fnext: seq<Offset>, off: Offset)
    requires k <= |mask| && b < |mask| && !mask[b]
  {
    var r := Rank(mask[b := true], k);
    r < |cs| && if k == b then cs[r].offset == off else Rank(mask, k) < |fnext| && cs[r].offset == fnext[Rank(mask, k)]
  }

  lemma PlacedKids(cs: seq<ChildData>, mask: Mask, b: Nibble, fnext: seq<Offset>, off: Offset, disk: Disk)
    requires DiskOk(disk) && |mask| == BRANCHES && !mask[b] && off < |disk|
    requires Placed(cs, mask, b, BRANCHES, fnext, off)
    requires |fnext| == Count(mask) && forall i :: 0 <= i < |fnext| ==> fnext[i] < |disk|
    requires forall c | c in cs :: c.offset < |disk|
    ensures |Offsets(cs)| == Count(mask[b := true]) && forall i :: 0 <= i < |cs| ==> Offsets(cs)[i] < |disk|
    ensures KidsOf(mask[b := true], Offsets(cs), disk, |disk|) ==
            SetKid(KidsOf(mask, fnext, disk, |disk|), b, DiskTree(disk, off))
  {
    forall i | 0 <= i < |cs| ensures Offsets(cs)[i] < |disk| {
      assert cs[i] in cs;
    }
    forall k | 0 <= k < BRANCHES && (mask[k] || k == b)
      ensures PlacedAt(cs, mask, b, k, fnext, off)
    {
      assert mask[b := true][k];
    }
    NewBranchKids(mask, b, fnext, Offsets(cs), off, disk);
  }

  lemma PlacedSkip(cs: seq<ChildData>, mask: Mask, b: nat, i: nat, fnext: seq<Offset>, off: Offset)
    requires i < |mask| && b < |mask| && !mask[b] && !mask[b := true][i] && Placed(cs, mask, b, i, fnext, off)
    ensures Placed(cs, mask, b, i + 1, fnext, off)
  {
  }

  lemma PlacedSnoc(cs: seq<ChildData>, c: ChildData, mask: Mask, b: nat, i: nat, fnext: seq<Offset>, off: Offset, off': Offset)
    requires i < |mask| && b < |mask| && !mask[b] && mask[b := true][i]
    requires Placed(cs, mask, b, i, fnext, off) && (b < i ==> off' == off)
    requires if i == b then c.offset == off' else Rank(mask, i) < |fnext| && c.offset == fnext[Rank(mask, i)]
    ensures Placed(cs + [c], mask, b, i + 1, fnext, off')
  {
    var cs' := cs + [c];
    forall k | 0 <= k < i + 1 && mask[b := true][k] ensures PlacedAt(cs', mask, b, k, fnext, off') {
      if k < i {
        assert PlacedAt(cs, mask, b, k, fnext, off);
      }
    }
  }

  /** Writes a child that joins the ones collected so far. */
  method WriteChild(aux: UpdateAux, branch: Nibble, child: Node, cs: seq<ChildData>) returns (c: ChildData)
    requires aux.Valid() && child in aux.nodes && child !in aux.up
    requires Collected(cs, aux.nodes, aux.up, aux.disk) && forall x | x in cs :: x.ptr != child
    modifies aux`disk
    ensures aux.Valid() && old(aux.disk) <= aux.disk
    ensures c.branch == branch && c.ptr == child && c.minv == MinOf(child.version, child.minv)
    ensures c.offset < |aux.disk| && DiskTree(aux.disk, c.offset) == child.Denote(aux.disk)
    ensures Collected(cs + [c], aux.nodes, aux.up, aux.disk)
    ensures Kept(aux.nodes, old(aux.disk), aux.disk)
    ensures old(aux.Exact()) ==> aux.Exact() && ExactChild(c, aux.disk)
    ensures old(ExactChildren(cs, aux.disk)) ==> ExactChildren(cs, aux.disk)
  {
    hide KidsOf, DiskTree, Node.Denote, Rank, ExactArrays, ExactDisk, ExactChildren, Kept;
    ghost var d := aux.disk;
    var off := WriteKept(aux, child);
    forall x | x in cs ensures ChildReady(x, aux.nodes, aux.disk) {
      ReadyLonger(x, aux.nodes, d, aux.disk);
    }
    var m := CalcMinVersion(child);
    c := ChildData(branch, child, off, m);
    if aux.Exact() {
      assert Linked(child, aux.nodes, aux.up, aux.disk);
      MinIsExact(child, aux.disk);
    }
    if ExactChildren(cs, d) {
      ExactChildrenMono(cs, d, aux.disk);
    }
    CollectedSnoc(cs, c, aux.nodes, aux.up, aux.disk);
  }

  /** Moves child `j` of `n` over to the ones collected so far. */
  method TakeChild(aux: UpdateAux, branch: Nibble, n: Node, j: nat, cs: seq<ChildData>) returns (c: ChildData)
    requires aux.Valid() && n in aux.nodes && j < |n.next| == |n.fnext| == |n.minv|
    requires Collected(cs, aux.nodes, aux.up, aux.disk)
    modifies aux`up, n`next
    ensures aux.Valid() && |n.next| == |old(n.next)|
    ensures c.branch == branch && c.offset == n.fnext[j] && c.minv == n.minv[j]
    ensures c.ptr != null ==> c.ptr in old(aux.up)
    ensures aux.up.Keys <= old(aux.up).Keys
    ensures Collected(cs + [c], aux.nodes, aux.up, aux.disk)
    ensures old(aux.Exact()) ==> aux.Exact() && ExactChild(c, aux.disk)
  {
    if aux.Exact() {
      assert ExactArrays(n.fnext, n.minv, aux.disk) && ExactAt(n.fnext, n.minv, j, aux.disk);
    }
    var ptr := MoveNext(aux, n, j);
    assert Linked(n, aux.nodes, aux.up, aux.disk);
    c := ChildData(branch, ptr, n.fnext[j], n.minv[j]);
    CollectedSnoc(cs, c, aux.nodes, aux.up, aux.disk);
  }

  /** Assembles the node once all children are collected. */
  method Assemble(aux: UpdateAux, node: Node, b: Nibble, cs: seq<ChildData>, value: Option<Bytes>, version: int, ghost off: Offset)
    returns (n: Node)
    requires aux.Valid() && node in aux.nodes && |node.mask| == BRANCHES && !node.mask[b] && off < |aux.disk|
    requires Placed(cs, node.mask, b, BRANCHES, node.fnext, off)
    requires Collected(cs, aux.nodes, aux.up, aux.disk)
    modifies aux`nodes, aux`up
    ensures aux.Valid() && fresh(n) && aux.nodes == old(aux.nodes) + {n}
    ensures aux.up == old(aux.up) + Attached(cs, n)
    ensures n.Denote(aux.disk) == Tree(node.path, value, version,
                                       SetKid(node.Denote(aux.disk).kids, b, DiskTree(aux.disk, off)))
    ensures n.minv == Minvs(cs) && n.fnext == Offsets(cs)
    ensures old(aux.Exact()) && ExactChildren(cs, aux.disk) ==> aux.Exact()
  {
    assert Linked(node, aux.nodes, aux.up, aux.disk);
    n := MakeNode(aux, node.mask[b := true], cs, node.path, value, version);
    PlacedKids(cs, node.mask, b, node.fnext, off, aux.disk);
  }

  lemma NothingCollected(aux: UpdateAux, node: Node)
    requires aux.Valid() && node in aux.nodes
    ensures DiskOk(aux.disk) && node.Shape(|aux.disk|)
    ensures |node.next| == |node.fnext| == |node.minv| == Count(node.mask)
    ensures Collected([], aux.nodes, aux.up, aux.disk)
  {
    assert Linked(node, aux.nodes, aux.up, aux.disk);
  }

  lemma NothingPlaced(mask: Mask, b: nat, fnext: seq<Offset>, off: Offset)
    requires b < |mask| && !mask[b]
    ensures Placed([], mask, b, 0, fnext, off)
  {
  }

  /** `node` with one more branch. The old node keeps its meaning and gives up its resident children. */
  method CreateNodeAddNewBranch(aux: UpdateAux, node: Node, b: Nibble, newChild: Node, version: int, value: Option<Bytes>)
    returns (n: Node)
    requires aux.Valid() && node in aux.nodes && newChild in aux.nodes && newChild !in aux.up && newChild != node
    requires |node.mask| == BRANCHES && !node.mask[b]
    modifies aux, node`next
    ensures aux.Valid() && fresh(n) && aux.nodes == old(aux.nodes) + {n} && old(aux.disk) <= aux.disk
    ensures n !in aux.up && aux.up.Keys <= old(aux.up).Keys + {newChild}
    ensures Kept(old(aux.nodes), old(aux.disk), aux.disk)
    ensures old(aux.Exact()) ==> aux.Exact()
    ensures n.Denote(aux.disk) == Tree(node.path, value, version,
                                       SetKid(old(node.Denote(aux.disk)).kids, b, old(newChild.Denote(aux.disk))))
  {
    hide KidsOf, DiskTree, Node.Denote, Collected, Placed, Linked, SetKid, Kept, UpdateAux.Valid, UpdateAux.Exact, ExactChild;
    NothingCollected(aux, node);
    NothingCollected(aux, newChild);
    NothingPlaced(node.mask, b, node.fnext, 0);
    ValidIsKept(aux);
    ghost var d0 := aux.disk;
    var mask := node.mask[b := true];
    var cs: seq<ChildData> := [];
    var oldJ := 0;
    var off: Offset := 0;
    for i := 0 to BRANCHES
      invariant aux.Valid() && aux.nodes == old(aux.nodes) && old(aux.disk) <= aux.disk
      invariant DiskOk(aux.disk) && newChild.Shape(|aux.disk|) && Kept(aux.nodes, old(aux.disk), aux.disk)
      invariant oldJ == Rank(node.mask, i) && |node.next| == |node.fnext| == |node.minv| == Count(node.mask)
      invariant newChild !in aux.up && aux.up.Keys <= old(aux.up).Keys
      invariant Collected(cs, aux.nodes, aux.up, aux.disk)
      invariant old(aux.Exact()) ==> aux.Exact() && ExactChildren(cs, aux.disk)
      invariant i <= b ==> forall c | c in cs :: c.ptr != newChild
      invariant forall c | c in cs && c.ptr != null :: c.ptr in old(aux.up) || c.ptr == newChild
      invariant b < i ==> off < |aux.disk| && DiskTree(aux.disk, off) == newChild.Denote(aux.disk)
      invariant Placed(cs, node.mask, b, i, node.fnext, off)
    {
      if i == b {
        ghost var d := aux.disk;
        var c := WriteChild(aux, b, newChild, cs);
        KeptTrans(aux.nodes, d0, d, aux.disk);
        KeptAt(newChild, aux.nodes, d, aux.disk);
        PlacedSnoc(cs, c, node.mask, b, i, node.fnext, off, c.offset);
        off, cs := c.offset, cs + [c];
      } else if mask[i] {
        RankMono(node.mask, i, BRANCHES);
        var c := TakeChild(aux, i, node, oldJ, cs);
        PlacedSnoc(cs, c, node.mask, b, i, node.fnext, off, off);
        cs := cs + [c];
        oldJ := oldJ + 1;
      } else {
        PlacedSkip(cs, node.mask, b, i, node.fnext, off);
      }
    }
    KeptAt(node, aux.nodes, d0, aux.disk);
    KeptAt(newChild, aux.nodes, d0, aux.disk);
    n := Assemble(aux, node, b, cs, value, version, off);
  }

  /** The mask holding just these two branches (one branch when they are equal). */
  function MaskOf(b0: Nibble, b1: Nibble): (m: Mask)
    ensures |m| == BRANCHES
  {
    seq(BRANCHES, i requires 0 <= i < BRANCHES => i == b0 || i == b1)
  }

  lemma {:induction false} RankOf(b0: Nibble, b1: Nibble, k: nat)
    requires k <= BRANCHES
    ensures Rank(MaskOf(b0, b1), k) == (if b0 < k then 1 else 0) + if b1 < k && b1 != b0 then 1 else 0
  {
    if k > 0 {
      RankOf(b0, b1, k - 1);
    }
  }

  lemma OneKid(b: Nibble, off: Offset, disk: Disk)
    requires DiskOk(disk) && off < |disk|
    ensures Count(MaskOf(b, b)) == 1
    ensures KidsOf(MaskOf(b, b), [off], disk, |disk|) == SetKid(NoKids(), b, DiskTree(disk, off))
  {
    RankOf(b, b, BRANCHES);
    RankOf(b, b, b);
    var l, r := KidsOf(MaskOf(b, b), [off], disk, |disk|), SetKid(NoKids(), b, DiskTree(disk, off));
    forall k: nat | k < BRANCHES ensures l[k] == r[k] {
      assert KidAt(r, k) == r[k];
    }
  }

  lemma TwoKids(b0: Nibble, o0: Offset, b1: Nibble, o1: Offset, disk: Disk)
    requires DiskOk(disk) && o0 < |disk| && o1 < |disk| && b0 != b1
    ensures Count(MaskOf(b0, b1)) == 2
    ensures KidsOf(MaskOf(b0, b1), if b0 < b1 then [o0, o1] else [o1, o0], disk, |disk|)
         == SetKid(SetKid(NoKids(), b0, DiskTree(disk, o0)), b1, DiskTree(disk, o1))
  {
    RankOf(b0, b1, BRANCHES);
    RankOf(b0, b1, b0);
    RankOf(b0, b1, b1);
    var offs := if b0 < b1 then [o0, o1] else [o1, o0];
    var l := KidsOf(MaskOf(b0, b1), offs, disk, |disk|);
    var one := SetKid(NoKids(), b0, DiskTree(disk, o0));
    var r := SetKid(one, b1, DiskTree(disk, o1));
    forall k: nat | k < BRANCHES ensures l[k] == r[k] {
      assert KidAt(r, k) == r[k] && KidAt(one, k) == one[k];
    }
  }

  method CreateNodeWithTwoChildren(aux: UpdateAux, path: Key, b0: Nibble, child0: Node, b1: Nibble, child1: Node,
                                   version: int, value: Option<Bytes>)
    returns (n: Node)
    requires aux.Valid() && child0 in aux.nodes && child1 in aux.nodes && child0 != child1 && b0 != b1
    requires child0 !in aux.up && child1 !in aux.up
    modifies aux
    ensures aux.Valid() && fresh(n) && aux.nodes == old(aux.nodes) + {n} && old(aux.disk) <= aux.disk
    ensures aux.up.Keys == old(aux.up.Keys) + {child0, child1}
    ensures forall c | c in old(aux.up) :: aux.up[c] == old(aux.up[c])
    ensures Kept(old(aux.nodes), old(aux.disk), aux.disk)
    ensures old(aux.Exact()) ==> aux.Exact()
    ensures n.Denote(aux.disk) == Tree(path, value, version,
              SetKid(SetKid(NoKids(), b0, old(child0.Denote(aux.disk))), b1, old(child1.Denote(aux.disk))))
  {
    hide KidsOf, DiskTree, Node.Denote, Kept, UpdateAux.Valid, UpdateAux.Exact, SetKid, Collected, ExactChild;
    ghost var d0 := aux.disk;
    NothingCollected(aux, child0);
    var c0 := WriteChild(aux, b0, child0, []);
    KeptAt(child0, aux.nodes, d0, aux.disk);
    KeptAt(child1, aux.nodes, d0, aux.disk);
    ghost var d := aux.disk;
    var c1 := WriteChild(aux, b1, child1, [] + [c0]);
    KeptTrans(aux.nodes, d0, d, aux.disk);
    KeptAt(child1, aux.nodes, d0, aux.disk);
    DiskTreeMono(d, aux.disk, c0.offset);
    n := AssembleTwo(aux, path, c0, c1, version, value);
  }

  method AssembleTwo(aux: UpdateAux, path: Key, c0: ChildData, c1: ChildData, version: int, value: Option<Bytes>)
    returns (n: Node)
    requires aux.Valid() && c0.branch != c1.branch && c0.ptr != null && c1.ptr != null
    requires Collected([] + [c0] + [c1], aux.nodes, aux.up, aux.disk)
    requires c0.offset < |aux.disk| && c1.offset < |aux.disk|
    modifies aux`nodes, aux`up
    ensures aux.Valid() && fresh(n) && aux.nodes == old(aux.nodes) + {n}
    ensures aux.up.Keys == old(aux.up.Keys) + {c0.ptr, c1.ptr}
    ensures forall c | c in old(aux.up) :: aux.up[c] == old(aux.up[c])
    ensures old(aux.Exact()) && ExactChild(c0, aux.disk) && ExactChild(c1, aux.disk) ==> aux.Exact()
    ensures n.Denote(aux.disk) == Tree(path, value, version,
              SetKid(SetKid(NoKids(), c0.branch, DiskTree(aux.disk, c0.offset)), c1.branch, DiskTree(aux.disk, c1.offset)))
  {
    hide KidsOf, DiskTree, Rank, Residents, UpdateAux.Exact, ExactDisk, Collected, SetKid;
    var cs := if c0.branch < c1.branch then [c0, c1] else [c1, c0];
    CollectedSwap(c0, c1, aux.nodes, aux.up, aux.disk);
    TwoKids(c0.branch, c0.offset, c1.branch, c1.offset, aux.disk);
    n := MakeNode(aux, MaskOf(c0.branch, c1.branch), cs, path, value, version);
    assert Offsets(cs) == if c0.branch < c1.branch then [c0.offset, c1.offset] else [c1.offset, c0.offset];
    ResidentsOfTwo(c0, c1);
  }

  lemma ResidentsOfTwo(c0: ChildData, c1: ChildData)
    requires c0.ptr != null && c1.ptr != null
    ensures Residents([c0, c1]) == Residents([c1, c0]) == {c0.ptr, c1.ptr}
  {
    var cs, cs' := [c0, c1], [c1, c0];
    assert cs[0].ptr in Residents(cs) && cs[1].ptr in Residents(cs);
    assert cs'[0].ptr in Residents(cs') && cs'[1].ptr in Residents(cs');
  }

  lemma CollectedSwap(c0: ChildData, c1: ChildData, nodes: set<Node>, up: Parents, disk: Disk)
    requires DiskOk(disk) && Collected([] + [c0] + [c1], nodes, up, disk)
    ensures Collected([c0, c1], nodes, up, disk) && Collected([c1, c0], nodes, up, disk)
    ensures (c0.ptr != null ==> c0.ptr !in up) && (c1.ptr != null ==> c1.ptr !in up)
  {
    var cs := [] + [c0] + [c1];
    assert cs == [c0, c1] && cs[0] in cs && cs[1] in cs;
  }

  /** The root made when there is no destination yet: one branch, holding `child`. */
  method CreateRoot(aux: UpdateAux, b: Nibble, child: Node, version: int, value: Option<Bytes>) returns (n: Node)
    requires aux.Valid() && child in aux.nodes && child !in aux.up
    modifies aux
    ensures aux.Valid() && fresh(n) && aux.nodes == old(aux.nodes) + {n} && old(aux.disk) <= aux.disk
    ensures n !in aux.up
    ensures Kept(old(aux.nodes), old(aux.disk), aux.disk)
    ensures old(aux.Exact()) ==> aux.Exact()
    ensures n.Denote(aux.disk) == Tree([], value, version, SetKid(NoKids(), b, old(child.Denote(aux.disk))))
  {
    hide KidsOf, DiskTree, Kept, UpdateAux.Valid, SetKid;
    ghost var d0 := aux.disk;
    NothingCollected(aux, child);
    var c := WriteChild(aux, b, child, []);
    KeptAt(child, aux.nodes, d0, aux.disk);
    assert [] + [c] == [c];
    OneKid(b, c.offset, aux.disk);
    n := MakeNode(aux, MaskOf(b, b), [c], [], value, version);
    assert Offsets([c]) == [c.offset];
  }
}
