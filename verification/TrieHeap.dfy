/** Nodes in memory over an append-only disk, and the blocking lookup that loads them on demand. */
module TrieHeap {
  import opened Trie

  type Offset = nat

  /** Bit `b` of the 16-bit child mask is `mask[b]`. */
  type Mask = seq<bool>

  /** How many branches below `b` are present: the array index of branch `b`'s child. */
  function Rank(mask: Mask, b: nat): (r: nat)
    requires b <= |mask|
    ensures r <= b
  {
    if b == 0 then 0 else Rank(mask, b - 1) + if mask[b - 1] then 1 else 0
  }

  function Count(mask: Mask): nat {
    Rank(mask, |mask|)
  }

  lemma {:induction false} RankMono(mask: Mask, a: nat, b: nat)
    requires a <= b <= |mask|
    ensures Rank(mask, a) <= Rank(mask, b)
    ensures a < b && mask[a] ==> Rank(mask, a) < Rank(mask, b)
    decreases b
  {
    if a < b {
      RankMono(mask, a, b - 1);
    }
  }

  lemma {:induction false} NoBits(mask: Mask, n: nat)
    requires n <= |mask| && forall i | 0 <= i < n :: !mask[i]
    ensures Rank(mask, n) == 0
  {
    if n > 0 {
      NoBits(mask, n - 1);
    }
  }

  lemma {:induction false} OneBit(mask: Mask, b: nat, n: nat)
    requires b < n <= |mask| && forall i | 0 <= i < n :: mask[i] <==> i == b
    ensures Rank(mask, n) == 1 && Rank(mask, b) == 0
    decreases n
  {
    if n == b + 1 {
      NoBits(mask, b);
    } else {
      OneBit(mask, b, n - 1);
    }
  }

  /** A serialized node. Children are named by the offset of their own image. */
  datatype Image = Image(mask: Mask, path: Key, value: Option<Bytes>, version: int,
                         fnext: seq<Offset>, minv: seq<int>)

  type Disk = seq<Image>

  predicate ArraysOk(mask: Mask, fnext: seq<Offset>, minv: seq<int>, bound: nat) {
    && |mask| == BRANCHES
    && |fnext| == |minv| == Count(mask)
    && forall i :: 0 <= i < |fnext| ==> fnext[i] < bound
  }

  predicate ImageOk(im: Image, bound: nat) {
    ArraysOk(im.mask, im.fnext, im.minv, bound)
  }

  /** Children are written before their parents. */
  predicate DiskOk(disk: Disk) {
    forall o :: 0 <= o < |disk| ==> ImageOk(disk[o], o)
  }

  /** The child subtries named by a mask and an offset array. */
  ghost function KidsOf(mask: Mask, fnext: seq<Offset>, disk: Disk, bound: nat): (kids: Kids)
    requires bound <= |disk| && DiskOk(disk)
    requires |mask| == BRANCHES && |fnext| == Count(mask)
    requires forall i :: 0 <= i < |fnext| ==> fnext[i] < bound
    ensures |kids| == BRANCHES
    decreases bound, 0
  {
    seq(BRANCHES, b requires 0 <= b < BRANCHES =>
      if mask[b] then
        RankMono(mask, b, BRANCHES);
        Some(DiskTree(disk, fnext[Rank(mask, b)]))
      else None)
  }

  /** The subtrie stored at an offset. */
  ghost function DiskTree(disk: Disk, off: Offset): (t: Tree)
    requires DiskOk(disk) && off < |disk|
    decreases off, 1
  {
    var im := disk[off];
    Tree(im.path, im.value, im.version, KidsOf(im.mask, im.fnext, disk, off))
  }

  lemma {:induction false} KidsOfMono(mask: Mask, fnext: seq<Offset>, d: Disk, b: nat, d': Disk, b': nat)
    requires b <= |d| && DiskOk(d) && b' <= |d'| && DiskOk(d') && d <= d'
    requires |mask| == BRANCHES && |fnext| == Count(mask)
    requires forall i :: 0 <= i < |fnext| ==> fnext[i] < b
    requires forall i :: 0 <= i < |fnext| ==> fnext[i] < b'
    ensures KidsOf(mask, fnext, d, b) == KidsOf(mask, fnext, d', b')
    decreases b, 0
  {
    forall i | 0 <= i < |fnext| ensures DiskTree(d, fnext[i]) == DiskTree(d', fnext[i]) {
      DiskTreeMono(d, d', fnext[i]);
    }
    forall i | 0 <= i < BRANCHES && mask[i] ensures 0 <= Rank(mask, i) < |fnext| {
      RankMono(mask, i, BRANCHES);
    }
  }

  /** Appending to the disk changes no stored subtrie. */
  lemma {:induction false} DiskTreeMono(d: Disk, d': Disk, off: Offset)
    requires DiskOk(d) && DiskOk(d') && d <= d' && off < |d|
    ensures DiskTree(d, off) == DiskTree(d', off)
    decreases off, 1
  {
    KidsOfMono(d[off].mask, d[off].fnext, d, off, d', off);
  }

  /** Every recorded minimum is the true minimum of the subtrie at the recorded offset. */
  ghost predicate ExactArrays(fnext: seq<Offset>, minv: seq<int>, disk: Disk)
    requires DiskOk(disk)
  {
    |fnext| == |minv| && forall i :: 0 <= i < |fnext| ==> ExactAt(fnext, minv, i, disk)
  }

  ghost predicate ExactAt(fnext: seq<Offset>, minv: seq<int>, i: nat, disk: Disk)
    requires DiskOk(disk) && i < |fnext| == |minv|
  {
    fnext[i] < |disk| && minv[i] == MinVersion(DiskTree(disk, fnext[i]))
  }

  ghost predicate ExactDisk(disk: Disk) {
    DiskOk(disk) && forall o :: 0 <= o < |disk| ==> ExactArrays(disk[o].fnext, disk[o].minv, disk)
  }

  class Node {
    var mask: Mask
    var path: Key
    var value: Option<Bytes>
    var version: int
    var fnext: seq<Offset>
    var minv: seq<int>
    var next: seq<Node?>

    constructor (mask: Mask, path: Key, value: Option<Bytes>, version: int,
                 fnext: seq<Offset>, minv: seq<int>, next: seq<Node?>)
      ensures this.mask == mask && this.path == path && this.value == value && this.version == version
      ensures this.fnext == fnext && this.minv == minv && this.next == next
    {
      this.mask, this.path, this.value, this.version := mask, path, value, version;
      this.fnext, this.minv, this.next := fnext, minv, next;
    }

    ghost predicate Shape(bound: nat)
      reads this`mask, this`fnext, this`minv
    {
      ArraysOk(mask, fnext, minv, bound)
    }

    /** The subtrie this node stands for. In-memory child pointers play no part in it. */
    ghost function Denote(disk: Disk): (t: Tree)
      requires DiskOk(disk) && Shape(|disk|)
      reads this`mask, this`path, this`value, this`version, this`fnext, this`minv
    {
      Tree(path, value, version, KidsOf(mask, fnext, disk, |disk|))
    }

    function ToImage(): Image
      reads this`mask, this`path, this`value, this`version, this`fnext, this`minv
    {
      Image(mask, path, value, version, fnext, minv)
    }
  }

  /** Names the resident parent of a node and the index it hangs at. */
  type Parents = map<Node, (Node, nat)>

  /** A resident child and its stored image denote the same subtrie, and nobody else holds the child. */
  ghost predicate ChildOk(n: Node, i: nat, nodes: set<Node>, up: Parents, disk: Disk)
    requires DiskOk(disk) && n.Shape(|disk|) && i < |n.next| && i < |n.fnext|
    reads n`next, n`mask, n`fnext, n`minv
    reads nodes`mask, nodes`path, nodes`value, nodes`version, nodes`fnext, nodes`minv
  {
    var c := n.next[i];
    c != null ==>
      && c in nodes && c in up && up[c] == (n, i)
      && c.Shape(|disk|) && c.Denote(disk) == DiskTree(disk, n.fnext[i])
  }

  ghost predicate Linked(n: Node, nodes: set<Node>, up: Parents, disk: Disk)
    requires DiskOk(disk)
    reads n`next, n`mask, n`fnext, n`minv
    reads nodes`mask, nodes`path, nodes`value, nodes`version, nodes`fnext, nodes`minv
  {
    && n.Shape(|disk|)
    && |n.next| == |n.fnext|
    && forall i :: 0 <= i < |n.next| ==> ChildOk(n, i, nodes, up, disk)
  }

  /** `n` stays linked when other nodes come in or get new parents. */
  lemma LinkedMore(n: Node, nodes: set<Node>, up: Parents, more: set<Node>, up': Parents, disk: Disk)
    requires DiskOk(disk) && nodes <= more && Linked(n, nodes, up, disk)
    requires forall c | c in up && up[c].0 == n :: c in up' && up'[c] == up[c]
    ensures Linked(n, more, up', disk)
  {
    forall i | 0 <= i < |n.next| ensures ChildOk(n, i, more, up', disk) {
      assert ChildOk(n, i, nodes, up, disk);
    }
  }

  /** One step down: the path of a node and the branch taken below it. */
  datatype Hop = Hop(path: Key, branch: Nibble)

  /** A way through resident nodes: `hops[k]` leads from `trail[k]` to `trail[k + 1]`. */
  datatype Route = Route(trail: seq<Node>, hops: seq<Hop>)

  /** A route somebody relies on. */
  datatype Held = Held(route: Route, root: Node, last: Node)

  ghost predicate Standing(h: Held, nodes: set<Node>, up: Parents)
    reads h.route.trail
  {
    Resident(h.route, h.root, h.last, nodes, up)
  }

  /** The nibbles consumed before the last node of a route. */
  function Before(hops: seq<Hop>): Key {
    if hops == [] then []
    else Before(hops[..|hops| - 1]) + hops[|hops| - 1].path + [hops[|hops| - 1].branch]
  }

  ghost predicate LinkAt(r: Route, k: nat, nodes: set<Node>, up: Parents)
    requires k < |r.hops| && |r.trail| == |r.hops| + 1
    reads r.trail
  {
    var n: Node := r.trail[k];
    var h: Hop := r.hops[k];
    var c: Node := r.trail[k + 1];
    && n in nodes && |n.mask| == BRANCHES && n.path == h.path && n.mask[h.branch]
    && Rank(n.mask, h.branch) < |n.next| && n.next[Rank(n.mask, h.branch)] == c
    && c in up && up[c] == (n, Rank(n.mask, h.branch))
  }

  ghost predicate Resident(r: Route, root: Node, node: Node, nodes: set<Node>, up: Parents)
    reads r.trail
  {
    && |r.trail| == |r.hops| + 1 && r.trail[0] == root && r.trail[|r.hops|] == node
    && forall k | 0 <= k < |r.hops| :: LinkAt(r, k, nodes, up)
  }

  lemma ResidentPush(r: Route, root: Node, node: Node, nodes: set<Node>, up: Parents, b: Nibble)
    requires Resident(r, root, node, nodes, up) && node in nodes && |node.mask| == BRANCHES && node.mask[b]
    requires Rank(node.mask, b) < |node.next| && node.next[Rank(node.mask, b)] != null
    requires var c := node.next[Rank(node.mask, b)]; c in up && up[c] == (node, Rank(node.mask, b))
    ensures var c := node.next[Rank(node.mask, b)];
            Resident(Route(r.trail + [c], r.hops + [Hop(node.path, b)]), root, c, nodes, up)
    ensures Before(r.hops + [Hop(node.path, b)]) == Before(r.hops) + node.path + [b]
  {
    hide Rank;
    var c := node.next[Rank(node.mask, b)];
    var r' := Route(r.trail + [c], r.hops + [Hop(node.path, b)]);
    assert r'.hops[..|r.hops|] == r.hops;
    forall k | 0 <= k < |r'.hops| ensures LinkAt(r', k, nodes, up) {
      if k < |r.hops| {
        assert LinkAt(r, k, nodes, up);
      }
    }
  }

  /** Going up from a node leads back along the one route there is. */
  lemma {:induction false} SameEnd(r1: Route, root1: Node, r2: Route, root2: Node, n: Node, nodes: set<Node>, up: Parents)
    requires Resident(r1, root1, n, nodes, up) && Resident(r2, root2, n, nodes, up)
    requires root1 !in up && root2 !in up
    ensures r1 == r2
    decreases |r1.hops|
  {
    hide Rank;
    var k1, k2 := |r1.hops|, |r2.hops|;
    if k1 == 0 {
      assert k2 > 0 ==> LinkAt(r2, k2 - 1, nodes, up);
    } else {
      assert LinkAt(r1, k1 - 1, nodes, up);
      assert k2 > 0 && LinkAt(r2, k2 - 1, nodes, up);
      var p := r1.trail[k1 - 1];
      RankIsInjective(p.mask, r1.hops[k1 - 1].branch, r2.hops[k2 - 1].branch);
      ResidentPop(r1, root1, n, nodes, up);
      ResidentPop(r2, root2, n, nodes, up);
      SameEnd(Front(r1), root1, Front(r2), root2, p, nodes, up);
      assert r1.trail == r1.trail[..k1] + [n] && r1.hops == r1.hops[..k1 - 1] + [r1.hops[k1 - 1]];
      assert r2.trail == r2.trail[..k2] + [n] && r2.hops == r2.hops[..k2 - 1] + [r2.hops[k2 - 1]];
    }
  }

  lemma RankIsInjective(mask: Mask, a: nat, b: nat)
    requires a < |mask| && b < |mask| && mask[a] && mask[b] && Rank(mask, a) == Rank(mask, b)
    ensures a == b
  {
    if a < b { RankMono(mask, a, b); } else { RankMono(mask, b, a); }
  }

  function Front(r: Route): Route
    requires |r.hops| > 0 && |r.trail| == |r.hops| + 1
  {
    Route(r.trail[..|r.hops|], r.hops[..|r.hops| - 1])
  }

  lemma ResidentPop(r: Route, root: Node, n: Node, nodes: set<Node>, up: Parents)
    requires Resident(r, root, n, nodes, up) && |r.hops| > 0
    ensures Resident(Front(r), root, r.trail[|r.hops| - 1], nodes, up)
  {
    hide Rank;
    forall k | 0 <= k < |r.hops| - 1 ensures LinkAt(Front(r), k, nodes, up) {
      assert LinkAt(r, k, nodes, up);
    }
  }

  /** Two routes from one root over the same nibbles end at the same node. */
  lemma {:induction false} SameKey(r1: Route, n1: Node, r2: Route, n2: Node, root: Node, nodes: set<Node>, up: Parents)
    requires Resident(r1, root, n1, nodes, up) && Resident(r2, root, n2, nodes, up)
    requires Before(r1.hops) + n1.path == Before(r2.hops) + n2.path
    ensures n1 == n2
    decreases |r1.hops|
  {
    hide Rank;
    var k1, k2 := |r1.hops|, |r2.hops|;
    if k1 > 0 {
      assert LinkAt(r1, 0, nodes, up);
      BeforeCons(r1.hops);
    }
    if k2 > 0 {
      assert LinkAt(r2, 0, nodes, up);
      BeforeCons(r2.hops);
    }
    if k1 > 0 && k2 > 0 {
      var h1, h2 := r1.hops[0], r2.hops[0];
      var t1, t2 := Before(r1.hops[1..]) + n1.path, Before(r2.hops[1..]) + n2.path;
      assert Before(r1.hops) + n1.path == h1.path + [h1.branch] + t1;
      assert Before(r2.hops) + n2.path == h2.path + [h2.branch] + t2;
      assert (h1.path + [h1.branch] + t1)[|h1.path|] == h1.branch && (h1.path + [h1.branch] + t1)[|h1.path| + 1..] == t1;
      assert (h2.path + [h2.branch] + t2)[|h2.path|] == h2.branch && (h2.path + [h2.branch] + t2)[|h2.path| + 1..] == t2;
      ResidentTail(r1, root, n1, nodes, up);
      ResidentTail(r2, root, n2, nodes, up);
      SameKey(Route(r1.trail[1..], r1.hops[1..]), n1, Route(r2.trail[1..], r2.hops[1..]), n2, r1.trail[1], nodes, up);
    }
  }

  lemma ResidentTail(r: Route, root: Node, n: Node, nodes: set<Node>, up: Parents)
    requires Resident(r, root, n, nodes, up) && |r.hops| > 0
    ensures Resident(Route(r.trail[1..], r.hops[1..]), r.trail[1], n, nodes, up)
  {
    hide Rank;
    forall k | 0 <= k < |r.hops| - 1 ensures LinkAt(Route(r.trail[1..], r.hops[1..]), k, nodes, up) {
      assert LinkAt(r, k + 1, nodes, up);
    }
  }

  lemma {:induction false} BeforeCons(hops: seq<Hop>)
    requires hops != []
    ensures Before(hops) == hops[0].path + [hops[0].branch] + Before(hops[1..])
  {
    if |hops| > 1 {
      var n := |hops| - 1;
      BeforeCons(hops[..n]);
      assert hops[..n][1..] == hops[1..][..n - 1];
    }
  }

  /** The way down that a node offers in memory. */
  datatype Links = Links(mask: Mask, path: Key, next: seq<Node?>)

  type Memory = map<Node, Links>

  ghost function MemoryOf(nodes: set<Node>): (mem: Memory)
    reads nodes`mask, nodes`path, nodes`next
    ensures mem.Keys == nodes
  {
    map n | n in nodes :: Links(n.mask, n.path, n.next)
  }

  function ChildIn(mem: Memory, n: Node, b: Nibble): Node? {
    if n in mem && |mem[n].mask| == BRANCHES && mem[n].mask[b] && Rank(mem[n].mask, b) < |mem[n].next|
    then mem[n].next[Rank(mem[n].mask, b)]
    else null
  }

  /** The node that the nibbles `p` lead to without leaving memory. */
  ghost function ResidentAt(mem: Memory, n: Node, p: Key): Node?
    decreases |p|
  {
    if p == [] then n
    else if n in mem && |mem[n].path| < |p| && mem[n].path <= p then
      var c := ChildIn(mem, n, p[|mem[n].path|]);
      if c == null then null else ResidentAt(mem, c, p[|mem[n].path| + 1..])
    else null
  }

  lemma {:induction false} ResidentOn(mem: Memory, n: Node, p: Key, q: Key)
    requires ResidentAt(mem, n, p) != null
    ensures ResidentAt(mem, n, p + q) == ResidentAt(mem, ResidentAt(mem, n, p), q)
    decreases |p|
  {
    hide Rank;
    if p == [] {
      assert [] + q == q;
    } else {
      var k := |mem[n].path| + 1;
      assert (p + q)[..k - 1] == p[..k - 1] && (p + q)[k..] == p[k..] + q;
      ResidentOn(mem, ChildIn(mem, n, p[k - 1]), p[k..], q);
    }
  }

  lemma ResidentKid(mem: Memory, root: Node, p: Key, b: Nibble)
    requires ResidentAt(mem, root, p) != null && ResidentAt(mem, root, p) in mem
    ensures var n := ResidentAt(mem, root, p); ResidentAt(mem, root, p + (mem[n].path + [b])) == ChildIn(mem, n, b)
  {
    hide Rank;
    var n := ResidentAt(mem, root, p);
    ResidentOn(mem, root, p, mem[n].path + [b]);
  }

  /** Nodes in memory have their children in memory. */
  ghost predicate Closed(mem: Memory) {
    forall n, i | n in mem && 0 <= i < |mem[n].next| && mem[n].next[i] != null :: mem[n].next[i] in mem
  }

  /** A node without children in memory has come in as child `i` of `n`. */
  ghost predicate Attaches(mem: Memory, mem': Memory, n: Node, i: nat, c: Node) {
    && n in mem && c !in mem && i < |mem[n].next| && mem[n].next[i] == null
    && c in mem' && (forall j | 0 <= j < |mem'[c].next| :: mem'[c].next[j] == null)
    && mem' == mem[n := mem[n].(next := mem[n].next[i := c])][c := mem'[c]]
  }

  lemma AttachedChild(mem: Memory, mem': Memory, n: Node, b: Nibble, c: Node, m: Node, e: Nibble)
    requires n in mem && |mem[n].mask| == BRANCHES && mem[n].mask[b] && Attaches(mem, mem', n, Rank(mem[n].mask, b), c)
    requires m in mem
    ensures ChildIn(mem', m, e) == (if m == n && e == b then c else ChildIn(mem, m, e)) && ChildIn(mem, n, b) == null
    ensures m in mem' && mem'[m].path == mem[m].path && m != c
  {
    hide Rank;
    if m == n && mem[m].mask[e] && Rank(mem[m].mask, e) == Rank(mem[n].mask, b) {
      RankIsInjective(mem[n].mask, e, b);
    }
  }

  /** What is new are the nibbles that lead to the new child. */
  lemma {:induction false} AttachedAt(mem: Memory, mem': Memory, n: Node, b: Nibble, c: Node, m: Node, p: Key)
    requires Closed(mem) && n in mem && |mem[n].mask| == BRANCHES && mem[n].mask[b] && Attaches(mem, mem', n, Rank(mem[n].mask, b), c)
    requires m in mem
    ensures ResidentAt(mem, m, p) != null ==> ResidentAt(mem', m, p) == ResidentAt(mem, m, p)
    ensures ResidentAt(mem, m, p) == null && ResidentAt(mem', m, p) != null ==>
              var k := |p| - |mem[n].path| - 1; k >= 0 && ResidentAt(mem, m, p[..k]) == n && p[k..] == mem[n].path + [b]
    decreases |p|
  {
    hide Rank;
    if p != [] && |mem[m].path| < |p| && mem[m].path <= p {
      var l := |mem[m].path|;
      AttachedChild(mem, mem', n, b, c, m, p[l]);
      if m == n && p[l] == b {
        if |p| > l + 1 {
          NothingBelow(mem', c, p[l + 1..]);
        }
        assert p[..0] == [] && p[0..] == p;
        assert p == p[..l] + [p[l]] + p[l + 1..];
      } else {
        hide Attaches;
        var d := ChildIn(mem, m, p[l]);
        if d != null {
          ItsKept(mem, m, p[l]);
          AttachedAt(mem, mem', n, b, c, d, p[l + 1..]);
          Deeper(mem, m, p, |p| - |mem[n].path| - 1);
        }
      }
    }
  }

  lemma ItsKept(mem: Memory, n: Node, b: Nibble)
    requires Closed(mem) && ChildIn(mem, n, b) != null
    ensures ChildIn(mem, n, b) in mem
  {
    hide Rank;
  }

  lemma Deeper(mem: Memory, m: Node, p: Key, k: int)
    requires m in mem && |mem[m].path| < |p| && mem[m].path <= p && ChildIn(mem, m, p[|mem[m].path|]) != null
    ensures var l := |mem[m].path| + 1; var d := ChildIn(mem, m, p[l - 1]);
      l <= k <= |p| ==> ResidentAt(mem, m, p[..k]) == ResidentAt(mem, d, p[l..][..k - l]) && p[k..] == p[l..][k - l..]
  {
    hide ChildIn;
    var l := |mem[m].path| + 1;
    if l <= k <= |p| {
      assert p[..k][..l - 1] == p[..l - 1] && p[..k][l - 1] == p[l - 1] && p[..k][l..] == p[l..][..k - l];
      assert p[k..] == p[l..][k - l..];
    }
  }

  lemma NothingBelow(mem: Memory, c: Node, p: Key)
    requires c in mem && (forall j | 0 <= j < |mem[c].next| :: mem[c].next[j] == null) && p != []
    ensures ResidentAt(mem, c, p) == null
  {
    hide Rank;
  }

  /** The way to `key` comes at position `j` to a child that is not in memory. */
  ghost predicate Absent(mem: Memory, root: Node, t: Tree, key: Key, j: nat) {
    Branches(t, key, j) && ResidentAt(mem, root, key[..j + 1]) == null
  }

  /** All that has come in below `root` are the nodes on the way to `key`, up to position `at`. */
  ghost predicate Loaded(before: Memory, mem: Memory, root: Node, t: Tree, key: Key, at: nat) {
    forall p :: LoadedAt(before, mem, root, t, key, at, p)
  }

  ghost predicate LoadedAt(before: Memory, mem: Memory, root: Node, t: Tree, key: Key, at: nat, p: Key) {
    ResidentAt(mem, root, p) != null <==> ResidentAt(before, root, p) != null || (|p| <= at && p <= key && BranchedTo(t, p).Some?)
  }

  /** The way to `key` has got to node `n`, entered at position `at`. */
  ghost predicate Arrived(before: Memory, mem: Memory, root: Node, t: Tree, key: Key, at: nat, n: Node, c: Tree) {
    && at <= |key| && n in mem && mem[n].path == c.path
    && ResidentAt(mem, root, key[..at]) == n && BranchedTo(t, key[..at]) == Some(c)
    && Loaded(before, mem, root, t, key, at)
  }

  lemma AtTheStart(mem: Memory, root: Node, t: Tree, key: Key)
    requires root in mem && mem[root].path == t.path
    ensures Arrived(mem, mem, root, t, key, 0, root, t)
  {
    assert forall p: Key | |p| == 0 :: p == [];
  }

  /** Whether the child at the end of the path of `n` was in memory from the start. */
  lemma AbsentHere(before: Memory, mem: Memory, root: Node, t: Tree, key: Key, at: nat, n: Node, c: Tree)
    requires Arrived(before, mem, root, t, key, at, n, c) && c.path <= key[at..] && at + |c.path| < |key|
    requires Kid(c, key[at + |c.path|]).Some?
    ensures var j := at + |c.path|;
      && Branches(t, key, j) && BranchedTo(t, key[..j + 1]) == Kid(c, key[j])
      && ResidentAt(mem, root, key[..j + 1]) == ChildIn(mem, n, key[j])
      && (Absent(before, root, t, key, j) <==> ChildIn(mem, n, key[j]) == null)
  {
    hide Rank, BranchedTo;
    var j := at + |c.path|;
    assert key[at..][..|c.path|] == key[at..j];
    BranchesBelow(t, key, at, j);
    ResidentKid(mem, root, key[..at], key[j]);
    assert key[..at] + (c.path + [key[j]]) == key[..j + 1];
    assert LoadedAt(before, mem, root, t, key, at, key[..j + 1]);
  }

  /** Down to a child that is in memory. */
  lemma DownInMemory(before: Memory, mem: Memory, root: Node, t: Tree, key: Key, at: nat, n: Node, c: Tree, d: Tree)
    requires Arrived(before, mem, root, t, key, at, n, c) && c.path <= key[at..] && at + |c.path| < |key|
    requires Kid(c, key[at + |c.path|]) == Some(d)
    requires var k := ChildIn(mem, n, key[at + |c.path|]); k != null && k in mem && mem[k].path == d.path
    ensures Arrived(before, mem, root, t, key, at + |c.path| + 1, ChildIn(mem, n, key[at + |c.path|]), d)
  {
    hide Rank, BranchedTo;
    var j, end := at + |c.path|, at + |c.path| + 1;
    AbsentHere(before, mem, root, t, key, at, n, c);
    forall p ensures LoadedAt(before, mem, root, t, key, end, p) {
      assert LoadedAt(before, mem, root, t, key, at, p);
      if p <= key && at < |p| && BranchedTo(t, p).Some? {
        UpToBranch(t, key, at, p);
      }
      assert |p| == end && p <= key ==> p == key[..j + 1];
    }
  }

  /** The same nibbles lead to nodes as before. */
  ghost predicate SameAt(before: Memory, mem: Memory, m: Node, p: Key) {
    ResidentAt(mem, m, p) != null <==> ResidentAt(before, m, p) != null
  }

  /** Below the roots other than `root` the same nibbles lead to nodes as before. */
  ghost predicate SameFrom(before: Memory, mem: Memory, up: Parents, root: Node) {
    forall m, p | m in before && m != root && m !in up :: SameAt(before, mem, m, p)
  }

  /** The nibbles `added` lead to a node now, and nothing else has changed. */
  ghost predicate NewAt(mem: Memory, mem': Memory, root: Node, added: Key, p: Key) {
    ResidentAt(mem', root, p) != null <==> ResidentAt(mem, root, p) != null || p == added
  }

  lemma LoadedMore(before: Memory, mem: Memory, mem': Memory, root: Node, t: Tree, key: Key, at: nat, end: nat)
    requires at < end <= |key| && BranchedTo(t, key[..at]).Some? && BranchedTo(t, key[..end]).Some?
    requires end == at + |BranchedTo(t, key[..at]).value.path| + 1
    requires Loaded(before, mem, root, t, key, at) && forall p :: NewAt(mem, mem', root, key[..end], p)
    ensures Loaded(before, mem', root, t, key, end)
  {
    hide ResidentAt, BranchedTo;
    forall p ensures LoadedAt(before, mem', root, t, key, end, p) {
      assert LoadedAt(before, mem, root, t, key, at, p) && NewAt(mem, mem', root, key[..end], p);
      if p <= key && at < |p| && BranchedTo(t, p).Some? {
        UpToBranch(t, key, at, p);
      }
      assert |p| == end && p <= key ==> p == key[..end];
    }
  }

  lemma OneMore(mem: Memory, mem': Memory, root: Node, key: Key, at: nat, end: nat, n: Node, c: Tree, k: Node)
    requires Closed(mem) && root in mem && n in mem && mem[n].path == c.path && end == at + |c.path| + 1 <= |key| && c.path <= key[at..]
    requires |mem[n].mask| == BRANCHES && mem[n].mask[key[at + |c.path|]] && ResidentAt(mem, root, key[..at]) == n
    requires Attaches(mem, mem', n, Rank(mem[n].mask, key[at + |c.path|]), k)
    requires forall p | ResidentAt(mem, root, p) == n :: p == key[..at]
    ensures k in mem' && ResidentAt(mem', root, key[..end]) == k
    ensures forall p :: NewAt(mem, mem', root, key[..end], p)
  {
    hide Rank, ResidentAt, Attaches, ChildIn, Closed;
    var b := key[at + |c.path|];
    AttachedAt(mem, mem', n, b, k, root, key[..at]);
    AttachedChild(mem, mem', n, b, k, n, b);
    ItIsIn(mem, mem', n, Rank(mem[n].mask, b), k);
    ResidentKid(mem', root, key[..at], b);
    assert key[..at] + (c.path + [b]) == key[..end];
    forall p ensures NewAt(mem, mem', root, key[..end], p) {
      AttachedAt(mem, mem', n, b, k, root, p);
      NewPrefix(mem, mem', root, key, at, n, c, p, b);
    }
  }

  lemma ItIsIn(mem: Memory, mem': Memory, n: Node, i: nat, c: Node)
    requires Attaches(mem, mem', n, i, c)
    ensures c in mem'
  {
  }

  /** The same when the child has just come in. */
  lemma DownLoaded(before: Memory, mem: Memory, mem': Memory, root: Node, t: Tree, key: Key, at: nat, n: Node, c: Tree, k: Node, d: Tree)
    requires Closed(mem) && root in mem && Arrived(before, mem, root, t, key, at, n, c)
    requires c.path <= key[at..] && at + |c.path| < |key| && Kid(c, key[at + |c.path|]) == Some(d)
    requires |mem[n].mask| == BRANCHES && mem[n].mask[key[at + |c.path|]]
    requires Attaches(mem, mem', n, Rank(mem[n].mask, key[at + |c.path|]), k) && mem'[k].path == d.path
    requires forall p | ResidentAt(mem, root, p) == n :: p == key[..at]
    ensures Arrived(before, mem', root, t, key, at + |c.path| + 1, k, d)
  {
    hide Rank, BranchedTo, ResidentAt, Attaches, Absent, Loaded, ChildIn, Closed;
    AbsentHere(before, mem, root, t, key, at, n, c);
    OneMore(mem, mem', root, key, at, at + |c.path| + 1, n, c, k);
    LoadedMore(before, mem, mem', root, t, key, at, at + |c.path| + 1);
  }

  lemma NewPrefix(mem: Memory, mem': Memory, root: Node, key: Key, at: nat, n: Node, c: Tree, p: Key, b: Nibble)
    requires n in mem && mem[n].path == c.path && at + |c.path| < |key| && c.path <= key[at..] && b == key[at + |c.path|]
    requires forall q | ResidentAt(mem, root, q) == n :: q == key[..at]
    requires ResidentAt(mem, root, p) == null && ResidentAt(mem', root, p) != null ==>
               var k := |p| - |mem[n].path| - 1; k >= 0 && ResidentAt(mem, root, p[..k]) == n && p[k..] == mem[n].path + [b]
    ensures ResidentAt(mem, root, p) == null && ResidentAt(mem', root, p) != null ==> p == key[..at + |c.path| + 1]
  {
    hide ResidentAt;
    if ResidentAt(mem, root, p) == null && ResidentAt(mem', root, p) != null {
      var l := |p| - |mem[n].path| - 1;
      assert p == p[..l] + p[l..] == key[..at] + (c.path + [b]);
    }
  }

  /** Below a subtrie that is entered at `at`, the next one is entered behind its path. */
  lemma UpToBranch(t: Tree, key: Key, at: nat, p: Key)
    requires at <= |key| && BranchedTo(t, key[..at]).Some? && p <= key && at < |p| && BranchedTo(t, p).Some?
    ensures at + |BranchedTo(t, key[..at]).value.path| + 1 <= |p|
  {
    hide BranchedTo;
    assert p == key[..|p| - 1 + 1];
    BranchesBelow(t, key, at, |p| - 1);
  }

  /** The way to `key` takes no branch from position `from` on. */
  ghost predicate NoMore(t: Tree, key: Key, from: nat) {
    forall j | from <= j :: !Branches(t, key, j)
  }

  lemma LoadedAll(before: Memory, mem: Memory, root: Node, t: Tree, key: Key, at: nat)
    requires Loaded(before, mem, root, t, key, at) && NoMore(t, key, at) && at <= |key|
    ensures Loaded(before, mem, root, t, key, |key|)
  {
    hide BranchedTo, ResidentAt;
    forall p ensures LoadedAt(before, mem, root, t, key, |key|, p) {
      assert LoadedAt(before, mem, root, t, key, at, p);
      if p <= key && |p| > at {
        assert p == key[..|p| - 1 + 1] && !Branches(t, key, |p| - 1);
      }
    }
  }

  /** Among the first `n` questions, `start` positions into the way, is one before a read that is answered no. */
  ghost predicate Refused(mem: Memory, root: Node, t: Tree, key: Key, start: nat, n: nat, valid: nat -> bool) {
    exists k: nat | k < n :: !valid(k) && Absent(mem, root, t, key, start + k)
  }

  lemma RefusedOn(mem: Memory, root: Node, t: Tree, key: Key, start: nat, n: nat, valid: nat -> bool)
    ensures Refused(mem, root, t, key, start, n + 1, valid) <==>
              Refused(mem, root, t, key, start, n, valid) || (!valid(n) && Absent(mem, root, t, key, start + n))
    ensures !Refused(mem, root, t, key, start, 0, valid)
  {
    hide Absent;
    if Refused(mem, root, t, key, start, n, valid) {
      var k: nat :| k < n && !valid(k) && Absent(mem, root, t, key, start + k);
      assert k < n + 1;
    }
  }

  lemma RefusedLater(mem: Memory, root: Node, t: Tree, key: Key, start: nat, n: nat, m: nat, valid: nat -> bool)
    requires n <= m && Refused(mem, root, t, key, start, n, valid)
    ensures Refused(mem, root, t, key, start, m, valid)
  {
    hide Absent;
    var k: nat :| k < n && !valid(k) && Absent(mem, root, t, key, start + k);
  }

  lemma NotRefused(mem: Memory, root: Node, t: Tree, key: Key, start: nat, n: nat, m: nat, valid: nat -> bool, at: nat)
    requires !Refused(mem, root, t, key, start, n, valid) && NoMore(t, key, at) && at <= start + n
    ensures !Refused(mem, root, t, key, start, m, valid)
  {
    hide BranchedTo, ResidentAt;
    forall k: nat | k < m && !valid(k) ensures !Absent(mem, root, t, key, start + k) {
      if n <= k {
        assert !Branches(t, key, start + k);
      }
    }
  }

  /** Where the way ends: inside a path, at another nibble than the next of the path, or at a branch that is not there. */
  lemma WayEnds(t: Tree, key: Key, at: nat, i: nat)
    requires at + i <= |key| && BranchedTo(t, key[..at]).Some?
    requires i <= |BranchedTo(t, key[..at]).value.path|
    requires var c := BranchedTo(t, key[..at]).value;
             at + i < |key| ==> if i < |c.path| then key[at + i] != c.path[i] else Kid(c, key[at + i]).None?
    ensures NoMore(t, key, at)
  {
    hide BranchedTo;
    var c := BranchedTo(t, key[..at]).value;
    forall j | at <= j ensures !Branches(t, key, j) {
      if j < |key| {
        BranchesBelow(t, key, at, j);
        assert at + |c.path| <= |key| && i < |c.path| ==> key[at..at + |c.path|][i] == key[at + i];
      }
    }
  }

  /** The loop variables of the search. */
  datatype Seek = Seek(n: Node, i: nat, k: nat)

  class UpdateAux {
    var disk: Disk
    ghost var nodes: set<Node>
    ghost var up: Parents

    /** Nothing in memory yet. */
    constructor (disk: Disk)
      requires DiskOk(disk)
      ensures Valid() && this.disk == disk && nodes == {} && up == map[]
    {
      this.disk, nodes, up := disk, {}, map[];
    }

    ghost predicate Valid()
      reads this, nodes
    {
      DiskOk(disk) && forall n | n in nodes :: Linked(n, nodes, up, disk)
    }

    ghost function Mem(): (mem: Memory)
      reads this`nodes, nodes`mask, nodes`path, nodes`next
      ensures mem.Keys == nodes
    {
      MemoryOf(nodes)
    }

    lemma MemIsClosed()
      requires Valid()
      ensures Closed(Mem())
      ensures forall n | n in nodes :: |n.mask| == BRANCHES && |n.next| == Count(n.mask) && Mem()[n] == Links(n.mask, n.path, n.next)
    {
      hide Rank, KidsOf, Node.Denote, DiskTree;
      forall n | n in nodes ensures Linked(n, nodes, up, disk) {
      }
      forall n, i | n in nodes && 0 <= i < |n.next| && n.next[i] != null ensures n.next[i] in nodes {
        assert ChildOk(n, i, nodes, up, disk);
      }
    }

    /** The route that the nibbles stand for, behind one that leads to `m`. */
    lemma {:induction false} RouteTo(r0: Route, root: Node, m: Node, p: Key) returns (r: Route)
      requires Valid() && m in nodes && Resident(r0, root, m, nodes, up) && ResidentAt(Mem(), m, p) != null
      ensures Resident(r, root, ResidentAt(Mem(), m, p), nodes, up) && Before(r.hops) == Before(r0.hops) + p
      decreases |p|
    {
      hide Rank, KidsOf, Node.Denote, DiskTree, Resident, Before, Valid;
      r := r0;
      if p != [] {
        var l := |m.path| + 1;
        var c := ItsChild(m, p[l - 1]);
        ResidentPush(r0, root, m, nodes, up, p[l - 1]);
        r := RouteTo(Route(r0.trail + [c], r0.hops + [Hop(m.path, p[l - 1])]), root, c, p[l..]);
        assert p == m.path + [p[l - 1]] + p[l..];
      } else {
        assert Before(r0.hops) + [] == Before(r0.hops);
      }
    }

    lemma ItsChild(n: Node, b: Nibble) returns (c: Node)
      requires Valid() && n in nodes && ChildIn(Mem(), n, b) != null
      ensures |n.mask| == BRANCHES && n.mask[b] && Rank(n.mask, b) < |n.next| && c == n.next[Rank(n.mask, b)] == ChildIn(Mem(), n, b)
      ensures c in nodes && c in up && up[c] == (n, Rank(n.mask, b))
    {
      hide Rank, KidsOf, Node.Denote, DiskTree;
      c := ChildIn(Mem(), n, b);
      assert Linked(n, nodes, up, disk) && ChildOk(n, Rank(n.mask, b), nodes, up, disk);
    }

    /** What the node at the end of a route means. */
    lemma {:induction false} RouteMeans(r: Route, root: Node, n: Node)
      requires Valid() && root in nodes && Resident(r, root, n, nodes, up)
      ensures n in nodes && DiskOk(disk) && root.Shape(|disk|) && n.Shape(|disk|)
      ensures BranchedTo(root.Denote(disk), Before(r.hops)) == Some(n.Denote(disk))
      decreases |r.hops|
    {
      hide Rank, KidsOf, DiskTree, Node.Denote, BranchedTo;
      var k := |r.hops|;
      if k == 0 {
        assert Linked(root, nodes, up, disk);
        assert BranchedTo(root.Denote(disk), []) == Some(root.Denote(disk)) by {
          BranchedToNothing(root.Denote(disk));
        }
      } else {
        var m, h := r.trail[k - 1], r.hops[k - 1];
        assert LinkAt(r, k - 1, nodes, up);
        ResidentPop(r, root, n, nodes, up);
        RouteMeans(Front(r), root, m);
        ItMeans(m, h.branch);
        BranchedOn(root.Denote(disk), Before(Front(r).hops), m.path + [h.branch]);
        assert Before(r.hops) == Before(Front(r).hops) + (m.path + [h.branch]);
      }
    }

    /** A node with a child in memory, and what the child means. */
    lemma ItMeans(m: Node, b: Nibble)
      requires Valid() && m in nodes && |m.mask| == BRANCHES && m.mask[b] && Rank(m.mask, b) < |m.next|
      requires m.next[Rank(m.mask, b)] != null
      ensures DiskOk(disk) && m.Shape(|disk|) && m.next[Rank(m.mask, b)] in nodes && m.next[Rank(m.mask, b)].Shape(|disk|)
      ensures m.Denote(disk).path == m.path && m.next[Rank(m.mask, b)].Denote(disk).path == m.next[Rank(m.mask, b)].path
      ensures Kid(m.Denote(disk), b) == Some(m.next[Rank(m.mask, b)].Denote(disk))
      ensures BranchedTo(m.Denote(disk), m.path + [b]) == Some(m.next[Rank(m.mask, b)].Denote(disk))
    {
      hide DiskTree;
      var i := Rank(m.mask, b);
      assert Linked(m, nodes, up, disk) && ChildOk(m, i, nodes, up, disk);
      var p := m.path + [b];
      assert p[..|m.path|] == m.path && p[|m.path|] == b && p[|m.path| + 1..] == [];
    }

    /** No node has two ways to it from one root. */
    lemma {:induction false} SameWay(r1: Route, r2: Route, root: Node, n: Node)
      requires Valid() && root in nodes && Resident(r1, root, n, nodes, up) && Resident(r2, root, n, nodes, up)
      ensures r1.hops == r2.hops
      decreases |r1.hops|
    {
      hide Rank, Valid, BranchedTo, Node.Denote;
      var k1, k2 := |r1.hops|, |r2.hops|;
      if k1 == 0 || k2 == 0 {
        RouteMeans(r1, root, n);
        RouteMeans(r2, root, n);
        if k1 > 0 { BranchedIsLess(root.Denote(disk), Before(r1.hops)); }
        if k2 > 0 { BranchedIsLess(root.Denote(disk), Before(r2.hops)); }
      } else {
        assert LinkAt(r1, k1 - 1, nodes, up) && LinkAt(r2, k2 - 1, nodes, up);
        var p := r1.trail[k1 - 1];
        RankIsInjective(p.mask, r1.hops[k1 - 1].branch, r2.hops[k2 - 1].branch);
        ResidentPop(r1, root, n, nodes, up);
        ResidentPop(r2, root, n, nodes, up);
        SameWay(Front(r1), Front(r2), root, p);
        assert r1.hops == r1.hops[..k1 - 1] + [r1.hops[k1 - 1]] && r2.hops == r2.hops[..k2 - 1] + [r2.hops[k2 - 1]];
      }
    }

    lemma OneWay(root: Node, p: Key, p': Key)
      requires Valid() && root in nodes
      requires ResidentAt(Mem(), root, p) != null && ResidentAt(Mem(), root, p) == ResidentAt(Mem(), root, p')
      ensures p == p'
    {
      hide Rank, Valid, ResidentAt, LinkAt;
      var r := RouteTo(Route([root], []), root, root, p);
      var r' := RouteTo(Route([root], []), root, root, p');
      SameWay(r, r', root, ResidentAt(Mem(), root, p));
      assert Before([]) + p == p && Before([]) + p' == p';
    }

    /** No node has two ways to it from parentless roots. */
    lemma OneRoot(root: Node, p: Key, root': Node, p': Key)
      requires Valid() && root in nodes && root !in up && root' in nodes && root' !in up
      requires ResidentAt(Mem(), root, p) != null && ResidentAt(Mem(), root, p) == ResidentAt(Mem(), root', p')
      ensures root == root'
    {
      hide Rank, Valid, ResidentAt, LinkAt;
      var r := RouteTo(Route([root], []), root, root, p);
      var r' := RouteTo(Route([root'], []), root', root', p');
      SameEnd(r, root, r', root', ResidentAt(Mem(), root, p), nodes, up);
    }

    /** All version summaries, in memory and on disk, are exact. */
    ghost predicate Exact()
      reads this, nodes`fnext, nodes`minv
    {
      ExactDisk(disk) && forall n | n in nodes :: ExactArrays(n.fnext, n.minv, disk)
    }

    /** A read succeeds only while the version is valid; the loaded node has no in-memory children. */
    method ReadNode(off: Offset, valid: bool) returns (n: Node?)
      requires DiskOk(disk) && off < |disk|
      ensures n == null <==> !valid
      ensures n != null ==> fresh(n) && n.Shape(|disk|) && n.Denote(disk) == DiskTree(disk, off)
      ensures n != null ==> |n.next| == |n.fnext| && forall i :: 0 <= i < |n.next| ==> n.next[i] == null
      ensures n != null ==> n.fnext == disk[off].fnext && n.minv == disk[off].minv
    {
      if !valid { return null; }
      var im := disk[off];
      n := new Node(im.mask, im.path, im.value, im.version, im.fnext, im.minv, seq(|im.fnext|, _ => null));
      KidsOfMono(im.mask, im.fnext, disk, off, disk, |disk|);
    }

    /** Nodes may have been loaded below missing child pointers; nothing else changed. */
    twostate predicate OnlyLoaded()
      reads this, nodes`fnext, nodes`minv
    {
      && (old(Exact()) ==> Exact())
      && disk == old(disk)
      && old(nodes) <= nodes && fresh(nodes - old(nodes))
      && (forall c | c in old(up) :: c in up && up[c] == old(up[c]))
      && (forall c | c in up && c !in old(up) :: c !in old(nodes))
    }

    /** Makes child `i` of `n` resident. */
    method LoadChild(n: Node, i: nat, valid: bool) returns (ok: bool)
      requires Valid() && n in nodes && i < |n.next| && n.next[i] == null
      modifies this`nodes, this`up, n`next
      ensures Valid() && OnlyLoaded()
      ensures ok <==> valid
      ensures if ok then n.next == old(n.next)[i := n.next[i]] && n.next[i] != null else n.next == old(n.next)
      ensures if ok then Attaches(old(Mem()), Mem(), n, i, n.next[i]) else Mem() == old(Mem())
    {
      hide Valid, Exact, Attaches, OnlyLoaded;
      ghost var mem := Mem();
      ok := ReadChild(n, i, valid);
      if ok {
        MemAttached(mem, n, i, n.next[i]);
      }
    }

    lemma MemAttached(mem: Memory, n: Node, i: nat, c: Node)
      requires n in mem && c !in mem && i < |mem[n].next| && mem[n].next[i] == null
      requires nodes == mem.Keys + {c} && (forall j | 0 <= j < |c.next| :: c.next[j] == null)
      requires forall m | m in mem :: Links(m.mask, m.path, m.next) == if m == n then mem[n].(next := mem[n].next[i := c]) else mem[m]
      ensures Attaches(mem, Mem(), n, i, c)
    {
    }

    method ReadChild(n: Node, i: nat, valid: bool) returns (ok: bool)
      requires Valid() && n in nodes && i < |n.next| && n.next[i] == null
      modifies this`nodes, this`up, n`next
      ensures Valid() && OnlyLoaded()
      ensures ok <==> valid
      ensures if ok then n.next[i] != null && n.next == old(n.next)[i := n.next[i]] else n.next == old(n.next) && nodes == old(nodes)
      ensures ok ==> nodes == old(nodes) + {n.next[i]} && fresh(n.next[i]) && forall j | 0 <= j < |n.next[i].next| :: n.next[i].next[j] == null
    {
      var c := ReadNode(n.fnext[i], valid);
      ok := c != null;
      if ok {
        assert Exact() ==> ExactArrays(c.fnext, c.minv, disk);
        SetMissingChild(n, i, c);
      }
    }

    method SetMissingChild(n: Node, i: nat, c: Node)
      requires Valid() && n in nodes && c !in nodes && i < |n.next| && n.next[i] == null && c !in up
      requires c.Shape(|disk|) && |c.next| == |c.fnext| && forall j :: 0 <= j < |c.next| ==> c.next[j] == null
      requires c.Denote(disk) == DiskTree(disk, n.fnext[i])
      modifies this`nodes, this`up, n`next
      ensures Valid() && nodes == old(nodes) + {c} && n.next == old(n.next)[i := c] && up == old(up)[c := (n, i)]
    {
      hide KidsOf, DiskTree, Node.Denote, Rank;
      ghost var nodes', up' := nodes + {c}, up[c := (n, i)];
      forall m | m in nodes ensures Linked(m, nodes', up', disk) {
        LinkedMore(m, nodes, up, nodes', up', disk);
      }
      n.next := n.next[i := c];
      nodes, up := nodes', up';
      forall j | 0 <= j < |n.next| ensures ChildOk(n, j, nodes, up, disk) {
        assert old(ChildOk(n, j, nodes', up', disk));
      }
    }

    /** Makes child `i` of `n` resident unless it is already; the routes in `keep` stay. */
    method EnsureChild(n: Node, i: nat, valid: bool, ghost keep: set<Held>) returns (c: Node?)
      requires Valid() && n in nodes && i < |n.next|
      requires forall h | h in keep :: Standing(h, nodes, up)
      modifies this`nodes, this`up, n`next
      ensures Valid() && OnlyLoaded()
      ensures |n.next| == |old(n.next)| && c == n.next[i]
      ensures c == null <==> old(n.next[i]) == null && !valid
      ensures c != null ==> c in nodes && c in up && up[c] == (n, i) && c.Shape(|disk|)
      ensures c != null ==> n.Shape(|disk|) && |n.fnext| == |n.next| && c.Denote(disk) == DiskTree(disk, n.fnext[i])
      ensures forall h | h in keep :: Standing(h, nodes, up)
      ensures if old(n.next[i]) == null && valid then Attaches(old(Mem()), Mem(), n, i, c) else Mem() == old(Mem())
    {
      hide KidsOf, DiskTree, Node.Denote, Rank, Valid, Attaches;
      ItsLinked(n, i);
      if n.next[i] == null {
        var ok := LoadChild(n, i, valid);
        forall h | h in keep ensures Standing(h, nodes, up) {
          assert old(Standing(h, nodes, up));
          forall k | 0 <= k < |h.route.hops| ensures LinkAt(h.route, k, nodes, up) {
            assert old(LinkAt(h.route, k, nodes, up));
          }
        }
      }
      c := n.next[i];
      ItsLinked(n, i);
    }

    /** A way down from `root` has entered `n`, and what has come in since `before` lies on it. */
    ghost predicate OnWay(before: Memory, root: Node, key: Key, at: nat, n: Node)
      requires DiskOk(disk) && root.Shape(|disk|) && n.Shape(|disk|)
      reads this, nodes`mask, nodes`path, nodes`next, root, n
    {
      Arrived(before, Mem(), root, root.Denote(disk), key, at, n, n.Denote(disk))
    }

    /** Below other roots nothing has come in. */
    ghost predicate SameElsewhere(before: Memory, root: Node)
      reads this`nodes, this`up, nodes`mask, nodes`path, nodes`next
    {
      SameFrom(before, Mem(), up, root)
    }

    lemma NothingHasCome(root: Node, key: Key)
      requires Valid() && root in nodes
      ensures DiskOk(disk) && root.Shape(|disk|) && OnWay(Mem(), root, key, 0, root) && SameElsewhere(Mem(), root)
    {
      assert Linked(root, nodes, up, disk);
      hide KidsOf, ResidentAt;
      AtTheStart(Mem(), root, root.Denote(disk), key);
    }

    /** Makes the next child on the way resident. */
    method Descend(n: Node, i: nat, valid: bool, ghost keep: set<Held>, ghost before: Memory, ghost root: Node, ghost key: Key, ghost at: nat)
      returns (c: Node?)
      requires Valid() && n in nodes && i < |n.next| && root in nodes && DiskOk(disk) && root.Shape(|disk|) && n.Shape(|disk|)
      requires forall h | h in keep :: Standing(h, nodes, up)
      requires OnWay(before, root, key, at, n) && before.Keys <= nodes
      requires n.path <= key[at..] && at + |n.path| < |key| && n.mask[key[at + |n.path|]] && i == Rank(n.mask, key[at + |n.path|])
      modifies this`nodes, this`up, n`next
      ensures Valid() && OnlyLoaded()
      ensures |n.next| == |old(n.next)| && c == n.next[i]
      ensures c == null <==> old(n.next[i]) == null && !valid
      ensures c != null ==> c in nodes && c in up && up[c] == (n, i) && c.Shape(|disk|)
      ensures c != null ==> n.Shape(|disk|) && |n.fnext| == |n.next| && c.Denote(disk) == DiskTree(disk, n.fnext[i])
      ensures forall h | h in keep :: Standing(h, nodes, up)
      ensures if c == null then OnWay(before, root, key, at, n) else OnWay(before, root, key, at + |n.path| + 1, c)
      ensures Absent(before, root, root.Denote(disk), key, at + |n.path|) <==> old(n.next[i]) == null
      ensures if old(n.next[i]) == null && valid then Attaches(old(Mem()), Mem(), n, i, c) else Mem() == old(Mem())
    {
      hide Valid, Exact, KidsOf, DiskTree, Node.Denote, Rank, Attaches, Arrived, ResidentAt, Standing, Absent, ChildIn, Closed,
           DiskOk, Node.Shape, Before, MemoryOf;
      ghost var mem := Mem();
      ghost var t, u, b := root.Denote(disk), n.Denote(disk), key[at + |n.path|];
      MemIsClosed();
      OnlyWayTo(before, root, key, at, n);
      NextChild(before, root, key, at, n);
      assert Arrived(before, mem, root, t, key, at, n, u) && mem[n].mask == n.mask && |n.mask| == BRANCHES;
      c := EnsureChild(n, i, valid, keep);
      assert root.Denote(disk) == t && n.Denote(disk) == u;
      if c != null {
        assert Mem() == mem || Attaches(mem, Mem(), n, i, c);
        ItMeans(n, b);
        WayDown(before, mem, root, key, at, n, i, c);
      }
    }

    /** Whether the next child was in memory from the start. */
    lemma NextChild(before: Memory, root: Node, key: Key, at: nat, n: Node)
      requires Valid() && n in nodes && root in nodes && DiskOk(disk) && root.Shape(|disk|) && n.Shape(|disk|)
      requires OnWay(before, root, key, at, n) && n.path <= key[at..] && at + |n.path| < |key| && n.mask[key[at + |n.path|]]
      ensures Rank(n.mask, key[at + |n.path|]) < |n.next|
      ensures Kid(n.Denote(disk), key[at + |n.path|]).Some?
      ensures Absent(before, root, root.Denote(disk), key, at + |n.path|) <==> n.next[Rank(n.mask, key[at + |n.path|])] == null
    {
      hide DiskTree, BranchedTo, ResidentAt, Loaded, Absent;
      RankMono(n.mask, key[at + |n.path|], BRANCHES);
      assert Linked(n, nodes, up, disk);
      assert Kid(n.Denote(disk), key[at + |n.path|]).Some?;
      AbsentHere(before, Mem(), root, root.Denote(disk), key, at, n, n.Denote(disk));
    }

    lemma WayDown(before: Memory, mem: Memory, root: Node, key: Key, at: nat, n: Node, i: nat, c: Node)
      requires DiskOk(disk) && root.Shape(|disk|) && n.Shape(|disk|) && c.Shape(|disk|) && c in nodes && root in mem && Closed(mem)
      requires Arrived(before, mem, root, root.Denote(disk), key, at, n, n.Denote(disk))
      requires n.path <= key[at..] && at + |n.path| < |key| && n.mask[key[at + |n.path|]] && i == Rank(n.mask, key[at + |n.path|])
      requires i < |n.next| && n.next[i] == c && mem[n].mask == n.mask && n in nodes
      requires Kid(n.Denote(disk), key[at + |n.path|]) == Some(c.Denote(disk))
      requires Mem() == mem || Attaches(mem, Mem(), n, i, c)
      requires forall p | ResidentAt(mem, root, p) == n :: p == key[..at]
      ensures OnWay(before, root, key, at + |n.path| + 1, c)
    {
      hide DiskTree, KidsOf, BranchedTo, ResidentAt, Loaded, Absent, Attaches, Rank, Closed;
      var t, u, d := root.Denote(disk), n.Denote(disk), c.Denote(disk);
      if Mem() == mem {
        DownInMemory(before, mem, root, t, key, at, n, u, d);
      } else {
        DownLoaded(before, mem, Mem(), root, t, key, at, n, u, c, d);
      }
    }

    lemma OnlyRootOf(before: Memory, root: Node, key: Key, at: nat, n: Node)
      requires Valid() && root in nodes && root !in up && DiskOk(disk) && root.Shape(|disk|) && n.Shape(|disk|)
      requires OnWay(before, root, key, at, n)
      ensures forall m, p | m in nodes && m !in up && ResidentAt(Mem(), m, p) == n :: m == root
    {
      hide Valid, KidsOf, Node.Denote, ResidentAt, BranchedTo, Loaded;
      forall m, p | m in nodes && m !in up && ResidentAt(Mem(), m, p) == n ensures m == root {
        OneRoot(m, p, root, key[..at]);
      }
    }

    /** The same, and below the other roots nothing comes in. */
    method DescendApart(n: Node, i: nat, valid: bool, ghost keep: set<Held>, ghost before: Memory, ghost root: Node, ghost key: Key, ghost at: nat)
      returns (c: Node?)
      requires Valid() && n in nodes && i < |n.next| && root in nodes && DiskOk(disk) && root.Shape(|disk|) && n.Shape(|disk|)
      requires forall h | h in keep :: Standing(h, nodes, up)
      requires OnWay(before, root, key, at, n) && before.Keys <= nodes
      requires n.path <= key[at..] && at + |n.path| < |key| && n.mask[key[at + |n.path|]] && i == Rank(n.mask, key[at + |n.path|])
      modifies this`nodes, this`up, n`next
      ensures Valid() && OnlyLoaded()
      ensures |n.next| == |old(n.next)| && c == n.next[i]
      ensures c == null <==> !valid && Absent(before, root, root.Denote(disk), key, at + |n.path|)
      ensures c != null ==> c in nodes && c in up && up[c] == (n, i) && c.Shape(|disk|) && OnWay(before, root, key, at + |n.path| + 1, c)
      ensures forall h | h in keep :: Standing(h, nodes, up)
      ensures old(root !in up && SameElsewhere(before, root)) ==> SameElsewhere(before, root)
    {
      hide Valid, Exact, KidsOf, DiskTree, Node.Denote, Rank, Attaches, ResidentAt, Standing, Absent, SameFrom, ChildIn, Closed,
           DiskOk, Node.Shape, Before, MemoryOf, OnWay;
      ghost var mem, up0, alone, b := Mem(), up, root !in up && SameElsewhere(before, root), key[at + |n.path|];
      MemIsClosed();
      assert mem[n].mask == n.mask;
      if alone {
        OnlyRootOf(before, root, key, at, n);
      }
      c := Descend(n, i, valid, keep, before, root, key, at);
      if alone {
        assert b == key[at + |n.path|] && mem[n].mask[b] && i == Rank(mem[n].mask, b);
        StaysElsewhere(before, mem, up0, root, n, i, c);
      }
    }

    lemma StaysElsewhere(before: Memory, mem: Memory, up0: Parents, root: Node, n: Node, i: nat, c: Node?)
      requires Closed(mem) && before.Keys <= mem.Keys && n in mem && |mem[n].mask| == BRANCHES
      requires (exists b: Nibble :: mem[n].mask[b] && i == Rank(mem[n].mask, b)) && forall m | m in up0 :: m in up
      requires Mem() == mem || (c != null && Attaches(mem, Mem(), n, i, c))
      requires SameFrom(before, mem, up0, root)
      requires forall m, p | m in mem && m !in up0 && ResidentAt(mem, m, p) == n :: m == root
      ensures SameElsewhere(before, root)
    {
      hide ResidentAt, Attaches, Rank, Closed;
      var b: Nibble :| mem[n].mask[b] && i == Rank(mem[n].mask, b);
      forall m, p | m in before && m != root && m !in up ensures SameAt(before, Mem(), m, p) {
        assert SameAt(before, mem, m, p);
        if Mem() != mem {
          AttachedAt(mem, Mem(), n, b, c, m, p);
        }
      }
    }

    lemma OnlyWayTo(before: Memory, root: Node, key: Key, at: nat, n: Node)
      requires Valid() && root in nodes && DiskOk(disk) && root.Shape(|disk|) && n.Shape(|disk|) && OnWay(before, root, key, at, n)
      ensures at <= |key| && forall p | ResidentAt(Mem(), root, p) == n :: p == key[..at]
    {
      hide Valid, KidsOf, Node.Denote, ResidentAt, BranchedTo, Loaded;
      forall p | ResidentAt(Mem(), root, p) == n ensures p == key[..at] {
        OneWay(root, p, key[..at]);
      }
    }

    lemma ItsShape(n: Node)
      requires Valid() && n in nodes
      ensures DiskOk(disk) && n.Shape(|disk|) && |n.fnext| == |n.next| == Count(n.mask)
    {
      assert Linked(n, nodes, up, disk);
    }

    lemma ItsLinked(n: Node, i: nat)
      requires Valid() && n in nodes && i < |n.next|
      ensures DiskOk(disk) && n.Shape(|disk|) && |n.fnext| == |n.next| && ChildOk(n, i, nodes, up, disk)
    {
      assert Linked(n, nodes, up, disk);
    }

    /** Where the search stands: `n` is reached by route `r`, `i` nibbles of its path and `k` of the key are matched. */
    ghost predicate Seeking(root: Node, start: nat, key: Key, n: Node, i: nat, k: nat, r: Route)
      requires DiskOk(disk) && root.Shape(|disk|) && start <= |root.path|
      reads this, nodes, r.trail, root, n
    {
      && n in nodes && n.Shape(|disk|) && i <= |n.path| && k <= |key|
      && Resident(r, root, n, nodes, up)
      && Before(r.hops) + n.path[..i] == root.path[..start] + key[..k]
      && Find(n.Denote(disk), i, key[k..]) == Find(root.Denote(disk), start, key)
    }

    lemma SeekMatch(root: Node, start: nat, key: Key, n: Node, i: nat, k: nat, r: Route)
      requires Valid() && root.Shape(|disk|) && start <= |root.path| && Seeking(root, start, key, n, i, k, r)
      requires k < |key| && i < |n.path| && key[k] == n.path[i]
      ensures Seeking(root, start, key, n, i + 1, k + 1, r)
    {
      hide KidsOf, Valid;
      assert key[k..][0] == key[k] && key[k..][1..] == key[k + 1..];
      assert n.path[..i + 1] == n.path[..i] + [n.path[i]] && key[..k + 1] == key[..k] + [key[k]];
      assert Before(r.hops) + n.path[..i + 1] == (Before(r.hops) + n.path[..i]) + [key[k]];
      assert root.path[..start] + key[..k + 1] == (root.path[..start] + key[..k]) + [key[k]];
    }

    lemma SeekDown(root: Node, start: nat, key: Key, n: Node, k: nat, r: Route)
      requires Valid() && root.Shape(|disk|) && start <= |root.path| && Seeking(root, start, key, n, |n.path|, k, r)
      requires k < |key| && n.mask[key[k]] && Rank(n.mask, key[k]) < |n.next| && n.next[Rank(n.mask, key[k])] != null
      ensures var c := n.next[Rank(n.mask, key[k])];
              Seeking(root, start, key, c, 0, k + 1, Route(r.trail + [c], r.hops + [Hop(n.path, key[k])]))
    {
      var idx := Rank(n.mask, key[k]);
      assert Linked(n, nodes, up, disk) && ChildOk(n, idx, nodes, up, disk);
      assert key[k..][0] == key[k] && key[k..][1..] == key[k + 1..] && key[..k + 1] == key[..k] + [key[k]];
      ResidentPush(r, root, n, nodes, up, key[k]);
      assert n.path[..|n.path|] == n.path && n.next[idx].path[..0] == [];
      assert root.path[..start] + key[..k + 1] == (root.path[..start] + key[..k]) + [key[k]];
      assert Kid(n.Denote(disk), key[k]) == Some(n.next[idx].Denote(disk));
    }

    /** How the search ends, by the reason it stopped. */
    lemma SeekEnds(root: Node, start: nat, key: Key, n: Node, i: nat, k: nat, r: Route)
      requires Valid() && root.Shape(|disk|) && start <= |root.path| && Seeking(root, start, key, n, i, k, r)
      ensures k == |key| && i == |n.path| ==>
                Resident(r, root, n, nodes, up) && Before(r.hops) + n.path == root.path[..start] + key
      ensures k == |key| ==> Find(root.Denote(disk), start, key) == Found(n.Denote(disk), i, if i == |n.path| then Success else KeyEndsEarlier)
      ensures k < |key| && i < |n.path| && key[k] != n.path[i] ==>
                Find(root.Denote(disk), start, key) == Found(n.Denote(disk), i, KeyMismatch)
      ensures k < |key| && i == |n.path| && !n.mask[key[k]] ==>
                Find(root.Denote(disk), start, key) == Found(n.Denote(disk), i, BranchNotExist)
    {
      if k < |key| {
        assert key[k..][0] == key[k];
      } else if i == |n.path| {
        assert n.path[..i] == n.path && key[..k] == key;
      }
    }

    /** The search for `key` comes to a child that is not in memory, at a nibble at which the answer is no. */
    ghost predicate GivesUp(root: Node?, start: nat, key: Key, validAt: nat -> bool)
      reads this`disk, this`nodes, nodes`mask, nodes`path, nodes`next, root
    {
      && root != null && DiskOk(disk) && root.Shape(|disk|) && start <= |root.path|
      && Refused(Mem(), root, root.Denote(disk), root.path[..start] + key, start, |key|, validAt)
    }

    method FindBlocking(root: Node?, start: nat, key: Key, validAt: nat -> bool)
      returns (node: Node?, index: nat, res: Result, ghost r: Route)
      requires Valid() && (root != null ==> root in nodes && start <= |root.path|)
      modifies this`nodes, this`up, nodes`next
      ensures Valid() && OnlyLoaded()
      ensures root != null ==> DiskOk(disk) && root.Shape(|disk|)
      ensures node != null ==> node.Shape(|disk|)
      ensures res == RootNodeIsNull <==> root == null
      ensures res == VersionNoLongerExist <==> old(GivesUp(root, start, key, validAt))
      ensures res in {RootNodeIsNull, VersionNoLongerExist} <==> node == null
      ensures node != null ==> node in nodes
      ensures node != null ==> Found(node.Denote(disk), index, res) == Find(root.Denote(disk), start, key)
      ensures res == Success ==> Resident(r, root, node, nodes, up)
      ensures res == Success ==> Before(r.hops) + node.path == root.path[..start] + key
      ensures node != null ==>
                Loaded(old(Mem()), Mem(), root, root.Denote(disk), root.path[..start] + key, |root.path[..start] + key|)
      ensures root != null && old(root !in up) ==> SameElsewhere(old(Mem()), root)
    {
      if root == null {
        return null, 0, RootNodeIsNull, Route([], []);
      }
      hide KidsOf, Rank, Find, Resident, Valid, Node.Denote, Before, DiskOk, Node.Shape, SameFrom, Loaded, MemoryOf, Exact, OnlyLoaded, Refused;
      ghost var t := StartSeeking(root, start, key);
      var s, stop;
      s, stop, r := SeekAll(root, start, key, validAt, t, Mem(), root.path[..start] + key);
      return if stop == VersionNoLongerExist then null else s.n, s.i, stop, r;
    }

    /** The loop of the search. */
    method SeekAll(root: Node, start: nat, key: Key, validAt: nat -> bool, ghost t: Tree, ghost mem: Memory, ghost full: Key)
      returns (s: Seek, res: Result, ghost r: Route)
      requires Valid() && root in nodes && start <= |root.path| && DiskOk(disk) && root.Shape(|disk|) && t == root.Denote(disk)
      requires Seeking(root, start, key, root, start, 0, Route([root], []))
      requires mem == Mem() && full == root.path[..start] + key && OnWay(mem, root, full, 0, root) && SameElsewhere(mem, root)
      modifies this`nodes, this`up, nodes`next
      ensures Valid() && OnlyLoaded() && s.n in nodes && s.n.Shape(|disk|) && res != RootNodeIsNull
      ensures res == VersionNoLongerExist <==> Refused(mem, root, t, full, start, |key|, validAt)
      ensures res != VersionNoLongerExist ==> Found(s.n.Denote(disk), s.i, res) == Find(root.Denote(disk), start, key)
      ensures res == Success ==> Resident(r, root, s.n, nodes, up) && Before(r.hops) + s.n.path == full
      ensures res != VersionNoLongerExist ==> Loaded(mem, Mem(), root, t, full, |full|)
      ensures old(root !in up) ==> SameElsewhere(mem, root)
    {
      hide KidsOf, Rank, Find, Resident, Seeking, Valid, Node.Denote, Before, DiskOk, Node.Shape, OnWay, SameFrom, Absent, NoMore, Loaded,
           Mem, MemoryOf, Exact, Refused;
      var loads: nat := 0;
      s, r := Seek(root, start, 0), Route([root], []);
      RefusedOn(mem, root, t, full, start, 0, validAt);
      while s.k < |key|
        invariant loads == s.k <= |key| && Valid() && OnlyLoaded() && DiskOk(disk) && root.Shape(|disk|) && s.n in nodes
        invariant s.n.Shape(|disk|) && s.i <= |s.n.path| && Seeking(root, start, key, s.n, s.i, s.k, r)
        invariant root.Denote(disk) == t && s.i <= start + s.k && OnWay(mem, root, full, start + s.k - s.i, s.n)
        invariant !Refused(mem, root, t, full, start, s.k, validAt)
        invariant old(root !in up) ==> SameElsewhere(mem, root)
        decreases |key| - s.k
      {
        var stop: Option<Result>;
        stop, s, r := SeekStep(root, start, key, s, validAt(loads), r, mem, t, full, validAt);
        if stop.Some? {
          return s, stop.value, r;
        }
        loads := loads + 1;
      }
      SeekEnds(root, start, key, s.n, s.i, s.k, r);
      WayStops(mem, root, full, start + s.k - s.i, s.n, s.i);
      res := if s.i != |s.n.path| then KeyEndsEarlier else Success;
    }

    /** One turn of the search: match a nibble, go down a branch, or stop. */
    method SeekStep(root: Node, start: nat, key: Key, s: Seek, valid: bool, ghost r: Route, ghost before: Memory, ghost t: Tree, ghost full: Key,
                    ghost validAt: nat -> bool)
      returns (stop: Option<Result>, s': Seek, ghost r': Route)
      requires Valid() && DiskOk(disk) && root.Shape(|disk|) && start <= |root.path| && root in nodes && before.Keys <= nodes
      requires t == root.Denote(disk) && full == root.path[..start] + key
      requires valid == validAt(s.k) && !Refused(before, root, t, full, start, s.k, validAt)
      requires s.n in nodes && s.n.Shape(|disk|) && s.i <= |s.n.path| && s.k < |key|
      requires Seeking(root, start, key, s.n, s.i, s.k, r)
      requires s.i <= start + s.k && OnWay(before, root, full, start + s.k - s.i, s.n)
      modifies this`nodes, this`up, s.n`next
      ensures Valid() && OnlyLoaded() && s'.n in nodes && s'.n.Shape(|disk|)
      ensures stop == None ==> s'.k == s.k + 1 && s'.i <= |s'.n.path| && Seeking(root, start, key, s'.n, s'.i, s'.k, r')
      ensures stop.Some? ==> stop.value !in {Success, RootNodeIsNull}
      ensures stop.Some? && stop.value != VersionNoLongerExist ==>
                Found(s'.n.Denote(disk), s'.i, stop.value) == Find(root.Denote(disk), start, key)
      ensures stop == None ==> s'.i <= start + s'.k && OnWay(before, root, full, start + s'.k - s'.i, s'.n)
      ensures stop == None ==> !Refused(before, root, t, full, start, s'.k, validAt)
      ensures stop.Some? ==> (stop.value == VersionNoLongerExist <==> Refused(before, root, t, full, start, |key|, validAt))
      ensures stop.Some? && stop.value != VersionNoLongerExist ==> Loaded(before, Mem(), root, t, full, |full|)
      ensures old(root !in up && SameElsewhere(before, root)) ==> SameElsewhere(before, root)
    {
      hide KidsOf, Rank, Find, Seeking, Node.Denote, Valid, OnWay, SameFrom, Absent, Loaded, NoMore, MemoryOf, Exact, Refused;
      var n, nibble := s.n, key[s.k];
      stop, s', r' := None, s, r;
      RefusedOn(before, root, t, full, start, s.k, validAt);
      SeekEnds(root, start, key, n, s.i, s.k, r);
      if s.i < |n.path| {
        if nibble != n.path[s.i] {
          WayStops(before, root, full, start + s.k - s.i, n, s.i);
          NotRefused(before, root, t, full, start, s.k, |key|, validAt, start + s.k - s.i);
          stop := Some(KeyMismatch);
        } else {
          SeekMatch(root, start, key, n, s.i, s.k, r);
          NotYet(before, root, full, start + s.k - s.i, n, s.i);
          s' := s.(i := s.i + 1, k := s.k + 1);
        }
      } else if !n.mask[nibble] {
        WayStops(before, root, full, start + s.k - s.i, n, s.i);
        NotRefused(before, root, t, full, start, s.k, |key|, validAt, start + s.k - s.i);
        stop := Some(BranchNotExist);
      } else {
        var c := SeekChild(root, start, key, n, s.k, valid, r, before);
        if c == null {
          RefusedLater(before, root, t, full, start, s.k + 1, |key|, validAt);
          stop := Some(VersionNoLongerExist);
        } else {
          s', r' := Seek(c, 0, s.k + 1), Route(r.trail + [c], r.hops + [Hop(n.path, nibble)]);
        }
      }
    }

    /** What the search has matched of the path of `n`. */
    lemma SeekPosition(root: Node, start: nat, key: Key, n: Node, i: nat, k: nat, r: Route)
      requires DiskOk(disk) && root.Shape(|disk|) && start <= |root.path| && Seeking(root, start, key, n, i, k, r) && i <= start + k
      ensures i <= |n.path| && k <= |key| && (root.path[..start] + key)[start + k - i..start + k] == n.path[..i]
    {
      hide Find, Resident, Before;
      var full, b := root.path[..start] + key, Before(r.hops);
      assert full[..start + k] == root.path[..start] + key[..k] == b + n.path[..i];
      assert |b| == start + k - i;
      assert full[start + k - i..start + k] == full[..start + k][|b|..] == n.path[..i];
    }

    /** Inside a path nothing is to be read. */
    lemma NotYet(before: Memory, root: Node, key: Key, at: nat, n: Node, i: nat)
      requires DiskOk(disk) && root.Shape(|disk|) && n.Shape(|disk|) && i < |n.path| && at + i < |key| && OnWay(before, root, key, at, n)
      ensures !Absent(before, root, root.Denote(disk), key, at + i)
    {
      hide BranchedTo, ResidentAt, Loaded, KidsOf;
      BranchesBelow(root.Denote(disk), key, at, at + i);
    }

    /** Where the way ends nothing more is to be read, and all of it is in memory. */
    lemma WayStops(before: Memory, root: Node, key: Key, at: nat, n: Node, i: nat)
      requires DiskOk(disk) && root.Shape(|disk|) && n.Shape(|disk|) && i <= |n.path| && at + i <= |key| && OnWay(before, root, key, at, n)
      requires at + i < |key| ==> if i < |n.path| then key[at + i] != n.path[i] else !n.mask[key[at + i]]
      ensures NoMore(root.Denote(disk), key, at) && Loaded(before, Mem(), root, root.Denote(disk), key, |key|)
    {
      hide BranchedTo, ResidentAt, Loaded, DiskTree;
      WayEnds(root.Denote(disk), key, at, i);
      LoadedAll(before, Mem(), root, root.Denote(disk), key, at);
    }

    /** The matched child, loaded if need be. */
    method SeekChild(root: Node, start: nat, key: Key, n: Node, k: nat, valid: bool, ghost r: Route, ghost before: Memory)
      returns (c: Node?)
      requires Valid() && DiskOk(disk) && root.Shape(|disk|) && start <= |root.path| && n.Shape(|disk|) && n in nodes && root in nodes
      requires Seeking(root, start, key, n, |n.path|, k, r) && before.Keys <= nodes
      requires k < |key| && n.mask[key[k]]
      requires |n.path| <= start + k && OnWay(before, root, root.path[..start] + key, start + k - |n.path|, n)
      modifies this`nodes, this`up, n`next
      ensures Valid() && OnlyLoaded()
      ensures c != null ==> c in nodes && c.Shape(|disk|) &&
                            Seeking(root, start, key, c, 0, k + 1, Route(r.trail + [c], r.hops + [Hop(n.path, key[k])]))
      ensures c != null ==> OnWay(before, root, root.path[..start] + key, start + k + 1, c)
      ensures c == null <==> !valid && Absent(before, root, root.Denote(disk), root.path[..start] + key, start + k)
      ensures old(root !in up && SameElsewhere(before, root)) ==> SameElsewhere(before, root)
    {
      hide KidsOf, Rank, Find, Resident, Before, Node.Denote, OnWay, SameFrom, Absent, MemoryOf, Attaches, Valid, Exact, ResidentAt, Closed;
      ghost var full, at := root.path[..start] + key, start + k - |n.path|;
      SeekPosition(root, start, key, n, |n.path|, k, r);
      assert n.path[..|n.path|] == n.path;
      RankMono(n.mask, key[k], BRANCHES);
      ItsShape(n);
      var idx := Rank(n.mask, key[k]);
      assert Standing(Held(r, root, n), nodes, up);
      c := DescendApart(n, idx, valid, {Held(r, root, n)}, before, root, full, at);
      if c != null {
        assert Standing(Held(r, root, n), nodes, up);
        SeekDown(root, start, key, n, k, r);
      }
    }

    lemma StartSeeking(root: Node, start: nat, key: Key) returns (t: Tree)
      requires Valid() && root in nodes && start <= |root.path|
      ensures DiskOk(disk) && root.Shape(|disk|) && Seeking(root, start, key, root, start, 0, Route([root], []))
      ensures OnWay(Mem(), root, root.path[..start] + key, 0, root) && SameElsewhere(Mem(), root) && t == root.Denote(disk)
    {
      t := root.Denote(disk);
      NothingHasCome(root, root.path[..start] + key);
      assert Before([]) + root.path[..start] == root.path[..start] + key[..0];
      assert key[0..] == key && Linked(root, nodes, up, disk);
    }
  }
}
