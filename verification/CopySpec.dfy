/** What copying a subtrie means, on tries as values: where it is a map update, and where it is not. */
module CopySpec {
  import opened Trie

  function CommonPrefix(a: Key, b: Key): (i: nat)
    ensures i <= |a| && i <= |b| && a[..i] == b[..i]
    ensures i < |a| && i < |b| ==> a[i] != b[i]
  {
    if a != [] && b != [] && a[0] == b[0] then 1 + CommonPrefix(a[1..], b[1..]) else 0
  }

  function SetKid(kids: Kids, b: Nibble, c: Tree): (r: Kids)
    ensures |r| == BRANCHES
    ensures forall i: Nibble :: KidAt(r, i) == if i == b then Some(c) else KidAt(kids, i)
  {
    seq(BRANCHES, i requires 0 <= i < BRANCHES => if i == b then Some(c) else KidAt(kids, i))
  }

  function NoKids(): Kids {
    [None, None, None, None, None, None, None, None, None, None, None, None, None, None, None, None]
  }

  /** The subtrie of `t` seen from a different parent. */
  function Repath(t: Tree, path: Key): Tree {
    t.(path := path)
  }

  /** `src` hung into `t` at `dp`; None when `dp` stops inside a path. Nodes made on the way get the
      value `rv` when they replace the root and no value otherwise. */
  function Graft(t: Tree, isRoot: bool, dp: Key, src: Tree, rv: Option<Bytes>, ver: int): Option<Tree>
    decreases t
  {
    var i := CommonPrefix(t.path, dp);
    if i == |dp| then
      if i == |t.path| then Some(Tree(t.path, src.value, ver, src.kids)) else None
    else if i == |t.path| then
      match Kid(t, dp[i]) {
        case None =>
          Some(Tree(t.path, if isRoot then rv else None, ver, SetKid(t.kids, dp[i], Repath(src, dp[i + 1..]))))
        case Some(c) =>
          var g := Graft(c, false, dp[i + 1..], src, rv, ver);
          if g.None? then None else Some(t.(kids := SetKid(t.kids, dp[i], g.value)))
      }
    else
      Some(Tree(t.path[..i], if isRoot then rv else None, ver,
                SetKid(SetKid(NoKids(), dp[i], Repath(src, dp[i + 1..])), t.path[i], Repath(t, t.path[i + 1..]))))
  }

  /** How the search for `key` leaves the top node of `t`. */
  lemma {:induction false} FindCases(t: Tree, i: nat, key: Key)
    requires i <= |t.path|
    ensures var rest := t.path[i..]; var c := CommonPrefix(rest, key);
      Find(t, i, key) ==
        if c == |key| then Found(t, i + c, if c == |rest| then Success else KeyEndsEarlier)
        else if c < |rest| then Found(t, i + c, KeyMismatch)
        else match Kid(t, key[c])
             case None => Found(t, i + c, BranchNotExist)
             case Some(k) => Find(k, 0, key[c + 1..])
    decreases key
  {
    var rest := t.path[i..];
    if key != [] && i < |t.path| && key[0] == t.path[i] {
      FindCases(t, i + 1, key[1..]);
      assert rest[1..] == t.path[i + 1..];
      var c := CommonPrefix(rest[1..], key[1..]);
      assert CommonPrefix(rest, key) == 1 + c;
      if c < |key[1..]| {
        assert key[1..][c + 1..] == key[c + 2..];
      }
    }
  }

  /** The copy stops short exactly when the destination ends inside a node's path. */
  lemma {:induction false} GraftDefined(t: Tree, isRoot: bool, dp: Key, src: Tree, rv: Option<Bytes>, ver: int)
    ensures Graft(t, isRoot, dp, src, rv, ver).None? <==> Find(t, 0, dp).res == KeyEndsEarlier
    decreases t
  {
    FindCases(t, 0, dp);
    assert t.path[0..] == t.path;
    var i := CommonPrefix(t.path, dp);
    if i < |dp| && i == |t.path| && Kid(t, dp[i]).Some? {
      GraftDefined(Kid(t, dp[i]).value, false, dp[i + 1..], src, rv, ver);
    }
  }

  /** The search for `dp` ends at a valued node that lacks the next branch. */
  predicate EndsAtValuedBranch(t: Tree, dp: Key) {
    var f := Find(t, 0, dp);
    f.res == BranchNotExist && f.node.value.Some?
  }

  function Updated(t: Tree, dp: Key, src: Tree, key: Key): Option<Bytes> {
    if dp <= key then Value(Repath(src, []), key[|dp|..]) else Value(t, key)
  }

  lemma AtRepath(t: Tree, path: Key, key: Key)
    requires |path| < |key|
    ensures At(Repath(t, path), key) == if path <= key then At(Repath(t, []), key[|path|..]) else None
  {
    if path <= key {
      assert key[|path|..][1..] == key[|path| + 1..];
    }
  }

  lemma ValueRepath(t: Tree, path: Key, key: Key)
    ensures Value(Repath(t, path), key) == if path <= key then Value(Repath(t, []), key[|path|..]) else None
  {
    if |path| < |key| {
      AtRepath(t, path, key);
    }
  }

  lemma PrefixSplit(a: Key, n: Nibble, b: Key, key: Key)
    ensures a + [n] + b <= key <==> a <= key && |a| < |key| && key[|a|] == n && b <= key[|a| + 1..]
  {
    var p := a + [n] + b;
    if a <= key && |a| < |key| && key[|a|] == n && b <= key[|a| + 1..] {
      assert key == a + [n] + key[|a| + 1..];
    }
    if p <= key {
      assert p[..|a|] == a && p[|a|] == n && p[|a| + 1..] == b;
      assert key[..|a|] == a && key[|a| + 1..][..|b|] == b;
    }
  }

  /** A subtrie hung below branch `b` of a node at `p` answers for the keys that extend `p`, `b` and its path. */
  lemma Rehang(p: Key, b: Nibble, q: Key, x: Tree, key: Key)
    ensures (if p <= key && |p| < |key| && key[|p|] == b then Value(Repath(x, q), key[|p| + 1..]) else None)
         == if p + [b] + q <= key then Value(Repath(x, []), key[|p| + 1 + |q|..]) else None
  {
    PrefixSplit(p, b, q, key);
    if p <= key && |p| < |key| && key[|p|] == b {
      ValueRepath(x, q, key[|p| + 1..]);
      if q <= key[|p| + 1..] {
        assert key[|p| + 1..][|q|..] == key[|p| + 1 + |q|..];
      }
    }
  }

  /** Changing one child so that it answers as updated makes its parent answer as updated. */
  lemma DescendValue(t: Tree, dp: Key, src: Tree, g: Tree, key: Key)
    requires t.path < dp && Kid(t, dp[|t.path|]).Some?
    requires var i := |t.path|; t.path <= key && |key| > i && key[i] == dp[i] ==>
      Value(g, key[i + 1..]) == Updated(Kid(t, dp[i]).value, dp[i + 1..], src, key[i + 1..])
    ensures Value(t.(kids := SetKid(t.kids, dp[|t.path|], g)), key) == Updated(t, dp, src, key)
  {
    var i := |t.path|;
    var b, rest := dp[i], dp[i + 1..];
    assert dp == t.path + [b] + rest;
    PrefixSplit(t.path, b, rest, key);
    if t.path <= key && |key| > i && key[i] == b {
      if rest <= key[i + 1..] {
        assert key[|dp|..] == key[i + 1..][|rest|..];
      }
    }
  }

  lemma BranchValue(t: Tree, dp: Key, src: Tree, g: Tree, key: Key)
    requires t.path < dp && Kid(t, dp[|t.path|]).None?
    requires g.path == t.path
    requires key == t.path ==> g.value == t.value
    requires g.kids == SetKid(t.kids, dp[|t.path|], Repath(src, dp[|t.path| + 1..]))
    ensures Value(g, key) == Updated(t, dp, src, key)
  {
    var i := |t.path|;
    assert dp == t.path + [dp[i]] + dp[i + 1..];
    Rehang(t.path, dp[i], dp[i + 1..], src, key);
    PrefixSplit(t.path, dp[i], dp[i + 1..], key);
  }

  lemma {:induction false} GraftValue(t: Tree, isRoot: bool, dp: Key, src: Tree, rv: Option<Bytes>, ver: int, key: Key)
    requires Graft(t, isRoot, dp, src, rv, ver).Some?
    requires isRoot ==> t.path == [] && key != []
    requires (isRoot && (dp == [] || Kid(t, dp[0]).None?)) || !EndsAtValuedBranch(t, dp)
    ensures Value(Graft(t, isRoot, dp, src, rv, ver).value, key) == Updated(t, dp, src, key)
    decreases t
  {
    hide Value, At, Updated, SetKid, Find, Repath;
    FindCases(t, 0, dp);
    assert t.path[0..] == t.path;
    var g := Graft(t, isRoot, dp, src, rv, ver).value;
    var i := CommonPrefix(t.path, dp);
    if i == |dp| {
      assert dp == dp[..i] == t.path[..i] == t.path;
      ReplacedValue(t, src, ver, key);
    } else if i < |t.path| {
      SplitValue(t, isRoot, dp, src, rv, ver, key);
    } else if Kid(t, dp[i]).None? {
      BranchValue(t, dp, src, g, key);
    } else {
      var c, rest := Kid(t, dp[i]).value, dp[i + 1..];
      if t.path <= key && |key| > i && key[i] == dp[i] {
        GraftValue(c, false, rest, src, rv, ver, key[i + 1..]);
      }
      DescendValue(t, dp, src, Graft(c, false, rest, src, rv, ver).value, key);
    }
  }

  lemma ReplacedValue(t: Tree, src: Tree, ver: int, key: Key)
    ensures Value(Tree(t.path, src.value, ver, src.kids), key) == Updated(t, t.path, src, key)
  {
    ValueRepath(src, t.path, key);
    assert Value(Tree(t.path, src.value, ver, src.kids), key) == Value(Repath(src, t.path), key);
  }

  lemma ForkValue(g: Tree, a: Nibble, qa: Key, x: Tree, b: Nibble, qb: Key, y: Tree, key: Key)
    requires g.value.None? && a != b
    requires Kid(g, a) == Some(Repath(x, qa)) && Kid(g, b) == Some(Repath(y, qb))
    requires forall c: Nibble | c != a && c != b :: Kid(g, c) == None
    ensures Value(g, key) ==
            if g.path + [a] + qa <= key then Value(Repath(x, []), key[|g.path| + 1 + |qa|..])
            else if g.path + [b] + qb <= key then Value(Repath(y, []), key[|g.path| + 1 + |qb|..])
            else None
  {
    Rehang(g.path, a, qa, x, key);
    Rehang(g.path, b, qb, y, key);
    PrefixSplit(g.path, a, qa, key);
    PrefixSplit(g.path, b, qb, key);
  }

  lemma SplitValue(t: Tree, isRoot: bool, dp: Key, src: Tree, rv: Option<Bytes>, ver: int, key: Key)
    requires var i := CommonPrefix(t.path, dp); i < |dp| && i < |t.path|
    requires !isRoot
    ensures Value(Graft(t, isRoot, dp, src, rv, ver).value, key) == Updated(t, dp, src, key)
  {
    hide At;
    var i := CommonPrefix(t.path, dp);
    var p := t.path[..i];
    var q, r := dp[i + 1..], t.path[i + 1..];
    assert dp == dp[..i] + [dp[i]] + q;
    assert t.path == t.path[..i] + [t.path[i]] + r;
    ForkValue(Graft(t, isRoot, dp, src, rv, ver).value, dp[i], q, src, t.path[i], r, t, key);
    ValueRepath(t, t.path, key);
    assert Repath(t, t.path) == t;
    if dp <= key {
      assert key[i] == dp[i];
    }
  }

  /** Every non-empty key answers as if the source's entries had been written over everything below `dp`. */
  ghost predicate IsMapUpdate(dest: Tree, dp: Key, src: Tree, after: Tree) {
    forall key: Key | key != [] :: Value(after, key) == Updated(dest, dp, src, key)
  }

  /** The new branch would be added to a valued node other than the root. */
  predicate DropsValue(dest: Tree, dp: Key)
    requires dest.path == []
  {
    dp != [] && Kid(dest, dp[0]).Some? && EndsAtValuedBranch(dest, dp)
  }

  lemma AtStep(t: Tree, b: Nibble, k: Key)
    ensures At(t, t.path + [b] + k) == if Kid(t, b).Some? then At(Kid(t, b).value, k) else None
  {
    var key := t.path + [b] + k;
    assert key[..|t.path|] == t.path && key[|t.path|] == b && key[|t.path| + 1..] == k;
  }

  /** On the way to a valued node without the next branch: here, or further down. */
  lemma BranchEnd(t: Tree, dp: Key, src: Tree, rv: Option<Bytes>, ver: int)
    requires EndsAtValuedBranch(t, dp)
    ensures CommonPrefix(t.path, dp) == |t.path| < |dp| && t.path < dp
    ensures var i := |t.path|;
      if Kid(t, dp[i]).None? then
        && Graft(t, false, dp, src, rv, ver).Some?
        && Value(t, t.path).Some? && Value(Graft(t, false, dp, src, rv, ver).value, t.path).None?
      else EndsAtValuedBranch(Kid(t, dp[i]).value, dp[i + 1..])
  {
    hide Find, SetKid;
    FindCases(t, 0, dp);
    assert t.path[0..] == t.path;
  }

  /** Adding a branch to a valued inner node loses that node's value. */
  lemma {:induction false} DroppedKey(t: Tree, dp: Key, src: Tree, rv: Option<Bytes>, ver: int) returns (key: Key)
    requires EndsAtValuedBranch(t, dp)
    ensures Graft(t, false, dp, src, rv, ver).Some? && key < dp
    ensures Value(t, key).Some? && Value(Graft(t, false, dp, src, rv, ver).value, key).None?
    decreases t
  {
    hide Find, SetKid, EndsAtValuedBranch, Value;
    var i := |t.path|;
    BranchEnd(t, dp, src, rv, ver);
    if Kid(t, dp[i]).None? {
      key := t.path;
    } else {
      var c, rest := Kid(t, dp[i]).value, dp[i + 1..];
      var k := DroppedKey(c, rest, src, rv, ver);
      key := t.path + [dp[i]] + k;
      DroppedStep(t, dp, Graft(c, false, rest, src, rv, ver).value, k);
    }
  }

  lemma DroppedStep(t: Tree, dp: Key, g: Tree, k: Key)
    requires t.path < dp && Kid(t, dp[|t.path|]).Some? && k < dp[|t.path| + 1..]
    ensures var b := dp[|t.path|]; var key := t.path + [b] + k;
      && key < dp
      && Value(t, key) == Value(Kid(t, b).value, k)
      && Value(t.(kids := SetKid(t.kids, b, g)), key) == Value(g, k)
  {
    var b := dp[|t.path|];
    AtStep(t, b, k);
    AtStep(t.(kids := SetKid(t.kids, b, g)), b, k);
    assert dp == t.path + [b] + dp[|t.path| + 1..];
  }

  /** Copying is a map update exactly when no valued inner node has to grow the new branch. */
  lemma CopyIsMapUpdateIff(dest: Tree, dp: Key, src: Tree, rv: Option<Bytes>, ver: int)
    requires dest.path == [] && Graft(dest, true, dp, src, rv, ver).Some?
    ensures IsMapUpdate(dest, dp, src, Graft(dest, true, dp, src, rv, ver).value) <==> !DropsValue(dest, dp)
  {
    hide Find, SetKid;
    var after := Graft(dest, true, dp, src, rv, ver).value;
    if DropsValue(dest, dp) {
      FindCases(dest, 0, dp);
      var c := Kid(dest, dp[0]).value;
      var k := DroppedKey(c, dp[1..], src, rv, ver);
      var key := [dp[0]] + k;
      assert key[1..] == k;
      assert !(dp <= key);
      assert Value(after, key) == None && Value(dest, key).Some?;
      assert Value(after, key) != Updated(dest, dp, src, key);
    } else {
      forall key: Key | key != [] ensures Value(after, key) == Updated(dest, dp, src, key) {
        GraftValue(dest, true, dp, src, rv, ver, key);
      }
    }
  }

  /** Writing below key 1 to key 12 of a trie that stores key 1 makes key 1 disappear. */
  lemma CopyCanDropAKey()
    ensures var leaf := Tree([], Some([7]), 0, NoKids());
            var dest := Tree([], Some([]), 0, SetKid(NoKids(), 1, leaf));
            && Graft(dest, true, [1, 2], leaf, Some([]), 5).Some?
            && Value(dest, [1]) == Some([7])
            && Value(Graft(dest, true, [1, 2], leaf, Some([]), 5).value, [1]) == None
  {
    var leaf := Tree([], Some([7]), 0, NoKids());
    var dest := Tree([], Some([]), 0, SetKid(NoKids(), 1, leaf));
    assert CommonPrefix([], [1, 2]) == 0 && CommonPrefix([], [2]) == 0;
    assert [1, 2][1..] == [2] && [1][1..] == [];
    assert Kid(dest, 1) == Some(leaf) && Kid(leaf, 2) == None;
    var g := Graft(leaf, false, [2], leaf, Some([]), 5);
    assert g.Some?;
    var after := Graft(dest, true, [1, 2], leaf, Some([]), 5).value;
    AtStep(dest, 1, []);
    AtStep(after, 1, []);
    assert [] + [1] + [] == [1];
  }

  /** The trie made when there is no destination yet. */
  function FreshRoot(dp: Key, src: Tree, rv: Option<Bytes>, ver: int): Tree
    requires dp != []
  {
    Tree([], rv, ver, SetKid(NoKids(), dp[0], Repath(src, dp[1..]).(version := ver)))
  }

  lemma FreshRootIsMapUpdate(dp: Key, src: Tree, rv: Option<Bytes>, ver: int, key: Key)
    requires dp != [] && key != []
    ensures Value(FreshRoot(dp, src, rv, ver), key) ==
            if dp <= key then Value(Repath(src, []), key[|dp|..]) else None
  {
    var s := src.(version := ver);
    assert Repath(src, dp[1..]).(version := ver) == Repath(s, dp[1..]);
    Rehang([], dp[0], dp[1..], s, key);
    assert [] + [dp[0]] + dp[1..] == dp;
    var r := if dp <= key then key[|dp|..] else [];
    assert Value(Repath(s, []), r) == Value(Repath(src, []), r);
  }

  /** What the copied subtrie answers is what the source answers below the source prefix. */
  lemma {:induction false} SourceBelow(root: Tree, sp: Key, src: Tree, r: Key)
    requires At(root, sp) == Some(src)
    ensures At(root, sp + r) == if r == [] then Some(src) else At(Repath(src, []), r)
    ensures Value(root, sp + r) == Value(Repath(src, []), r)
    decreases root
  {
    var k := sp + r;
    assert root.path <= k;
    if |sp| == |root.path| {
      if r != [] {
        assert k[|root.path|] == r[0] && k[|root.path| + 1..] == r[1..];
      } else {
        assert k == sp;
      }
    } else {
      var rest := sp[|root.path| + 1..];
      assert k[|root.path|] == sp[|root.path|] && k[|root.path| + 1..] == rest + r;
      SourceBelow(Kid(root, sp[|root.path|]).value, rest, src, r);
    }
  }

  function Prefixed(p: Key, ks: seq<Key>): seq<Key> {
    seq(|ks|, i requires 0 <= i < |ks| => p + ks[i])
  }

  /** The keys of the nodes that the search for `key` leaves through a child, in order. */
  function Descents(t: Tree, key: Key): seq<Key>
    decreases t
  {
    var i := CommonPrefix(t.path, key);
    if i == |t.path| && i < |key| && Kid(t, key[i]).Some? then
      [t.path] + Prefixed(t.path + [key[i]], Descents(Kid(t, key[i]).value, key[i + 1..]))
    else []
  }

  /** The copy would take the children away from an ancestor it still has to go through: source and
      destination share the root, and the walk to the destination goes down at least twice below the source node. */
  predicate SelfNested(dest: Tree, sp: Key, dp: Key) {
    var ks := Descents(dest, dp);
    ks != [] && sp in ks[..|ks| - 1]
  }

  /** One step down from an empty path. */
  lemma StepDown(t: Tree, isRoot: bool, key: Key, src: Tree, rv: Option<Bytes>, ver: int)
    requires t.path == [] && key != [] && Kid(t, key[0]).Some?
    ensures var c := Kid(t, key[0]).value;
      && Descents(t, key) == [[]] + Prefixed([key[0]], Descents(c, key[1..]))
      && (Graft(t, isRoot, key, src, rv, ver).Some? <==> Graft(c, false, key[1..], src, rv, ver).Some?)
  {
    StepDescents(t, key);
    StepGraft(t, isRoot, key, src, rv, ver);
  }

  lemma StepDescents(t: Tree, key: Key)
    requires t.path == [] && key != [] && Kid(t, key[0]).Some?
    ensures Descents(t, key) == [[]] + Prefixed([key[0]], Descents(Kid(t, key[0]).value, key[1..]))
  {
    hide Prefixed;
    assert CommonPrefix(t.path, key) == 0;
    hide CommonPrefix;
    assert [] + [key[0]] == [key[0]];
  }

  lemma StepGraft(t: Tree, isRoot: bool, key: Key, src: Tree, rv: Option<Bytes>, ver: int)
    requires t.path == [] && key != [] && Kid(t, key[0]).Some?
    ensures Graft(t, isRoot, key, src, rv, ver).Some? <==> Graft(Kid(t, key[0]).value, false, key[1..], src, rv, ver).Some?
  {
    hide SetKid;
    assert CommonPrefix(t.path, key) == 0;
    hide CommonPrefix;
  }

  lemma Chain(root: Tree, mid: Tree, low: Tree, leaf: Tree)
    requires root.path == [] && mid.path == [] && low.path == [] && leaf.path == []
    requires Kid(root, 1) == Some(mid) && Kid(mid, 2) == Some(low) && Kid(low, 3) == Some(leaf)
    ensures Find(root, 0, [1]) == Found(mid, 0, Success) && Graft(root, true, [1, 2, 3], mid, Some([]), 5).Some?
    ensures SelfNested(root, [1], [1, 2, 3])
  {
    var k1: Key, k2: Key, k3: Key := [1, 2, 3], [2, 3], [3];
    assert k1[1..] == k2 && k2[1..] == k3 && k3[1..] == [] && [1][1..] == [];
    assert Find(root, 0, [1]) == Find(mid, 0, []);
    hide Find, Graft, Descents, Prefixed;
    StepDown(root, true, k1, mid, Some([]), 5);
    StepDown(mid, false, k2, mid, Some([]), 5);
    StepDown(low, false, k3, mid, Some([]), 5);
    LeafEnds(leaf, mid);
    ThreeDeep([1], [2], [3]);
  }

  /** Copying key 1 to key 1 2 3 of the same trie goes down twice below the source. */
  lemma CopyCanNestItself()
    ensures var leaf := Tree([], Some([7]), 0, NoKids());
            var low := Tree([], Some([8]), 0, SetKid(NoKids(), 3, leaf));
            var mid := Tree([], Some([9]), 0, SetKid(NoKids(), 2, low));
            var root := Tree([], Some([]), 0, SetKid(NoKids(), 1, mid));
            && Find(root, 0, [1]) == Found(mid, 0, Success) && Graft(root, true, [1, 2, 3], mid, Some([]), 5).Some?
            && SelfNested(root, [1], [1, 2, 3])
  {
    hide Find, Graft, SelfNested, NoKids, SetKid;
    var leaf := Tree([], Some([7]), 0, NoKids());
    var low := Tree([], Some([8]), 0, SetKid(NoKids(), 3, leaf));
    var mid := Tree([], Some([9]), 0, SetKid(NoKids(), 2, low));
    var root := Tree([], Some([]), 0, SetKid(NoKids(), 1, mid));
    Chain(root, mid, low, leaf);
  }

  lemma LeafEnds(leaf: Tree, src: Tree)
    requires leaf.path == []
    ensures Graft(leaf, false, [], src, Some([]), 5).Some? && Descents(leaf, []) == []
  {
  }

  lemma ThreeDeep(a: Key, b: Key, c: Key)
    ensures var ks := [[]] + Prefixed(a, [[]] + Prefixed(b, [[]] + Prefixed(c, [])));
            |ks| == 3 && ks[..|ks| - 1][1] == a
  {
    assert a + [] == a;
  }
}
