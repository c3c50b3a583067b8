/** Whether a copy keeps the order of versions: no leaf is newer than a node above it. */
module VersionOrder {
  import opened Trie
  import opened CopySpec

  /** No valued node of the trie is newer than `v`. */
  ghost predicate LeavesAtMost(t: Tree, v: int)
    decreases t, 1
  {
    (t.value.Some? ==> t.version <= v) && KidsAtMost(t, v)
  }

  ghost predicate KidsAtMost(t: Tree, v: int)
    decreases t, 0
  {
    forall b: Nibble | Kid(t, b).Some? :: LeavesAtMost(Kid(t, b).value, v)
  }

  /** Every node is at least as new as the leaves below it. */
  ghost predicate VersionOrdered(t: Tree) {
    KidsAtMost(t, t.version) && forall b: Nibble | Kid(t, b).Some? :: VersionOrdered(Kid(t, b).value)
  }

  /** What the copy puts under the nodes it passes: the source, with the new version where it replaces a node. */
  function Put(t: Tree, dp: Key, src: Tree, ver: int): Tree {
    if Find(t, 0, dp).res == Success then src.(version := ver) else src
  }

  /** The nodes passed on the way are at least as new as what is put below them, and the new version is at least as
      new as everything below the node made with it. */
  ghost predicate KeepsOrder(t: Tree, dp: Key, src: Tree, ver: int)
    decreases t
  {
    var i := CommonPrefix(t.path, dp);
    if i == |dp| then KidsAtMost(src, ver)
    else if i < |t.path| then LeavesAtMost(src, ver) && LeavesAtMost(t, ver)
    else
      match Kid(t, dp[i])
      case None => LeavesAtMost(src, ver) && KidsAtMost(t, ver)
      case Some(c) => LeavesAtMost(Put(c, dp[i + 1..], src, ver), t.version) && KeepsOrder(c, dp[i + 1..], src, ver)
  }

  lemma PutBelow(t: Tree, dp: Key, src: Tree, ver: int)
    ensures var i := CommonPrefix(t.path, dp);
      Put(t, dp, src, ver) ==
        if i == |dp| then (if i == |t.path| then src.(version := ver) else src)
        else if i < |t.path| || Kid(t, dp[i]).None? then src
        else Put(Kid(t, dp[i]).value, dp[i + 1..], src, ver)
  {
    hide Find, CommonPrefix;
    FindCases(t, 0, dp);
    assert t.path[0..] == t.path;
  }

  lemma SameBelow(t: Tree, u: Tree, v: int)
    requires u.kids == t.kids
    ensures KidsAtMost(t, v) <==> KidsAtMost(u, v)
    ensures (forall b: Nibble | Kid(t, b).Some? :: VersionOrdered(Kid(t, b).value))
       <==> (forall b: Nibble | Kid(u, b).Some? :: VersionOrdered(Kid(u, b).value))
    ensures u.version == t.version ==> (VersionOrdered(t) <==> VersionOrdered(u))
    ensures u.version == t.version && u.value == t.value ==> (LeavesAtMost(t, v) <==> LeavesAtMost(u, v))
  {
    assert forall b: Nibble :: Kid(t, b) == Kid(u, b);
  }

  /** With one kid exchanged, only that kid decides. */
  lemma OneKidDecides(t: Tree, b: Nibble, c: Tree, v: int)
    ensures var u := t.(kids := SetKid(t.kids, b, c));
      && (KidsAtMost(t, v) ==> (KidsAtMost(u, v) <==> LeavesAtMost(c, v)))
      && (KidsAtMost(u, v) ==> LeavesAtMost(c, v))
      && (VersionOrdered(t) ==> (VersionOrdered(u) <==> LeavesAtMost(c, t.version) && VersionOrdered(c)))
  {
    hide SetKid;
    var u := t.(kids := SetKid(t.kids, b, c));
    assert forall a: Nibble :: Kid(u, a) == if a == b then Some(c) else Kid(t, a);
    assert Kid(u, b) == Some(c);
  }

  /** A new kid where there was none: the others count as well. */
  lemma NewKidDecides(t: Tree, u: Tree, b: Nibble, c: Tree, v: int)
    requires Kid(t, b).None? && u.kids == SetKid(t.kids, b, c)
    ensures KidsAtMost(u, v) <==> KidsAtMost(t, v) && LeavesAtMost(c, v)
    ensures VersionOrdered(t) ==> (VersionOrdered(u) <==> KidsAtMost(t, u.version) && LeavesAtMost(c, u.version) && VersionOrdered(c))
  {
    hide SetKid;
    assert forall a: Nibble :: Kid(u, a) == if a == b then Some(c) else Kid(t, a);
    assert Kid(u, b) == Some(c);
  }

  lemma TwoKidsDecide(u: Tree, a: Nibble, x: Tree, b: Nibble, y: Tree, v: int)
    requires a != b && u.kids == SetKid(SetKid(NoKids(), a, x), b, y)
    ensures KidsAtMost(u, v) <==> LeavesAtMost(x, v) && LeavesAtMost(y, v)
    ensures VersionOrdered(u) <==>
              LeavesAtMost(x, u.version) && LeavesAtMost(y, u.version) && VersionOrdered(x) && VersionOrdered(y)
  {
    assert forall c: Nibble :: Kid(u, c) == if c == b then Some(y) else if c == a then Some(x) else None;
    assert Kid(u, a) == Some(x) && Kid(u, b) == Some(y);
  }

  /** Below a bound that the old leaves keep, only what is put there decides. */
  lemma {:induction false} GraftLeaves(t: Tree, dp: Key, src: Tree, rv: Option<Bytes>, ver: int, v: int)
    requires LeavesAtMost(t, v) && Graft(t, false, dp, src, rv, ver).Some?
    ensures LeavesAtMost(Graft(t, false, dp, src, rv, ver).value, v) <==> LeavesAtMost(Put(t, dp, src, ver), v)
    decreases t
  {
    hide Find, SetKid, NoKids, Put;
    PutBelow(t, dp, src, ver);
    var i := CommonPrefix(t.path, dp);
    var g := Graft(t, false, dp, src, rv, ver).value;
    if i == |dp| {
      SameBelow(g, src.(version := ver), v);
    } else if i < |t.path| {
      SameBelow(src, Repath(src, dp[i + 1..]), v);
      SameBelow(t, Repath(t, t.path[i + 1..]), v);
      TwoKidsDecide(g, dp[i], Repath(src, dp[i + 1..]), t.path[i], Repath(t, t.path[i + 1..]), v);
    } else if Kid(t, dp[i]).None? {
      SameBelow(src, Repath(src, dp[i + 1..]), v);
      NewKidDecides(t, g, dp[i], Repath(src, dp[i + 1..]), v);
    } else {
      var c, rest := Kid(t, dp[i]).value, dp[i + 1..];
      GraftLeaves(c, rest, src, rv, ver, v);
      OneKidDecides(t, dp[i], Graft(c, false, rest, src, rv, ver).value, v);
    }
  }

  /** The copy keeps the order exactly when the nodes it passes are new enough. */
  lemma {:induction false} GraftKeepsOrderIff(t: Tree, isRoot: bool, dp: Key, src: Tree, rv: Option<Bytes>, ver: int)
    requires VersionOrdered(t) && VersionOrdered(src) && Graft(t, isRoot, dp, src, rv, ver).Some?
    ensures VersionOrdered(Graft(t, isRoot, dp, src, rv, ver).value) <==> KeepsOrder(t, dp, src, ver)
    decreases t
  {
    hide Find, SetKid, NoKids, Put, LeavesAtMost;
    var i := CommonPrefix(t.path, dp);
    var g := Graft(t, isRoot, dp, src, rv, ver).value;
    if i == |dp| {
      SameBelow(src, g, ver);
    } else if i < |t.path| {
      var x, y := Repath(src, dp[i + 1..]), Repath(t, t.path[i + 1..]);
      SameBelow(src, x, ver);
      SameBelow(t, y, ver);
      TwoKidsDecide(g, dp[i], x, t.path[i], y, ver);
    } else if Kid(t, dp[i]).None? {
      SameBelow(src, Repath(src, dp[i + 1..]), ver);
      NewKidDecides(t, g, dp[i], Repath(src, dp[i + 1..]), ver);
    } else {
      var c, rest := Kid(t, dp[i]).value, dp[i + 1..];
      GraftKeepsOrderIff(c, false, rest, src, rv, ver);
      GraftLeaves(c, rest, src, rv, ver, t.version);
      OneKidDecides(t, dp[i], Graft(c, false, rest, src, rv, ver).value, t.version);
    }
  }

  /** Version 5 copied below a root of version 3 leaves the root older than its leaf. */
  lemma CopyCanBreakOrder()
    ensures var leaf := Tree([], Some([7]), 3, NoKids());
            var dest := Tree([], Some([]), 3, SetKid(NoKids(), 1, leaf));
            && VersionOrdered(dest) && VersionOrdered(leaf) && Graft(dest, true, [1], leaf, Some([]), 5).Some?
            && !VersionOrdered(Graft(dest, true, [1], leaf, Some([]), 5).value)
  {
    var leaf := Tree([], Some([7]), 3, NoKids());
    var dest := Tree([], Some([]), 3, SetKid(NoKids(), 1, leaf));
    assert forall b: Nibble :: Kid(leaf, b) == None;
    assert forall b: Nibble :: Kid(dest, b) == if b == 1 then Some(leaf) else None;
    assert CommonPrefix([], [1]) == 0 && CommonPrefix([], []) == 0;
    assert [1][1..] == [];
    var g := Graft(leaf, false, [], leaf, Some([]), 5);
    assert g == Some(Tree([], Some([7]), 5, NoKids()));
    var after := Graft(dest, true, [1], leaf, Some([]), 5).value;
    assert Kid(after, 1) == g && !LeavesAtMost(g.value, 3);
  }

  /** A subtrie of an ordered trie is ordered. */
  lemma {:induction false} SubtrieOrdered(t: Tree, key: Key)
    requires VersionOrdered(t) && At(t, key).Some?
    ensures VersionOrdered(At(t, key).value)
    decreases t
  {
    if |key| > |t.path| {
      SubtrieOrdered(Kid(t, key[|t.path|]).value, key[|t.path| + 1..]);
    }
  }

  /** The same for the trie made when there is no destination yet. */
  lemma FreshRootOrderIff(dp: Key, src: Tree, rv: Option<Bytes>, ver: int)
    requires dp != [] && VersionOrdered(src)
    ensures VersionOrdered(FreshRoot(dp, src, rv, ver)) <==> KidsAtMost(src, ver)
  {
    var c := Repath(src, dp[1..]).(version := ver);
    var g := FreshRoot(dp, src, rv, ver);
    assert forall b: Nibble :: Kid(g, b) == if b == dp[0] then Some(c) else None;
    assert Kid(g, dp[0]) == Some(c);
    SameBelow(src, c, ver);
  }
}
