/** Which keys the two machines report, and in which order. */
module Enumeration {
  import opened Trie
  import opened CopySpec
  import opened TraverseUtil

  lemma {:induction false} LessPrefix(q: Key, a: Key, b: Key)
    ensures Less(q + a, q + b) <==> Less(a, b)
  {
    if q == [] {
      assert q + a == a && q + b == b;
    } else {
      LessPrefix(q[1..], a, b);
      assert (q + a)[1..] == q[1..] + a && (q + b)[1..] == q[1..] + b;
    }
  }

  /** Two keys are ordered by their first difference, or by which ends first. */
  lemma LessByPrefix(a: Key, b: Key)
    ensures var i := CommonPrefix(a, b); Less(a, b) <==> i < |b| && (i == |a| || a[i] < b[i])
  {
    var i := CommonPrefix(a, b);
    hide CommonPrefix;
    assert a == a[..i] + a[i..];
    assert b == a[..i] + b[i..];
    LessPrefix(a[..i], a[i..], b[i..]);
  }

  predicate Sorted(es: seq<Entry>) {
    forall i, j | 0 <= i < j < |es| :: Less(es[i].key, es[j].key)
  }

  /** Every key extends `q` and continues with a branch from `i` on. */
  predicate From(es: seq<Entry>, q: Key, i: nat) {
    forall k | 0 <= k < |es| :: q < es[k].key && es[k].key[|q|] >= i
  }

  predicate Below(es: seq<Entry>, q: Key) {
    forall k | 0 <= k < |es| :: q <= es[k].key
  }

  lemma BranchOrder(q: Key, a: Key, b: Key)
    requires q < a && q < b && a[|q|] < b[|q|]
    ensures Less(a, b)
  {
    LessPrefix(q, a[|q|..], b[|q|..]);
    assert a == q + a[|q|..] && b == q + b[|q|..];
  }

  lemma SortedConcat(a: seq<Entry>, b: seq<Entry>)
    requires Sorted(a) && Sorted(b)
    requires forall x, y | x in a && y in b :: Less(x.key, y.key)
    ensures Sorted(a + b)
  {
  }

  lemma {:induction false} KidsAreSorted(f: Filter, q: Key, t: Tree, i: nat)
    requires i <= BRANCHES
    ensures var es := ReportedAll(f, KidVisits(f, q, t, i)); Sorted(es) && From(es, q, i)
    decreases t, BRANCHES - i
  {
    hide ReportedAll, BranchVisits, Less;
    NothingReported(f);
    if i < BRANCHES {
      var a, b := ReportedAll(f, BranchVisits(f, q, t, i)), ReportedAll(f, KidVisits(f, q, t, i + 1));
      ReportedConcat(f, BranchVisits(f, q, t, i), KidVisits(f, q, t, i + 1));
      KidsAreSorted(f, q, t, i + 1);
      BranchIsSorted(f, q, t, i);
      forall x, y | x in a && y in b ensures Less(x.key, y.key) {
        BranchOrder(q, x.key, y.key);
      }
      SortedConcat(a, b);
      assert forall k | 0 <= k < |a + b| :: (a + b)[k] in a || (a + b)[k] in b;
    }
  }

  lemma {:induction false} BranchIsSorted(f: Filter, q: Key, t: Tree, i: Nibble)
    ensures var es := ReportedAll(f, BranchVisits(f, q, t, i));
            Sorted(es) && forall x | x in es :: q < x.key && x.key[|q|] == i
    decreases t, 0
  {
    hide Visits, ReportedAll;
    if Kid(t, i).Some? && Intersects(f, q + [i]) {
      NodeIsSorted(f, q, i, Kid(t, i).value);
      var es := ReportedAll(f, Visits(f, q, Some(i), Kid(t, i).value));
      forall x | x in es ensures q < x.key && x.key[|q|] == i {
        assert q + [i] <= x.key;
        assert x.key[..|q| + 1] == q + [i];
        assert x.key[..|q| + 1][..|q|] == q && x.key[|q|] == (q + [i])[|q|];
      }
    } else {
      NothingReported(f);
    }
  }

  lemma NothingReported(f: Filter)
    ensures ReportedAll(f, []) == []
  {
  }

  lemma {:induction false} NodeIsSorted(f: Filter, p: Key, b: Nibble, t: Tree)
    ensures var es := ReportedAll(f, Visits(f, p, Some(b), t)); Sorted(es) && Below(es, p + [b])
    decreases t, BRANCHES + 1
  {
    hide ReportedAll, KidVisits;
    var v, q := Visit(p, Some(b), t), p + [b] + t.path;
    NodeReports(f, p, b, t);
    if Enters(f, v) {
      var es := ReportedAll(f, KidVisits(f, q, t, 0));
      KidsAreSorted(f, q, t, 0);
      forall x | x in es ensures Less(q, x.key) && p + [b] <= x.key {
        assert x.key == q + x.key[|q|..] && q == q + [];
        LessPrefix(q, [], x.key[|q|..]);
        assert x.key[..|q|] == q && q[..|p| + 1] == p + [b];
      }
      SortedConcat(Reported(f, v), es);
    }
  }

  /** What a walk from one node reports: its own entry, then those below its branches. */
  lemma NodeReports(f: Filter, p: Key, b: Nibble, t: Tree)
    ensures var v := Visit(p, Some(b), t);
      ReportedAll(f, Visits(f, p, Some(b), t)) ==
        Reported(f, v) + (if Enters(f, v) then ReportedAll(f, KidVisits(f, p + [b] + t.path, t, 0)) else [])
  {
    hide Reported, KidVisits, Enters, ReportedAll;
    var v := Visit(p, Some(b), t);
    OneReport(f, v);
    if Enters(f, v) {
      ReportedConcat(f, [v], KidVisits(f, p + [b] + t.path, t, 0));
    } else {
      assert Visits(f, p, Some(b), t) == [v];
    }
  }

  lemma OneReport(f: Filter, v: Visit)
    ensures ReportedAll(f, [v]) == Reported(f, v)
  {
    assert [v][..0] == [];
  }

  /** Keys come out in strictly increasing order. */
  lemma ListingIsSorted(f: Filter, root: Tree)
    ensures Sorted(Listing(f, root))
  {
    hide ReportedAll, KidVisits;
    RootReports(f, root);
    KidsAreSorted(f, [], root, 0);
  }

  lemma RootReports(f: Filter, root: Tree)
    ensures Listing(f, root) == ReportedAll(f, KidVisits(f, [], root, 0))
  {
    var v := Visit([], None, root);
    assert [v][..0] == [];
    ReportedConcat(f, [v], KidVisits(f, [], root, 0));
  }

  /** The walk gets from `t`, met below `q`, all the way to `k`: every check on the way passes. */
  predicate Open(f: Filter, q: Key, t: Tree, k: Key)
    decreases t
  {
    && t.path <= k && Intersects(f, q + t.path)
    && (|k| > |t.path| ==> OpenBelow(f, q + t.path, t, k[|t.path|..]))
  }

  /** The same from the end of the path of `t`, which is at `q`. */
  predicate OpenBelow(f: Filter, q: Key, t: Tree, k: Key)
    decreases t, 0
  {
    k != [] && Intersects(f, q + [k[0]]) && Kid(t, k[0]).Some? && Open(f, q + [k[0]], Kid(t, k[0]).value, k[1..])
  }

  lemma {:induction false} KidsReport(f: Filter, q: Key, t: Tree, i: nat, e: Entry, k: Key)
    requires i <= BRANCHES && e.key == q + k
    ensures e in ReportedAll(f, KidVisits(f, q, t, i)) <==>
            k != [] && k[0] >= i && OpenBelow(f, q, t, k) && Value(Kid(t, k[0]).value, k[1..]) == Some(e.value) && LongEnough(f, e.key)
    decreases t, BRANCHES - i
  {
    hide ReportedAll, BranchVisits, Open, At, Value;
    NothingReported(f);
    if i < BRANCHES {
      ReportedConcat(f, BranchVisits(f, q, t, i), KidVisits(f, q, t, i + 1));
      KidsReport(f, q, t, i + 1, e, k);
      BranchReports(f, q, t, i, e, k);
    }
  }

  lemma {:induction false} BranchReports(f: Filter, q: Key, t: Tree, i: Nibble, e: Entry, k: Key)
    requires e.key == q + k
    ensures e in ReportedAll(f, BranchVisits(f, q, t, i)) <==>
            k != [] && k[0] == i && OpenBelow(f, q, t, k) && Value(Kid(t, i).value, k[1..]) == Some(e.value) && LongEnough(f, e.key)
    decreases t, 0
  {
    hide ReportedAll, Visits, Open, At, Value;
    BranchIsSorted(f, q, t, i);
    if k != [] && k[0] == i {
      if Kid(t, i).Some? && Intersects(f, q + [i]) {
        assert e.key == q + [i] + k[1..] by {
          assert k == [i] + k[1..];
        }
        Reports(f, q, i, Kid(t, i).value, e, k[1..]);
      } else {
        NothingReported(f);
      }
    } else {
      assert e.key[..|q|] == q && (k != [] ==> e.key[|q|] == k[0]);
    }
  }

  /** What is reported below a node: the valued nodes the checks let the walk reach. */
  lemma {:induction false} Reports(f: Filter, p: Key, b: Nibble, t: Tree, e: Entry, k: Key)
    requires e.key == p + [b] + k
    ensures e in ReportedAll(f, Visits(f, p, Some(b), t)) <==>
            Open(f, p + [b], t, k) && Value(t, k) == Some(e.value) && LongEnough(f, e.key)
    decreases t, BRANCHES + 1
  {
    hide ReportedAll, Visits, KidVisits, OpenBelow, Intersects, Less, Value, Open, Reported, From, Sorted, Enters;
    var v, q := Visit(p, Some(b), t), p + [b] + t.path;
    var below := if Enters(f, v) then ReportedAll(f, KidVisits(f, q, t, 0)) else [];
    NodeReports(f, p, b, t);
    OwnKey(f, p, b, t);
    Beyond(p + [b], t.path, k);
    if !(t.path <= k) {
      NotOpen(f, p + [b], t, k);
      KidsAreSorted(f, q, t, 0);
      AllExtend(ReportedAll(f, KidVisits(f, q, t, 0)), q, 0, e);
    } else {
      var rest := k[|t.path|..];
      KidsReport(f, q, t, 0, e, rest);
      if rest != [] {
        DeepEntry(f, p + [b], t, k);
        assert e !in Reported(f, v);
      } else {
        assert k == t.path && e.key == q;
        OwnEntry(f, p, b, t, e);
      }
    }
  }

  lemma Beyond(p: Key, path: Key, k: Key)
    ensures p + path <= p + k <==> path <= k
    ensures path <= k ==> p + k == p + path + k[|path|..]
  {
    if p + path <= p + k {
      assert path == (p + path)[|p|..] && k[..|path|] == (p + k)[|p|..|p| + |path|];
    }
  }

  lemma AllExtend(es: seq<Entry>, q: Key, i: nat, e: Entry)
    requires From(es, q, i) && !(q <= e.key)
    ensures e !in es
  {
  }

  lemma OwnKey(f: Filter, p: Key, b: Nibble, t: Tree)
    ensures forall e | e in Reported(f, Visit(p, Some(b), t)) :: e.key == p + [b] + t.path
    ensures Enters(f, Visit(p, Some(b), t)) <==> Intersects(f, p + [b] + t.path)
    ensures !Enters(f, Visit(p, Some(b), t)) ==> Reported(f, Visit(p, Some(b), t)) == []
  {
  }

  lemma NotOpen(f: Filter, q: Key, t: Tree, k: Key)
    requires !(t.path <= k)
    ensures !Open(f, q, t, k)
  {
  }

  lemma DeepEntry(f: Filter, q: Key, t: Tree, k: Key)
    requires t.path < k
    ensures var rest := k[|t.path|..];
      && (Open(f, q, t, k) <==> Intersects(f, q + t.path) && OpenBelow(f, q + t.path, t, rest))
      && (OpenBelow(f, q + t.path, t, rest) ==> Kid(t, rest[0]).Some? && Value(t, k) == Value(Kid(t, rest[0]).value, rest[1..]))
  {
    assert k[|t.path| + 1..] == k[|t.path|..][1..];
  }

  lemma OwnEntry(f: Filter, p: Key, b: Nibble, t: Tree, e: Entry)
    requires e.key == p + [b] + t.path
    ensures e in Reported(f, Visit(p, Some(b), t)) <==>
            Open(f, p + [b], t, t.path) && Value(t, t.path) == Some(e.value) && LongEnough(f, e.key)
  {
  }

  /** The walk to `key` checks its first `n` nibbles: where a path ends, and after each branch. */
  predicate Boundary(t: Tree, key: Key, n: nat)
    decreases t
  {
    var i := |t.path|;
    && t.path <= key && i <= n <= |key|
    && (n <= i + 1 || (Kid(t, key[i]).Some? && Boundary(Kid(t, key[i]).value, key[i + 1..], n - i - 1)))
  }

  lemma {:induction false} OpenAtBoundary(f: Filter, q: Key, t: Tree, k: Key, n: nat)
    requires Open(f, q, t, k)
    ensures At(t, k).Some?
    ensures Boundary(t, k, n) ==> Intersects(f, q + k[..n])
    decreases t
  {
    hide Intersects;
    var i := |t.path|;
    assert k[..i] == t.path;
    if |k| > i {
      var b, rest := k[i], k[i + 1..];
      assert k[i..][1..] == rest && k[..i + 1] == t.path + [b];
      assert q + k[..i + 1] == q + t.path + [b];
      OpenAtBoundary(f, q + t.path + [b], Kid(t, b).value, rest, if n > i then n - i - 1 else 0);
      if Boundary(t, k, n) && n > i + 1 {
        assert k[..n] == t.path + [b] + rest[..n - i - 1];
        assert q + k[..n] == q + t.path + [b] + rest[..n - i - 1];
      }
    }
  }

  ghost predicate BoundariesPass(f: Filter, q: Key, t: Tree, k: Key) {
    forall n: nat | n <= |k| && Boundary(t, k, n) :: Intersects(f, q + k[..n])
  }

  lemma {:induction false} BoundariesOpen(f: Filter, q: Key, t: Tree, k: Key)
    requires At(t, k).Some? && BoundariesPass(f, q, t, k)
    ensures Open(f, q, t, k)
    decreases t
  {
    hide Intersects;
    var i := |t.path|;
    assert Boundary(t, k, i) && k[..i] == t.path;
    if |k| > i {
      var b, rest := k[i], k[i + 1..];
      assert Boundary(t, k, i + 1) && k[..i + 1] == t.path + [b] && k[i..][1..] == rest;
      assert q + k[..i + 1] == q + t.path + [b];
      var c := Kid(t, b).value;
      forall m: nat | m <= |rest| && Boundary(c, rest, m) ensures Intersects(f, q + t.path + [b] + rest[..m]) {
        BoundaryBelow(t, k, m);
        assert k[..m + i + 1] == t.path + [b] + rest[..m];
        assert q + k[..m + i + 1] == q + t.path + [b] + rest[..m];
      }
      BoundariesOpen(f, q + t.path + [b], c, rest);
    }
  }

  lemma BoundaryBelow(t: Tree, k: Key, m: nat)
    requires t.path < k && Kid(t, k[|t.path|]).Some? && Boundary(Kid(t, k[|t.path|]).value, k[|t.path| + 1..], m)
    ensures Boundary(t, k, m + |t.path| + 1)
  {
  }

  /** A key below an empty-path root is reported exactly when it is stored, long enough, and no check on the way fails. */
  lemma ListingIs(f: Filter, root: Tree, key: Key, v: Bytes)
    requires root.path == [] && key != []
    ensures Entry(key, v) in Listing(f, root) <==>
            Value(root, key) == Some(v) && LongEnough(f, key) && AllPass(f, root, key)
  {
    hide Intersects, KidVisits, ReportedAll, Visits, Open, Boundary, At, Value, LongEnough;
    var e, b, rest := Entry(key, v), key[0], key[1..];
    RootReports(f, root);
    assert [] + key == key;
    KidsReport(f, [], root, 0, e, key);
    RootSteps(root, key);
    if OpenBelow(f, [], root, key) {
      OpenPasses(f, root, key);
    } else if Value(root, key) == Some(v) && AllPass(f, root, key) {
      PassesOpen(f, root, key);
    }
  }

  ghost predicate AllPass(f: Filter, root: Tree, key: Key) {
    forall n: nat | 0 < n <= |key| && Boundary(root, key, n) :: Intersects(f, key[..n])
  }

  lemma OpenPasses(f: Filter, root: Tree, key: Key)
    requires root.path == [] && OpenBelow(f, [], root, key)
    ensures AllPass(f, root, key)
  {
    hide Intersects, Open, Boundary, At;
    RootSteps(root, key);
    var b, rest, c := key[0], key[1..], Kid(root, key[0]).value;
    forall n: nat | 0 < n <= |key| && Boundary(root, key, n) ensures Intersects(f, key[..n]) {
      assert key[..n] == [b] + rest[..n - 1] && [] + [b] == [b];
      if n > 1 {
        OpenAtBoundary(f, [b], c, rest, n - 1);
      } else {
        assert key[..n] == [] + [b];
      }
    }
  }

  lemma PassesOpen(f: Filter, root: Tree, key: Key)
    requires root.path == [] && key != [] && At(root, key).Some? && AllPass(f, root, key)
    ensures OpenBelow(f, [], root, key)
  {
    hide Intersects, Open, Boundary, At;
    RootSteps(root, key);
    var b, rest, c := key[0], key[1..], Kid(root, key[0]).value;
    assert key[..1] == [b] == [] + [b];
    forall m: nat | m <= |rest| && Boundary(c, rest, m) ensures Intersects(f, [b] + rest[..m]) {
      BoundaryBelow(root, key, m);
      assert key[..m + 1] == [b] + rest[..m];
    }
    BoundariesOpen(f, [b], c, rest);
  }

  /** The first step below an empty-path root. */
  lemma RootSteps(root: Tree, key: Key)
    requires root.path == [] && key != []
    ensures Boundary(root, key, 1)
    ensures forall n: nat | n > 1 && Boundary(root, key, n) :: n <= |key| && Kid(root, key[0]).Some? && Boundary(Kid(root, key[0]).value, key[1..], n - 1)
    ensures At(root, key) == if Kid(root, key[0]).Some? then At(Kid(root, key[0]).value, key[1..]) else None
    ensures Value(root, key) == if Kid(root, key[0]).Some? then Value(Kid(root, key[0]).value, key[1..]) else None
    ensures Value(root, key).Some? ==> At(root, key).Some?
  {
  }

  /** GetAll reports exactly the keys other than the root's that the search finds with a value. */
  lemma GetAllReports(root: Tree, key: Key, v: Bytes)
    requires root.path == []
    ensures Entry(key, v) in Listing(GetAll, root) <==>
            key != [] && Find(root, 0, key).res == Success && Find(root, 0, key).node.value == Some(v)
  {
    hide KidVisits, Visits, Boundary, At, Find;
    FindIsAt(root, 0, key);
    assert root.path[..0] + key == key;
    if key != [] {
      ListingIs(GetAll, root, key, v);
    } else {
      RootReports(GetAll, root);
      KidsReport(GetAll, [], root, 0, Entry(key, v), key);
    }
  }

  predicate InRange(min: Key, max: Key, key: Key) {
    !Less(key, min) && Less(key, max)
  }

  /** On the way to `key` there is a prefix shorter than `min` that already differs from it. */
  ghost predicate Pruned(root: Tree, min: Key, key: Key) {
    exists n: nat :: CommonPrefix(key, min) < n < |min| && Boundary(root, key, n)
  }

  lemma {:induction false} CommonOfPrefix(key: Key, min: Key, n: nat)
    requires n <= |key|
    ensures var c := CommonPrefix(key, min); CommonPrefix(key[..n], min) == if c <= n then c else n
  {
    if n > 0 && min != [] && key[0] == min[0] {
      CommonOfPrefix(key[1..], min[1..], n - 1);
      assert key[..n][1..] == key[1..][..n - 1];
    }
  }

  /** Which prefixes of a key in the range pass the check. */
  lemma PrefixPasses(min: Key, max: Key, key: Key, n: nat)
    requires n <= |key| && InRange(min, max, key)
    ensures Intersects(RangedGet(min, max), key[..n]) <==> !(CommonPrefix(key, min) < n < |min|)
  {
    hide CommonPrefix, Less;
    var p := key[..n];
    LessByPrefix(key, min);
    LessByPrefix(p, min);
    LessByPrefix(key, max);
    LessByPrefix(p, max);
    CommonOfPrefix(key, min, n);
    CommonOfPrefix(key, max, n);
    var c := CommonPrefix(p, min);
    if c == n {
      assert p == min[..n];
    } else {
      assert c < |min| ==> p[c] != min[c];
    }
  }

  /** RangedGet reports a stored key exactly when it lies in the range and is not pruned. */
  lemma RangedGetReports(root: Tree, min: Key, max: Key, key: Key, v: Bytes)
    requires root.path == []
    ensures Entry(key, v) in Listing(RangedGet(min, max), root) <==>
            key != [] && Value(root, key) == Some(v) && InRange(min, max, key) && !Pruned(root, min, key)
  {
    hide KidVisits, Visits, Boundary, At, Less;
    var f := RangedGet(min, max);
    if key == [] {
      RootReports(f, root);
      KidsReport(f, [], root, 0, Entry(key, v), key);
      return;
    }
    ListingIs(f, root, key, v);
    if InRange(min, max, key) {
      forall n: nat | n <= |key| ensures Intersects(f, key[..n]) <==> !(CommonPrefix(key, min) < n < |min|) {
        PrefixPasses(min, max, key, n);
      }
      if Pruned(root, min, key) {
        var n: nat :| CommonPrefix(key, min) < n < |min| && Boundary(root, key, n);
        BoundaryIsShort(root, key, n);
      }
    }
    if Value(root, key).Some? {
      WholeKeyIsBoundary(root, key);
      LessByPrefix(key, min);
      assert key[..|key|] == key;
    }
  }

  /** In particular nothing of the range is lost among the keys that agree with `min` up to its last nibble. */
  lemma RangedGetCoversAgreeing(root: Tree, min: Key, max: Key, key: Key, v: Bytes)
    requires root.path == [] && InRange(min, max, key) && key != []
    requires CommonPrefix(key, min) + 1 >= |min|
    ensures Entry(key, v) in Listing(RangedGet(min, max), root) <==> Value(root, key) == Some(v)
  {
    RangedGetReports(root, min, max, key, v);
  }

  /** The range from [1,0] to [3,0] misses the stored key [2,0]. */
  lemma RangedGetCanMissAKey()
    ensures var root := Tree([], None, 0, SetKid(NoKids(), 2, Tree([0], Some([7]), 0, NoKids())));
            && Value(root, [2, 0]) == Some([7]) && InRange([1, 0], [3, 0], [2, 0])
            && Entry([2, 0], [7]) !in Listing(RangedGet([1, 0], [3, 0]), root)
  {
    hide Listing;
    var leaf := Tree([0], Some([7]), 0, NoKids());
    var root := Tree([], None, 0, SetKid(NoKids(), 2, leaf));
    var key, min: Key := [2, 0], [1, 0];
    assert Kid(root, 2) == Some(leaf) && key[1..] == [0];
    RootSteps(root, key);
    assert CommonPrefix(key, min) == 0;
    assert Pruned(root, min, key);
    RangedGetReports(root, min, [3, 0], key, [7]);
  }

  lemma BoundaryIsShort(t: Tree, key: Key, n: nat)
    requires Boundary(t, key, n)
    ensures n <= |key|
  {
  }

  lemma {:induction false} WholeKeyIsBoundary(t: Tree, key: Key)
    requires At(t, key).Some?
    ensures Boundary(t, key, |key|)
    decreases t
  {
    if |key| > |t.path| {
      WholeKeyIsBoundary(Kid(t, key[|t.path|]).value, key[|t.path| + 1..]);
    }
  }
}
