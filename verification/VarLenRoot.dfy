/** What the hash of a trie with values at inner nodes is taken of, and of which pairs that is the root
    (Ethereum Yellow Paper, Appendix D). */
module VarLenRoot {
  import opened Trie
  import opened Rlp
  import opened RlpItems
  import opened MerkleSpec
  import opened VarLenSpec

  /** The only child of a root, one nibble further up. */
  function Raised(t: Tree, b: Nibble): Tree
    requires Kid(t, b).Some?
  {
    var c := Kid(t, b).value;
    c.(path := [b] + c.path)
  }

  /** What the hash of a trie is taken of. */
  ghost function RootPreimage(h: Scheme, t: Tree): Bytes {
    if exists b: Nibble :: IsSole(t, b) then
      var b: Nibble :| IsSole(t, b);
      ValuedRlp(h, Raised(t, b))
    else
      ValuedBranch(h, t)
  }

  /** The root's own pair: an empty value is none. */
  predicate HasOwn(t: Tree) {
    t.value.Some? && t.value.value != []
  }

  /** What the trie below a root holds at a key; the path of the root is not looked at. */
  ghost function RootHeld(h: Scheme, t: Tree, key: Key): Option<Bytes> {
    if key != [] then HeldBelow(h, t, key)
    else if HasOwn(t) then Some(Processed(h, t.value.value))
    else None
  }

  /** The pairs of a root are the values the lookup finds. */
  lemma RootHeldIsFound(h: Scheme, t: Tree, key: Key)
    ensures RootHeld(h, t, key) == match At(t, t.path + key)
      case None => None
      case Some(n) => if (if key == [] then HasOwn(n) else Counts(n)) then Some(PairValue(h, n)) else None
  {
    hide HeldBelow, Counts;
    assert t.path + [] == t.path && (t.path + key)[|t.path|..] == key;
    HeldIsFound(h, t, t.path + key);
  }

  ghost predicate RootStores(h: Scheme, t: Tree, m: Pairs) {
    forall k :: if k in m then RootHeld(h, t, k) == Some(m[k]) else RootHeld(h, t, k) == None
  }

  /** Like a proper trie, but the topmost node may hide a branch with a value behind its path. */
  ghost predicate ProperBelow(t: Tree, len: nat) {
    && (t.value.Some? || Forks(t)) && |t.path| <= len
    && (HasKids(t) ==> |t.path| < len && KidsProper(t, len - |t.path|))
  }

  ghost predicate RootProper(t: Tree, len: nat) {
    && 0 < len < LEAF_LIMIT && HasKids(t)
    && (Forks(t) ==> KidsProper(t, len))
    && forall b: Nibble | IsSole(t, b) :: ProperBelow(Raised(t, b), len)
  }

  /** A node that would hide a branch with a value behind its path. */
  predicate Marked(t: Tree) {
    t.path != [] && t.value.Some? && HasKids(t)
  }

  /** The root forks, or it has no pair of its own and its only child does not have both a value and children. */
  ghost predicate HashedAsStandard(t: Tree) {
    Forks(t) || (!HasOwn(t) && forall b: Nibble | IsSole(t, b) :: !Marked(Raised(t, b)))
  }

  lemma SoleOrForks(t: Tree) returns (b: Nibble)
    requires HasKids(t) && !Forks(t)
    ensures IsSole(t, b) && forall a: Nibble | IsSole(t, a) :: a == b
  {
    b :| Kid(t, b).Some?;
    forall a: Nibble | a != b ensures Kid(t, a).None? {
      assert a < b || b < a;
    }
  }

  lemma ForksNotSole(t: Tree)
    requires Forks(t)
    ensures HasKids(t) && forall b: Nibble :: !IsSole(t, b)
  {
  }

  lemma PreimageOfSole(h: Scheme, t: Tree, b: Nibble)
    requires IsSole(t, b)
    ensures RootPreimage(h, t) == ValuedRlp(h, Raised(t, b))
  {
    hide ValuedRlp, ValuedBranch;
    assert forall a: Nibble | IsSole(t, a) :: a == b;
  }

  /** One node, whatever is marked at it: its encoding is the composition of its pairs unless it hides a branch with a
      value behind a path. */
  lemma ValuedIsCompositionIff(h: Scheme, t: Tree, m: Pairs, len: nat)
    requires ProperBelow(t, len) && Stores(h, t, m) && |t.path| < LEAF_LIMIT
    ensures Lengths(m, len) && m != map[]
    ensures ValuedRlp(h, t) == Composition(h, m, len) <==> !Marked(t)
  {
    hide Composition, ValuedBranch, TwoPieces, Reference, Stores, KidsProper;
    if !HasKids(t) {
      LoneLeaf(h, t, m, len);
    } else {
      InnerComposition(h, t, m, len);
      if Marked(t) {
        PiecesTellKind(t.path, Reference(h, ValuedBranch(h, t)));
      }
    }
  }

  /** A root that forks is hashed as the branch of its pairs, its own among them. */
  lemma ForkedRoot(h: Scheme, t: Tree, m: Pairs, len: nat)
    requires Forks(t) && len > 0 && KidsProper(t, len) && RootStores(h, t, m)
    ensures Lengths(m, len) && m != map[] && RootPreimage(h, t) == Composition(h, m, len)
  {
    hide Strip, Lead, ValuedBranch, CompositionBranch, Composition, KidsProper, HeldBelow;
    ForksNotSole(t);
    assert StoresBelow(h, t, m) by {
      OwnAtFork(h, t);
    }
    hide RootStores, StoresBelow;
    ValuedBranchIsComposition(h, t, m, len);
    var k, l := TwoKeys(h, t, m, len);
    LeadIs(m, len, [], k, l);
    SamePairs(m, Strip(m, []));
    CompositionCases(h, m, len, []);
  }

  lemma OwnAtFork(h: Scheme, t: Tree)
    requires Forks(t)
    ensures forall k :: RootHeld(h, t, k) == HeldBelow(h, t, k)
  {
  }

  /** The pairs below a root are those of its only child one nibble further up. */
  lemma RaisedStores(h: Scheme, t: Tree, m: Pairs, b: Nibble)
    requires IsSole(t, b) && RootStores(h, t, m)
    ensures Stores(h, Raised(t, b), m - {[]})
  {
    var c, u := Kid(t, b).value, Raised(t, b);
    forall k: Key ensures Held(h, u, k) == if k == [] then None else HeldBelow(h, t, k) {
      if k != [] && k[0] == b {
        assert k == [b] + k[1..];
        assert u.path <= k <==> c.path <= k[1..];
        SameHeldBelow(h, c, u);
        if u.path <= k {
          assert k[|u.path|..] == k[1..][|c.path|..];
        }
      } else {
        assert !(u.path <= k);
      }
    }
    hide Held, HeldBelow;
    forall k: Key ensures if k in m - {[]} then Held(h, u, k) == Some((m - {[]})[k]) else Held(h, u, k) == None {
      assert if k in m then RootHeld(h, t, k) == Some(m[k]) else RootHeld(h, t, k) == None;
    }
  }

  lemma SameHeldBelow(h: Scheme, t: Tree, u: Tree)
    requires u == t.(path := u.path)
    ensures forall k :: HeldBelow(h, t, k) == HeldBelow(h, u, k)
  {
    assert forall b: Nibble :: Kid(t, b) == Kid(u, b);
    assert HasKids(t) <==> HasKids(u);
    assert Forks(t) <==> Forks(u);
  }

  /** With one branch, what is hashed is the composition of the pairs below the root, unless the only child has both a
      value and children. */
  lemma SoleRootIff(h: Scheme, t: Tree, m: Pairs, len: nat, b: Nibble)
    requires RootProper(t, len) && RootStores(h, t, m) && IsSole(t, b)
    ensures Lengths(m - {[]}, len) && m - {[]} != map[]
    ensures RootPreimage(h, t) == Composition(h, m - {[]}, len) <==> !Marked(Raised(t, b))
  {
    hide Composition, ValuedRlp, Stores, RootStores, RootPreimage, Marked;
    RaisedStores(h, t, m, b);
    PreimageOfSole(h, t, b);
    ValuedIsCompositionIff(h, Raised(t, b), m - {[]}, len);
  }

  /** What a sole child is hashed to behind its path is a list of two items. */
  lemma RaisedItems(h: Scheme, t: Tree) returns (content: Bytes)
    requires t.path != [] && |t.path| < LEAF_LIMIT
    ensures ValuedRlp(h, t) == EncodeList(content) && |content| < SIZE_MAX && Items(content) == Some(2)
  {
    hide TwoPieces, EncodeList, Items, ValuedSlots, ValueItem, Processed;
    if HasKids(t) {
      var inner := ValuedSlots(h, t, BRANCHES) + ValueItem(h, t.value);
      content := PiecesItems(t.path, Reference(h, EncodeList(inner)), t.value.Some?, inner);
    } else {
      content := PiecesItems(t.path, Processed(h, if t.value.Some? then t.value.value else []), true, []);
    }
  }

  /** A pair at the empty key makes the composition of several pairs a branch. */
  lemma OwnMakesBranch(h: Scheme, m: Pairs, len: nat, l: Key)
    requires Lengths(m, len) && [] in m && l in m && l != [] && len > 0
    ensures m != map[] && Composition(h, m, len) == CompositionBranch(h, m, len)
  {
    hide Strip, Lead, CompositionBranch, Composition;
    LeadIs(m, len, [], [], l);
    SamePairs(m, Strip(m, []));
    CompositionCases(h, m, len, []);
  }

  /** With one branch, the root's own pair is not hashed. */
  lemma OwnIsDropped(h: Scheme, t: Tree, m: Pairs, len: nat, b: Nibble)
    requires RootProper(t, len) && RootStores(h, t, m) && IsSole(t, b) && HasOwn(t)
    ensures Lengths(m, len) && m != map[] && RootPreimage(h, t) != Composition(h, m, len)
  {
    hide Composition, CompositionBranch, ValuedRlp, HeldBelow, EncodeList, Items, Marked, RootPreimage, KidsProper, Processed;
    assert if [] in m then RootHeld(h, t, []) == Some(m[[]]) else RootHeld(h, t, []) == None;
    hide RootStores;
    SoleRootIff(h, t, m, len, b);
    var l :| l in m - {[]};
    assert Lengths(m, len) by {
      forall k | k in m ensures |k| <= len {
        assert k == [] || k in m - {[]};
      }
    }
    OwnMakesBranch(h, m, len, l);
    PreimageOfSole(h, t, b);
    var two := RaisedItems(h, Raised(t, b));
    var all := SeventeenItems(h, m, len);
    ListsDiffer(two, all);
  }

  /** The hash of a trie is the root of its pairs if and only if the root forks, or has no pair of its own and no only
      child with a value and children. */
  lemma RootIsCompositionIff(h: Scheme, t: Tree, m: Pairs, len: nat)
    requires RootProper(t, len) && RootStores(h, t, m)
    ensures Lengths(m, len) && m != map[]
    ensures RootPreimage(h, t) == Composition(h, m, len) <==> HashedAsStandard(t)
  {
    hide Composition, RootPreimage, RootStores, KidsProper, Marked;
    if Forks(t) {
      ForkedRoot(h, t, m, len);
    } else {
      var b := SoleOrForks(t);
      if HasOwn(t) {
        OwnIsDropped(h, t, m, len, b);
      } else {
        NoOwnPair(h, t, m);
        SoleRootIff(h, t, m, len, b);
      }
    }
  }

  lemma NoOwnPair(h: Scheme, t: Tree, m: Pairs)
    requires RootStores(h, t, m) && !HasOwn(t)
    ensures m - {[]} == m
  {
    assert [] !in m by {
      assert RootHeld(h, t, []) == None;
    }
  }

  function Leaf(value: Bytes): Tree {
    Tree([], Some(value), 0, [])
  }

  /** A node with one leaf below it. */
  function Over(b: Nibble, c: Tree, value: Option<Bytes>): Tree {
    Tree([], value, 0, seq(b, i => None) + [Some(c)])
  }

  lemma LeafHolds(h: Scheme, value: Bytes, key: Key)
    ensures Held(h, Leaf(value), key) == if key == [] then Some(Processed(h, value)) else None
    ensures !HasKids(Leaf(value)) && Proper(Leaf(value), 0)
  {
  }

  lemma OverHas(b: Nibble, c: Tree, value: Option<Bytes>)
    ensures var t := Over(b, c, value);
            IsSole(t, b) && HasKids(t) && !Forks(t) && forall a: Nibble :: Kid(t, a) == if a == b then Some(c) else None
  {
    assert Kid(Over(b, c, value), b) == Some(c);
  }

  lemma OverHolds(h: Scheme, b: Nibble, c: Tree, value: Option<Bytes>, key: Key)
    requires key != []
    ensures HeldBelow(h, Over(b, c, value), key) == if key[0] == b then Held(h, c, key[1..]) else None
  {
    hide Over, Held;
    OverHas(b, c, value);
  }

  /** A root with a value over one leaf: the value is not hashed. */
  lemma RootValueIsDropped(h: Scheme)
    ensures var t := Over(4, Leaf([9]), Some([7]));
            var m: Pairs := map[[] := Processed(h, [7]), [4] := Processed(h, [9])];
            RootProper(t, 1) && RootStores(h, t, m) && Lengths(m, 1) && m != map[] && RootPreimage(h, t) != Composition(h, m, 1)
  {
    hide Composition, RootPreimage, Held, HeldBelow, Processed, Proper;
    var leaf, t := Leaf([9]), Over(4, Leaf([9]), Some([7]));
    var m: Pairs := map[[] := Processed(h, [7]), [4] := Processed(h, [9])];
    OverHas(4, leaf, Some([7]));
    LeafHolds(h, [9], []);
    assert t.value == Some([7]);
    hide Over;
    forall b: Nibble ensures Kid(Raised(t, 4), b).None? {
      assert Kid(Raised(t, 4), b) == Kid(leaf, b);
    }
    assert RootProper(t, 1);
    forall k: Key ensures if k in m then RootHeld(h, t, k) == Some(m[k]) else RootHeld(h, t, k) == None {
      if k != [] {
        OverHolds(h, 4, leaf, Some([7]), k);
        LeafHolds(h, [9], k[1..]);
        assert k == [4] <==> k[0] == 4 && k[1..] == [];
      }
    }
    RootIsCompositionIff(h, t, m, 1);
  }

  /** Keys 4 and 4 0: the only child has a value and children, and is marked as a leaf. */
  lemma OnlyChildIsMarked(h: Scheme)
    ensures var t := Over(4, Over(0, Leaf([9]), Some([7])), None);
            var m: Pairs := map[[4] := Processed(h, [7]), [4, 0] := Processed(h, [9])];
            RootProper(t, 2) && RootStores(h, t, m) && Lengths(m, 2) && m != map[] && RootPreimage(h, t) != Composition(h, m, 2)
  {
    hide Composition, RootPreimage, Held, HeldBelow, Processed, Proper;
    var leaf, c := Leaf([9]), Over(0, Leaf([9]), Some([7]));
    var t, u := Over(4, c, None), Raised(Over(4, c, None), 4);
    var m: Pairs := map[[4] := Processed(h, [7]), [4, 0] := Processed(h, [9])];
    OverHas(4, c, None);
    OverHas(0, leaf, Some([7]));
    LeafHolds(h, [9], []);
    forall b: Nibble ensures Kid(u, b) == Kid(c, b) {
    }
    assert t.value == None;
    hide Over;
    assert Kid(u, 0).Some?;
    assert RootProper(t, 2);
    forall k: Key ensures if k in m then RootHeld(h, t, k) == Some(m[k]) else RootHeld(h, t, k) == None {
      if k != [] {
        OverHolds(h, 4, c, None, k);
        TwoDeepHolds(h, k[1..]);
        assert k == [4] <==> k[0] == 4 && k[1..] == [];
        assert k == [4, 0] <==> k[0] == 4 && k[1..] == [0];
      }
    }
    RootIsCompositionIff(h, t, m, 2);
  }

  lemma TwoDeepHolds(h: Scheme, key: Key)
    ensures Held(h, Over(0, Leaf([9]), Some([7])), key)
         == if key == [] then Some(Processed(h, [7])) else if key == [0] then Some(Processed(h, [9])) else None
  {
    hide HeldBelow, Processed;
    var c := Over(0, Leaf([9]), Some([7]));
    assert c.path == [] && key[0..] == key;
    OverHas(0, Leaf([9]), Some([7]));
    if key == [] {
      assert HeldBelow(h, c, []) == Some(Processed(h, [7])) by {
        OwnHeld(h, c);
      }
    } else {
      OverHolds(h, 0, Leaf([9]), Some([7]), key);
      LeafHolds(h, [9], key[1..]);
      assert key == [key[0]] + key[1..];
    }
  }

  lemma OwnHeld(h: Scheme, t: Tree)
    requires HasOwn(t)
    ensures HeldBelow(h, t, []) == Some(Processed(h, t.value.value))
  {
  }
}
