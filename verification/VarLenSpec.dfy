/** What nodes of a trie with values at inner nodes are hashed to, and when that is the composition function of the
    pairs they hold (Ethereum Yellow Paper, Appendix D). */
module VarLenSpec {
  import opened Trie
  import opened Rlp
  import opened MerkleSpec

  /** A value as it goes into the trie. */
  function Processed(h: Scheme, value: Bytes): LeafData {
    h.leaf(value, [])
  }

  function ValueItem(h: Scheme, value: Option<Bytes>): Bytes {
    if value.Some? && value.value != [] then EncodeString(Processed(h, value.value)) else NO_ITEM
  }

  /** The items of the first `n` branches. */
  ghost function ValuedSlots(h: Scheme, t: Tree, n: nat): Bytes
    requires n <= BRANCHES
    decreases t, 0, n
  {
    if n == 0 then []
    else
      ValuedSlots(h, t, n - 1) +
      match Kid(t, n - 1)
      case None => NO_ITEM
      case Some(c) => Item(Reference(h, ValuedRlp(h, c)))
  }

  ghost function ValuedBranch(h: Scheme, t: Tree): Bytes
    decreases t, 1
  {
    EncodeList(ValuedSlots(h, t, BRANCHES) + ValueItem(h, t.value))
  }

  /** What a node is encoded to: a leaf, something that hides a branch behind a path, or a branch. */
  ghost function ValuedRlp(h: Scheme, t: Tree): Bytes
    decreases t, 2
  {
    if !HasKids(t) then TwoPieces(t.path, Processed(h, if t.value.Some? then t.value.value else []), true)
    else if t.path != [] then TwoPieces(t.path, Reference(h, ValuedBranch(h, t)), t.value.Some?)
    else ValuedBranch(h, t)
  }

  /** An empty value where a node branches is no pair: it only stands for what is nested there. */
  ghost predicate Counts(t: Tree) {
    t.value.Some? && (t.value.value != [] || !Forks(t))
  }

  /** An empty value at an inner node is not processed. */
  ghost function PairValue(h: Scheme, t: Tree): Bytes
    requires t.value.Some?
  {
    if HasKids(t) && t.value.value == [] then [] else Processed(h, t.value.value)
  }

  /** What the trie at `t` holds at a key. */
  ghost function Held(h: Scheme, t: Tree, key: Key): Option<Bytes>
    decreases t, 1
  {
    if t.path <= key then HeldBelow(h, t, key[|t.path|..]) else None
  }

  ghost function HeldBelow(h: Scheme, t: Tree, rest: Key): Option<Bytes>
    decreases t, 0
  {
    if rest == [] then if Counts(t) then Some(PairValue(h, t)) else None
    else
      match Kid(t, rest[0])
      case None => None
      case Some(c) => Held(h, c, rest[1..])
  }

  /** Every node has a value or at least two branches, no key is longer than `len`, and no node hides a branch with a
      value behind a path. */
  ghost predicate Proper(t: Tree, len: nat)
    decreases t, 1
  {
    && (t.value.Some? || Forks(t)) && |t.path| <= len
    && (HasKids(t) ==> |t.path| < len && (t.path == [] || t.value.None?) && KidsProper(t, len - |t.path|))
  }

  ghost predicate KidsProper(t: Tree, len: nat)
    requires len > 0
    decreases t, 0
  {
    forall b: Nibble | Kid(t, b).Some? :: Proper(Kid(t, b).value, len - 1)
  }

  ghost predicate Stores(h: Scheme, t: Tree, m: Pairs) {
    forall k :: if k in m then Held(h, t, k) == Some(m[k]) else Held(h, t, k) == None
  }

  ghost predicate StoresBelow(h: Scheme, t: Tree, m: Pairs) {
    forall k :: if k in m then HeldBelow(h, t, k) == Some(m[k]) else HeldBelow(h, t, k) == None
  }

  /** The pairs are the values the lookup finds. */
  lemma {:induction false} HeldIsFound(h: Scheme, t: Tree, key: Key)
    ensures Held(h, t, key) == match At(t, key)
      case None => None
      case Some(n) => if Counts(n) then Some(PairValue(h, n)) else None
    decreases t
  {
    hide PairValue, Counts;
    if t.path <= key && |t.path| < |key| {
      var rest := key[|t.path|..];
      assert rest[1..] == key[|t.path| + 1..];
      if Kid(t, rest[0]).Some? {
        HeldIsFound(h, Kid(t, rest[0]).value, rest[1..]);
      }
    }
  }

  lemma KidHolds(h: Scheme, t: Tree, m: Pairs, b: Nibble)
    requires StoresBelow(h, t, m)
    ensures Kid(t, b).Some? ==> Stores(h, Kid(t, b).value, Strip(m, [b]))
    ensures Kid(t, b).None? ==> Strip(m, [b]) == map[]
  {
    forall k: Key
      ensures k in Strip(m, [b]) ==> Kid(t, b).Some? && Held(h, Kid(t, b).value, k) == Some(Strip(m, [b])[k])
      ensures k !in Strip(m, [b]) && Kid(t, b).Some? ==> Held(h, Kid(t, b).value, k) == None
    {
      StripHas(m, [b], k);
      assert ([b] + k)[1..] == k;
      assert [b] + k in m ==> HeldBelow(h, t, [b] + k) == Some(m[[b] + k]);
      assert [b] + k !in m ==> HeldBelow(h, t, [b] + k) == None;
    }
  }

  /** The encoding of a node is the composition function of the pairs it holds. */
  lemma {:induction false} ValuedIsComposition(h: Scheme, t: Tree, m: Pairs, len: nat)
    requires Proper(t, len) && Stores(h, t, m)
    ensures Lengths(m, len) && m != map[] && ValuedRlp(h, t) == Composition(h, m, len)
    decreases t, 1
  {
    hide Strip, Lead, ValuedBranch, CompositionBranch, TwoPieces, Reference, Composition, Stores, StoresBelow, Held, HeldBelow;
    if !HasKids(t) {
      LoneLeaf(h, t, m, len);
    } else {
      InnerComposition(h, t, m, len);
    }
  }

  /** What the composition function gives for the pairs of an inner node: its branch, behind its path. */
  lemma {:induction false} InnerComposition(h: Scheme, t: Tree, m: Pairs, len: nat)
    requires HasKids(t) && (t.value.Some? || Forks(t)) && |t.path| < len && KidsProper(t, len - |t.path|) && Stores(h, t, m)
    ensures Lengths(m, len) && Many(m)
    ensures Composition(h, m, len)
         == if t.path != [] then TwoPieces(t.path, Reference(h, ValuedBranch(h, t)), false) else ValuedBranch(h, t)
    decreases t, 0, BRANCHES + 2
  {
    hide Strip, Lead, ValuedBranch, CompositionBranch, TwoPieces, Reference, Composition, Stores, StoresBelow, Held, HeldBelow;
    var m' := Strip(m, t.path);
    BelowPath(h, t, m);
    ValuedBranchIsComposition(h, t, m', len - |t.path|);
    LongerBy(m, t.path, len);
    var k, l := TwoKeys(h, t, m', len - |t.path|);
    StripHas(m, t.path, k);
    StripHas(m, t.path, l);
    LeadIs(m, len, t.path, t.path + k, t.path + l);
    assert (t.path + k)[|t.path|..] == k && (t.path + l)[|t.path|..] == l;
    CompositionCases(h, m, len, t.path);
  }

  lemma ForkHasKids(t: Tree)
    ensures Forks(t) ==> HasKids(t)
  {
  }

  lemma NothingBelow(h: Scheme, t: Tree, rest: Key)
    requires !HasKids(t) && HeldBelow(h, t, rest).Some?
    ensures rest == []
  {
  }

  lemma LoneLeaf(h: Scheme, t: Tree, m: Pairs, len: nat)
    requires Proper(t, len) && !HasKids(t) && Stores(h, t, m)
    ensures Lengths(m, len) && m != map[] && ValuedRlp(h, t) == Composition(h, m, len)
  {
    hide Strip, Lead, CompositionBranch, TwoPieces, Reference;
    ForkHasKids(t);
    assert t.path[|t.path|..] == [];
    assert Held(h, t, t.path) == Some(Processed(h, t.value.value));
    assert if t.path in m then Held(h, t, t.path) == Some(m[t.path]) else Held(h, t, t.path) == None;
    forall k | k in m ensures k == t.path {
      assert Held(h, t, k).Some?;
      NothingBelow(h, t, k[|t.path|..]);
      assert k == t.path + k[|t.path|..];
    }
  }

  lemma BelowPath(h: Scheme, t: Tree, m: Pairs)
    requires Stores(h, t, m)
    ensures StoresBelow(h, t, Strip(m, t.path)) && forall k | k in m :: t.path <= k
  {
    var m' := Strip(m, t.path);
    forall k: Key ensures if k in m' then HeldBelow(h, t, k) == Some(m'[k]) else HeldBelow(h, t, k) == None {
      StripHas(m, t.path, k);
      assert (t.path + k)[|t.path|..] == k && t.path <= t.path + k;
      assert Held(h, t, t.path + k) == HeldBelow(h, t, k);
    }
    forall k | k in m ensures t.path <= k {
      assert Held(h, t, k).Some?;
    }
  }

  lemma LongerBy(m: Pairs, p: Key, len: nat)
    requires |p| <= len && Lengths(Strip(m, p), len - |p|) && forall k | k in m :: p <= k
    ensures Lengths(m, len)
  {
    forall k | k in m ensures |k| <= len {
      assert p + k[|p|..] == k;
      StripHas(m, p, k[|p|..]);
    }
  }

  /** The node's own pair and one below it, or two that part at its branches. */
  lemma TwoKeys(h: Scheme, t: Tree, m: Pairs, len: nat) returns (k: Key, l: Key)
    requires HasKids(t) && (t.value.Some? || Forks(t)) && StoresBelow(h, t, m)
    requires forall b: Nibble | Kid(t, b).Some? :: Strip(m, [b]) != map[]
    ensures k in m && l in m && l != [] && (k == [] || k[0] != l[0]) && k != l
  {
    var a: Nibble, b: Nibble :| Kid(t, b).Some? && (Counts(t) || (Kid(t, a).Some? && a != b));
    var y :| y in Strip(m, [b]);
    StripHas(m, [b], y);
    l := [b] + y;
    if Counts(t) {
      assert HeldBelow(h, t, []).Some?;
      k := [];
    } else {
      var x :| x in Strip(m, [a]);
      StripHas(m, [a], x);
      k := [a] + x;
    }
  }

  lemma {:induction false} ValuedBranchIsComposition(h: Scheme, t: Tree, m: Pairs, len: nat)
    requires len > 0 && HasKids(t) && KidsProper(t, len) && StoresBelow(h, t, m)
    ensures Lengths(m, len) && ValuedBranch(h, t) == CompositionBranch(h, m, len)
    ensures forall b: Nibble | Kid(t, b).Some? :: Strip(m, [b]) != map[]
    decreases t, 0, BRANCHES + 1
  {
    hide Strip, Composition, CompositionSlots, ValuedRlp, ValuedSlots, Stores, Proper, Held;
    forall b: Nibble | Kid(t, b).Some? ensures Strip(m, [b]) != map[] && Lengths(Strip(m, [b]), len - 1) {
      KidHolds(h, t, m, b);
      ValuedIsComposition(h, Kid(t, b).value, Strip(m, [b]), len - 1);
    }
    forall k | k in m ensures |k| <= len {
      assert HeldBelow(h, t, k).Some?;
      if k != [] {
        StripHas(m, [k[0]], k[1..]);
        assert [k[0]] + k[1..] == k;
      }
    }
    ValuedSlotsAreComposition(h, t, m, len, BRANCHES);
    OwnItem(h, t, m);
  }

  lemma OwnItem(h: Scheme, t: Tree, m: Pairs)
    requires StoresBelow(h, t, m) && HasKids(t)
    ensures ValueItem(h, t.value) == if [] in m then EncodeString(m[[]]) else NO_ITEM
  {
    assert if [] in m then HeldBelow(h, t, []) == Some(m[[]]) else HeldBelow(h, t, []) == None;
    assert EncodeString([]) == NO_ITEM;
  }

  lemma {:induction false} ValuedSlotsAreComposition(h: Scheme, t: Tree, m: Pairs, len: nat, n: nat)
    requires len > 0 && KidsProper(t, len) && StoresBelow(h, t, m) && Lengths(m, len) && n <= BRANCHES
    ensures ValuedSlots(h, t, n) == CompositionSlots(h, m, len, n)
    decreases t, 0, n
  {
    hide Strip, Composition, ValuedRlp, Reference, Item, StoresBelow, Stores, Proper, Lengths;
    if n > 0 {
      StripLengths(m, [n - 1], len);
      ValuedSlotsAreComposition(h, t, m, len, n - 1);
      KidHolds(h, t, m, n - 1);
      if Kid(t, n - 1).Some? {
        ValuedIsComposition(h, Kid(t, n - 1).value, Strip(m, [n - 1]), len - 1);
      }
    }
  }
}
