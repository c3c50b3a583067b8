/** What a node is hashed to, and that it is the root of a Merkle-Patricia tree over the keys below the node
    (Ethereum Yellow Paper, Appendix D). Keys have one length, as state and storage tries have. */
module MerkleSpec {
  import opened Trie
  import opened Rlp

  const KECCAK256_SIZE := 32

  type Hash = b: seq<Byte> | |b| == KECCAK256_SIZE witness seq(KECCAK256_SIZE, i => 0)

  const LEAF_LIMIT := 0x1_0000_0000_0000

  type LeafData = b: seq<Byte> | |b| < LEAF_LIMIT witness []

  /** The hash function, and what a leaf holds given the value and the data of its node. */
  datatype Scheme = Scheme(keccak: Bytes -> Hash, leaf: (Bytes, Bytes) -> LeafData)

  /** A short encoding stands for itself, a long one is hashed. */
  function Reference(h: Scheme, rlp: Bytes): (r: Bytes)
    ensures |r| == if |rlp| < KECCAK256_SIZE then |rlp| else KECCAK256_SIZE
    ensures if |r| < KECCAK256_SIZE then r == rlp else r == h.keccak(rlp)
  {
    if |rlp| >= KECCAK256_SIZE then h.keccak(rlp) else rlp
  }

  /** A hash is an item of its own; a short encoding is one already. */
  function Item(reference: Bytes): Bytes {
    if |reference| < KECCAK256_SIZE then reference else EncodeString(reference)
  }

  const NO_ITEM: Bytes := [RLP_EMPTY_STRING]

  /** A leaf or an extension. */
  function TwoPieces(path: Key, second: Bytes, terminating: bool): Bytes {
    EncodeList(EncodeString(CompactEncode(path, terminating)) + if terminating then EncodeString(second) else Item(second))
  }

  /** The items of the first `n` branches of a node. */
  ghost function Slots(h: Scheme, t: Tree, n: nat): Bytes
    requires n <= BRANCHES
    decreases t, 0, n
  {
    if n == 0 then []
    else
      Slots(h, t, n - 1) +
      match Kid(t, n - 1)
      case None => NO_ITEM
      case Some(c) => Item(Reference(h, NodeRlp(h, c, c.path)))
  }

  ghost function BranchRlp(h: Scheme, t: Tree): Bytes
    decreases t, 1
  {
    EncodeList(Slots(h, t, BRANCHES) + NO_ITEM)
  }

  predicate IsSole(t: Tree, b: Nibble) {
    Kid(t, b).Some? && forall c: Nibble | c != b :: Kid(t, c).None?
  }

  predicate HasKids(t: Tree) {
    exists b: Nibble :: Kid(t, b).Some?
  }

  /** The encoding of the root of the trie formed by the branches of a node. */
  ghost function TrieRlp(h: Scheme, t: Tree): Bytes
    decreases t, 2
  {
    if exists b: Nibble :: IsSole(t, b) then
      var b: Nibble :| IsSole(t, b);
      var c := Kid(t, b).value;
      NodeRlp(h, c, [b] + c.path)
    else
      BranchRlp(h, t)
  }

  /** The data kept in a node: the root hash of the trie below a value. */
  ghost function Data(h: Scheme, t: Tree): Bytes
    decreases t, 3
  {
    if t.value.Some? && HasKids(t) then h.keccak(TrieRlp(h, t)) else []
  }

  /** The encoding of a node reached by `path`. */
  ghost function NodeRlp(h: Scheme, t: Tree, path: Key): Bytes
    decreases t, 4
  {
    if t.value.Some? then TwoPieces(path, h.leaf(t.value.value, Data(h, t)), true)
    else if path != [] then TwoPieces(path, Reference(h, BranchRlp(h, t)), false)
    else BranchRlp(h, t)
  }

  /** What the trie at `t` holds at a key: a leaf ends it, whatever is nested below. */
  ghost function Entry(h: Scheme, t: Tree, key: Key): Option<Bytes>
    decreases t
  {
    if !(t.path <= key) then None
    else if t.value.Some? then if key == t.path then Some(h.leaf(t.value.value, Data(h, t))) else None
    else Below(h, t, key[|t.path|..])
  }

  /** What the branches of a node hold at the rest of a key. */
  ghost function Below(h: Scheme, t: Tree, rest: Key): Option<Bytes>
    decreases t, 0
  {
    if rest == [] then None
    else
      match Kid(t, rest[0])
      case None => None
      case Some(c) => Entry(h, c, rest[1..])
  }

  /** The entries are the values that the lookup finds, each as a leaf. */
  lemma {:induction false} EntryIsFound(h: Scheme, t: Tree, len: nat, key: Key)
    requires Uniform(t, len) && |key| == len
    ensures Entry(h, t, key) == match At(t, key)
      case None => None
      case Some(n) => if n.value.Some? then Some(h.leaf(n.value.value, Data(h, n))) else None
    decreases t
  {
    hide Data;
    if t.path <= key && t.value.None? {
      var rest := key[|t.path|..];
      assert rest[1..] == key[|t.path| + 1..];
      if Kid(t, rest[0]).Some? {
        EntryIsFound(h, Kid(t, rest[0]).value, len - |t.path| - 1, rest[1..]);
      }
    }
  }

  /** Every node that is no leaf has at least two branches. */
  ghost predicate Canonical(t: Tree)
    decreases t, 1
  {
    t.value.Some? || (Forks(t) && KidsCanonical(t))
  }

  ghost predicate Forks(t: Tree) {
    exists a: Nibble, b: Nibble :: a < b && Kid(t, a).Some? && Kid(t, b).Some?
  }

  ghost predicate KidsCanonical(t: Tree)
    decreases t, 0
  {
    forall b: Nibble | Kid(t, b).Some? :: Canonical(Kid(t, b).value)
  }

  /** All keys are `len` nibbles long. */
  ghost predicate Uniform(t: Tree, len: nat)
    decreases t, 1
  {
    if t.value.Some? then |t.path| == len
    else |t.path| < len && KidsUniform(t, len - |t.path|)
  }

  ghost predicate KidsUniform(t: Tree, len: nat)
    requires len > 0
    decreases t, 0
  {
    forall b: Nibble | Kid(t, b).Some? :: Uniform(Kid(t, b).value, len - 1)
  }

  type Pairs = map<Key, Bytes>

  /** No key is longer than `len`. */
  ghost predicate Lengths(m: Pairs, len: nat) {
    forall k | k in m :: |k| <= len
  }

  /** The pairs whose key starts with `p`, by the rest of the key. */
  ghost function Strip(m: Pairs, p: Key): Pairs {
    map k | k in (set x | x in m && p <= x :: x[|p|..]) && p + k in m :: m[p + k]
  }

  lemma StripHas(m: Pairs, p: Key, k: Key)
    ensures k in Strip(m, p) <==> p + k in m
    ensures k in Strip(m, p) ==> Strip(m, p)[k] == m[p + k]
  {
    if p + k in m {
      assert p <= p + k && (p + k)[|p|..] == k;
    }
  }

  ghost predicate Many(m: Pairs) {
    exists k, l :: k in m && l in m && k != l
  }

  ghost predicate AllStart(m: Pairs, b: Nibble) {
    forall k | k in m :: k != [] && k[0] == b
  }

  ghost function Shared(m: Pairs): (r: Option<Nibble>)
    ensures r.Some? ==> AllStart(m, r.value)
    ensures r.None? ==> forall b: Nibble :: !AllStart(m, b)
  {
    if b: Nibble :| AllStart(m, b) then Some(b) else None
  }

  /** The longest prefix common to all keys. */
  ghost function Lead(m: Pairs, len: nat): (p: Key)
    requires Lengths(m, len)
    decreases len
  {
    if len == 0 then []
    else
      match Shared(m)
      case None => []
      case Some(b) =>
        StripLengths(m, [b], len);
        [b] + Lead(Strip(m, [b]), len - 1)
  }

  lemma StripLengths(m: Pairs, p: Key, len: nat)
    requires Lengths(m, len) && |p| <= len
    ensures Lengths(Strip(m, p), len - |p|)
  {
    forall k | k in Strip(m, p) ensures |k| <= len - |p| {
      StripHas(m, p, k);
      assert |p + k| <= len;
    }
  }

  lemma StripHasTail(m: Pairs, b: Nibble, k: Key)
    requires k in m && k != [] && k[0] == b
    ensures k[1..] in Strip(m, [b])
  {
    assert k == [b] + k[1..];
    StripHas(m, [b], k[1..]);
  }

  lemma StripPrefix(m: Pairs, p: Key)
    requires p != [] && forall x | x in m :: p <= x
    ensures forall x | x in Strip(m, [p[0]]) :: p[1..] <= x
  {
    forall x | x in Strip(m, [p[0]]) ensures p[1..] <= x {
      StripHas(m, [p[0]], x);
      assert p <= [p[0]] + x;
      assert x == ([p[0]] + x)[1..];
    }
  }

  lemma {:induction false} LeadIs(m: Pairs, len: nat, p: Key, k: Key, l: Key)
    requires Lengths(m, len) && k in m && l in m && forall x | x in m :: p <= x
    requires k == p || (|p| < |k| && |p| < |l| && k[|p|] != l[|p|])
    ensures Lead(m, len) == p
    decreases len
  {
    hide Strip;
    if p != [] {
      assert AllStart(m, p[0]);
      assert Shared(m) == Some(p[0]);
      StripLengths(m, [p[0]], len);
      StripPrefix(m, p);
      StripHasTail(m, p[0], k);
      StripHasTail(m, p[0], l);
      assert k[1..] == p[1..] <==> k == p;
      LeadIs(Strip(m, [p[0]]), len - 1, p[1..], k[1..], l[1..]);
      assert p == [p[0]] + p[1..];
    } else {
      assert forall b: Nibble :: !AllStart(m, b);
    }
  }

  lemma {:induction false} LeadShort(m: Pairs, len: nat)
    requires Lengths(m, len) && Many(m)
    ensures |Lead(m, len)| < len
    decreases len
  {
    hide Strip;
    var k, l :| k in m && l in m && k != l;
    if len > 0 && Shared(m).Some? {
      var b := Shared(m).value;
      StripLengths(m, [b], len);
      StripHasTail(m, b, k);
      StripHasTail(m, b, l);
      assert k == [b] + k[1..] && l == [b] + l[1..];
      LeadShort(Strip(m, [b]), len - 1);
    }
  }

  /** The structural composition function: one pair is a leaf, a common prefix an extension, otherwise a branch. */
  ghost function Composition(h: Scheme, m: Pairs, len: nat): Bytes
    requires Lengths(m, len) && m != map[]
    decreases len, 2, 0
  {
    if !Many(m) then
      var k :| k in m;
      TwoPieces(k, m[k], true)
    else
      LeadShort(m, len);
      var p := Lead(m, len);
      StripLengths(m, p, len);
      if p == [] then CompositionBranch(h, m, len)
      else TwoPieces(p, Reference(h, CompositionBranch(h, Strip(m, p), len - |p|)), false)
  }

  ghost function CompositionBranch(h: Scheme, m: Pairs, len: nat): Bytes
    requires Lengths(m, len) && len > 0
    decreases len, 1, 0
  {
    EncodeList(CompositionSlots(h, m, len, BRANCHES) + if [] in m then EncodeString(m[[]]) else NO_ITEM)
  }

  ghost function CompositionSlots(h: Scheme, m: Pairs, len: nat, n: nat): Bytes
    requires Lengths(m, len) && len > 0 && n <= BRANCHES
    decreases len, 0, n
  {
    if n == 0 then []
    else
      var m' := Strip(m, [n - 1]);
      StripLengths(m, [n - 1], len);
      CompositionSlots(h, m, len, n - 1) +
      if m' == map[] then NO_ITEM else Item(Reference(h, Composition(h, m', len - 1)))
  }

  /** `m` is what the trie holds. */
  ghost predicate Denotes(h: Scheme, t: Tree, m: Pairs) {
    forall k :: if k in m then Entry(h, t, k) == Some(m[k]) else Entry(h, t, k) == None
  }

  ghost predicate DenotesBelow(h: Scheme, t: Tree, m: Pairs) {
    forall k :: if k in m then Below(h, t, k) == Some(m[k]) else Below(h, t, k) == None
  }

  lemma KidDenotes(h: Scheme, t: Tree, m: Pairs, b: Nibble)
    requires DenotesBelow(h, t, m)
    ensures Kid(t, b).Some? ==> Denotes(h, Kid(t, b).value, Strip(m, [b]))
    ensures Kid(t, b).None? ==> Strip(m, [b]) == map[]
  {
    forall k: Key
      ensures k in Strip(m, [b]) ==> Kid(t, b).Some? && Entry(h, Kid(t, b).value, k) == Some(Strip(m, [b])[k])
      ensures k !in Strip(m, [b]) && Kid(t, b).Some? ==> Entry(h, Kid(t, b).value, k) == None
    {
      StripHas(m, [b], k);
      assert ([b] + k)[1..] == k;
      assert [b] + k in m ==> Below(h, t, [b] + k) == Some(m[[b] + k]);
      assert [b] + k !in m ==> Below(h, t, [b] + k) == None;
    }
  }

  /** The encoding of a node is the composition function of the pairs it holds. */
  lemma {:induction false} NodeIsComposition(h: Scheme, t: Tree, m: Pairs, len: nat)
    requires Canonical(t) && Uniform(t, len) && Denotes(h, t, m)
    ensures Lengths(m, len) && m != map[] && NodeRlp(h, t, t.path) == Composition(h, m, len)
    decreases t, 1
  {
    hide Strip, Lead, BranchRlp, CompositionBranch, Data, TwoPieces, Reference, Composition, Denotes, DenotesBelow, Entry, Below;
    if t.value.Some? {
      LeafIsComposition(h, t, m, len);
    } else {
      var m' := Strip(m, t.path);
      BelowPath(h, t, m);
      BranchIsComposition(h, t, m', len - |t.path|);
      AllLong(h, t, m, len);
      var k, l := ForkKeys(h, t, m', len - |t.path|);
      StripHas(m, t.path, k);
      StripHas(m, t.path, l);
      LeadIs(m, len, t.path, t.path + k, t.path + l);
      assert t.path + k != t.path + l;
      CompositionCases(h, m, len, t.path);
    }
  }

  lemma LeafIsComposition(h: Scheme, t: Tree, m: Pairs, len: nat)
    requires t.value.Some? && |t.path| == len && Denotes(h, t, m)
    ensures Lengths(m, len) && m != map[] && NodeRlp(h, t, t.path) == Composition(h, m, len)
  {
    hide Strip, Lead, BranchRlp, CompositionBranch, Data, TwoPieces, Reference, Denotes, Entry;
    LeafDenotes(h, t, m);
  }

  lemma CompositionCases(h: Scheme, m: Pairs, len: nat, p: Key)
    requires Lengths(m, len) && Many(m) && |p| < len && Lead(m, len) == p && Lengths(Strip(m, p), len - |p|)
    ensures p != [] ==> (Composition(h, m, len) == TwoPieces(p, Reference(h, CompositionBranch(h, Strip(m, p), len - |p|)), false))
    ensures p == [] ==> Composition(h, m, len) == CompositionBranch(h, Strip(m, p), len)
  {
    hide Strip, Lead, CompositionBranch, TwoPieces, Reference;
    if p == [] {
      SamePairs(m, Strip(m, p));
    }
  }

  lemma LeafDenotes(h: Scheme, t: Tree, m: Pairs)
    requires t.value.Some? && Denotes(h, t, m)
    ensures t.path in m && (forall k | k in m :: k == t.path) && m[t.path] == h.leaf(t.value.value, Data(h, t))
  {
    assert Entry(h, t, t.path).Some? && t.path in m;
    forall k | k in m ensures k == t.path {
      assert Entry(h, t, k).Some?;
    }
  }

  lemma SamePairs(m: Pairs, m': Pairs)
    requires m' == Strip(m, [])
    ensures m' == m
  {
    forall k: Key ensures k in m' <==> k in m ensures k in m ==> m'[k] == m[k] {
      StripHas(m, [], k);
      assert [] + k == k;
    }
  }

  lemma BelowPath(h: Scheme, t: Tree, m: Pairs)
    requires t.value.None? && Denotes(h, t, m)
    ensures DenotesBelow(h, t, Strip(m, t.path)) && forall k | k in m :: t.path <= k
  {
    var m' := Strip(m, t.path);
    forall k: Key ensures if k in m' then Below(h, t, k) == Some(m'[k]) else Below(h, t, k) == None {
      StripHas(m, t.path, k);
      assert (t.path + k)[|t.path|..] == k && t.path <= t.path + k;
      assert Entry(h, t, t.path + k) == Below(h, t, k);
    }
    forall k | k in m ensures t.path <= k {
      assert Entry(h, t, k).Some?;
    }
  }

  lemma AllLong(h: Scheme, t: Tree, m: Pairs, len: nat)
    requires |t.path| <= len && Lengths(Strip(m, t.path), len - |t.path|) && forall k | k in m :: t.path <= k
    ensures Lengths(m, len)
  {
    forall k | k in m ensures |k| <= len {
      assert t.path + k[|t.path|..] == k;
      StripHas(m, t.path, k[|t.path|..]);
    }
  }

  /** Two pairs that part at the branches of a node. */
  lemma ForkKeys(h: Scheme, t: Tree, m: Pairs, len: nat) returns (k: Key, l: Key)
    requires Forks(t) && len > 0 && Lengths(m, len)
    requires forall b: Nibble | Kid(t, b).Some? :: Strip(m, [b]) != map[]
    ensures k in m && l in m && k != [] && l != [] && k[0] != l[0]
  {
    var a: Nibble, b: Nibble :| a < b && Kid(t, a).Some? && Kid(t, b).Some?;
    var x :| x in Strip(m, [a]);
    var y :| y in Strip(m, [b]);
    StripHas(m, [a], x);
    StripHas(m, [b], y);
    k, l := [a] + x, [b] + y;
  }

  lemma {:induction false} BranchIsComposition(h: Scheme, t: Tree, m: Pairs, len: nat)
    requires len > 0 && KidsCanonical(t) && KidsUniform(t, len) && DenotesBelow(h, t, m)
    ensures Lengths(m, len) && BranchRlp(h, t) == CompositionBranch(h, m, len)
    ensures forall b: Nibble | Kid(t, b).Some? :: Strip(m, [b]) != map[]
    decreases t, 0, BRANCHES + 1
  {
    hide Strip, Composition, CompositionSlots, NodeRlp, Slots, Denotes, Uniform, Canonical, Entry;
    forall b: Nibble | Kid(t, b).Some? ensures Strip(m, [b]) != map[] && Lengths(Strip(m, [b]), len - 1) {
      KidDenotes(h, t, m, b);
      NodeIsComposition(h, Kid(t, b).value, Strip(m, [b]), len - 1);
    }
    assert Below(h, t, []) == None;
    forall k | k in m ensures |k| <= len {
      assert Below(h, t, k).Some?;
      StripHas(m, [k[0]], k[1..]);
      assert [k[0]] + k[1..] == k;
    }
    SlotsAreComposition(h, t, m, len, BRANCHES);
  }

  lemma {:induction false} SlotsAreComposition(h: Scheme, t: Tree, m: Pairs, len: nat, n: nat)
    requires len > 0 && KidsCanonical(t) && KidsUniform(t, len) && DenotesBelow(h, t, m) && Lengths(m, len) && n <= BRANCHES
    ensures Slots(h, t, n) == CompositionSlots(h, m, len, n)
    decreases t, 0, n
  {
    hide Strip, Composition, NodeRlp, Reference, Item, DenotesBelow, Denotes, Uniform, Canonical, Lengths;
    if n > 0 {
      StripLengths(m, [n - 1], len);
      SlotsAreComposition(h, t, m, len, n - 1);
      KidDenotes(h, t, m, n - 1);
      if Kid(t, n - 1).Some? {
        NodeIsComposition(h, Kid(t, n - 1).value, Strip(m, [n - 1]), len - 1);
      }
    }
  }

  /** The data of a node with a value is the root hash of the pairs below it. */
  lemma DataIsRootHash(h: Scheme, t: Tree, m: Pairs, len: nat)
    requires t.value.Some? && HasKids(t) && len > 0 && KidsCanonical(t) && KidsUniform(t, len) && DenotesBelow(h, t, m)
    ensures Lengths(m, len) && m != map[] && Data(h, t) == h.keccak(Composition(h, m, len))
  {
    hide Strip, Lead, NodeRlp, Slots, CompositionBranch, Entry, Below, Denotes, DenotesBelow;
    if b: Nibble :| IsSole(t, b) {
      var c := Kid(t, b).value;
      assert forall a: Nibble | IsSole(t, a) :: a == b;
      var longer := c.(path := [b] + c.path);
      SoleDenotes(h, t, m, b, longer);
      Lengthened(c, longer, len);
      SoleTrie(h, t, b);
      NodeIsComposition(h, longer, m, len);
      Congruent(h, c, longer, longer.path);
    } else {
      var b: Nibble :| Kid(t, b).Some?;
      assert !IsSole(t, b);
      var a: Nibble :| a != b && Kid(t, a).Some?;
      assert Forks(t) by {
        if a < b { assert Kid(t, a).Some? && Kid(t, b).Some?; } else { assert Kid(t, b).Some? && Kid(t, a).Some?; }
      }
      BranchIsComposition(h, t, m, len);
      var k, l := ForkKeys(h, t, m, len);
      LeadIs(m, len, [], k, l);
    }
  }

  /** What a node encodes to depends on its path only through the one given. */
  lemma Congruent(h: Scheme, t: Tree, u: Tree, path: Key)
    requires u == t.(path := u.path)
    ensures NodeRlp(h, t, path) == NodeRlp(h, u, path)
  {
    SameSlots(h, t, u, BRANCHES);
    SameData(h, t, u);
  }

  lemma {:induction false} SameSlots(h: Scheme, t: Tree, u: Tree, n: nat)
    requires t.kids == u.kids && n <= BRANCHES
    ensures Slots(h, t, n) == Slots(h, u, n)
  {
    hide NodeRlp, Reference, Item;
    if n > 0 {
      assert Kid(t, n - 1) == Kid(u, n - 1);
      SameSlots(h, t, u, n - 1);
    }
  }

  lemma SameData(h: Scheme, t: Tree, u: Tree)
    requires t.kids == u.kids && t.value == u.value
    ensures Data(h, t) == Data(h, u)
  {
    hide NodeRlp, Slots;
    SameSlots(h, t, u, BRANCHES);
    assert forall b: Nibble :: Kid(t, b) == Kid(u, b);
    assert HasKids(t) <==> HasKids(u) by {
      if b: Nibble :| Kid(t, b).Some? { assert Kid(u, b).Some?; }
      if b: Nibble :| Kid(u, b).Some? { assert Kid(t, b).Some?; }
    }
    assert forall b: Nibble :: IsSole(t, b) <==> IsSole(u, b);
    if b: Nibble :| IsSole(t, b) {
      SoleTrie(h, t, b);
      SoleTrie(h, u, b);
    } else {
      assert BranchRlp(h, t) == BranchRlp(h, u);
      assert !exists b: Nibble :: IsSole(u, b);
    }
  }

  lemma SoleTrie(h: Scheme, t: Tree, b: Nibble)
    requires IsSole(t, b)
    ensures TrieRlp(h, t) == NodeRlp(h, Kid(t, b).value, [b] + Kid(t, b).value.path)
  {
    hide NodeRlp;
    assert forall a: Nibble | IsSole(t, a) :: a == b;
  }

  lemma Lengthened(t: Tree, u: Tree, len: nat)
    requires Canonical(t) && len > 0 && Uniform(t, len - 1) && u == t.(path := u.path) && |u.path| == |t.path| + 1
    ensures Canonical(u) && Uniform(u, len)
  {
    assert forall b: Nibble :: Kid(t, b) == Kid(u, b);
  }

  lemma SameBelow(h: Scheme, t: Tree, u: Tree)
    requires u == t.(path := u.path)
    ensures forall k :: Below(h, t, k) == Below(h, u, k)
  {
    assert forall b: Nibble :: Kid(t, b) == Kid(u, b);
  }

  /** A node with one branch holds what its child holds one nibble further up. */
  lemma SoleDenotes(h: Scheme, t: Tree, m: Pairs, b: Nibble, longer: Tree)
    requires IsSole(t, b) && longer == Kid(t, b).value.(path := [b] + Kid(t, b).value.path)
    requires DenotesBelow(h, t, m)
    ensures Denotes(h, longer, m)
  {
    var c := Kid(t, b).value;
    SameBelow(h, c, longer);
    SameData(h, c, longer);
    forall k: Key ensures Entry(h, longer, k) == Below(h, t, k) {
      if k != [] && k[0] == b {
        assert k == [b] + k[1..];
        assert longer.path <= k <==> c.path <= k[1..];
        if longer.path <= k {
          assert k[|longer.path|..] == k[1..][|c.path|..];
          assert k == longer.path <==> k[1..] == c.path;
        }
      } else {
        assert !(longer.path <= k);
      }
    }
  }
}
