/** The hashing of tries whose keys may be prefixes of each other: a branch holds a value as its last item. */
module VarLenMerkle {
  import opened Trie
  import opened TrieHeap
  import opened NodeLayout
  import opened NodeCells
  import opened NodeBuffer
  import opened NodeReadBack
  import opened NodeRemake
  import opened Rlp
  import opened MerkleSpec
  import opened Merkle
  import opened MerkleCompute
  import opened VarLenSpec
  import opened RlpItems
  import opened VarLenRoot

  function ValuedList(h: Scheme, mask: Mask, kids: seq<Kid>, value: Option<Bytes>): Bytes
    requires |mask| == BRANCHES && |kids| == Count(mask)
  {
    EncodeList(BranchItems(mask, kids, BRANCHES) + ValueItem(h, value))
  }

  /** The encoding the standard gives a node: a leaf, an extension or a branch. */
  function StandardRlp(h: Scheme, p: Parts): Bytes
    requires PartsOk(p)
  {
    if p.kids == [] then TwoPieces(PathOf(p), Processed(h, p.value), true)
    else if PathOf(p) != [] then TwoPieces(PathOf(p), Reference(h, ValuedList(h, p.header.mask, p.kids, ValueOf(p))), false)
    else ValuedList(h, p.header.mask, p.kids, ValueOf(p))
  }

  /** What is encoded: an extension over a branch with a value is marked as a leaf. */
  function NodeEncoding(h: Scheme, p: Parts): Bytes
    requires PartsOk(p)
  {
    if p.kids != [] && PathOf(p) != [] && p.header.hasValue then
      TwoPieces(PathOf(p), Reference(h, ValuedList(h, p.header.mask, p.kids, ValueOf(p))), true)
    else StandardRlp(h, p)
  }

  /** The data kept for the children are the references of the subtries. */
  ghost predicate KeptReferences(h: Scheme, mask: Mask, kids: seq<Kid>, t: Tree) {
    && |mask| == BRANCHES && |kids| == Count(mask)
    && forall b: Nibble :: KeptAt(h, mask, kids, t, b)
  }

  ghost predicate KeptAt(h: Scheme, mask: Mask, kids: seq<Kid>, t: Tree, b: Nibble)
    requires |mask| == BRANCHES && |kids| == Count(mask)
  {
    if mask[b] then
      RankMono(mask, b, BRANCHES);
      KidAt(t.kids, b).Some? && kids[Rank(mask, b)].data == Reference(h, ValuedRlp(h, KidAt(t.kids, b).value))
    else KidAt(t.kids, b).None?
  }

  lemma {:induction false} ItemsAreValuedSlots(h: Scheme, mask: Mask, kids: seq<Kid>, t: Tree, n: nat)
    requires KeptReferences(h, mask, kids, t) && n <= BRANCHES
    ensures BranchItems(mask, kids, n) == ValuedSlots(h, t, n)
  {
    hide ValuedRlp, Reference, Item;
    if n > 0 {
      ItemsAreValuedSlots(h, mask, kids, t, n - 1);
      assert KeptAt(h, mask, kids, t, n - 1);
    }
  }

  /** The node stands for the root of `t`, over the references of its subtries. */
  ghost predicate StandsFor(h: Scheme, p: Parts, t: Tree) {
    PartsOk(p) && PathOf(p) == t.path && ValueOf(p) == t.value && KeptReferences(h, p.header.mask, p.kids, t)
  }

  /** Over the references of its subtries, a node is encoded as the subtrie is. */
  lemma EncodingIsOfTree(h: Scheme, p: Parts, t: Tree)
    requires StandsFor(h, p, t) && (p.kids == [] ==> p.header.hasValue)
    ensures NodeEncoding(h, p) == ValuedRlp(h, t)
  {
    hide ValuedSlots, EncodeList, TwoPieces, Reference, BranchItems;
    ItemsAreValuedSlots(h, p.header.mask, p.kids, t, BRANCHES);
    if p.kids == [] {
      forall b: Nibble ensures Trie.Kid(t, b).None? {
        RankMono(p.header.mask, b, BRANCHES);
        assert KeptAt(h, p.header.mask, p.kids, t, b);
      }
    } else {
      var b := BitAtRank(p.header.mask, 0, BRANCHES);
      assert KeptAt(h, p.header.mask, p.kids, t, b);
      assert Trie.Kid(t, b).Some?;
    }
  }

  /** In a trie that hides no branch with a value behind a path, the reference handed to the parent is that of the
      composition function of the pairs below. */
  lemma EncodingIsComposition(h: Scheme, p: Parts, t: Tree, m: Pairs, len: nat)
    requires StandsFor(h, p, t) && Proper(t, len) && Stores(h, t, m)
    ensures Lengths(m, len) && m != map[] && NodeEncoding(h, p) == Composition(h, m, len)
  {
    hide ValuedRlp, Composition, NodeEncoding, KeptReferences;
    ValuedIsComposition(h, t, m, len);
    KidsShown(h, p, t);
    EncodingIsOfTree(h, p, t);
  }

  lemma KidsShown(h: Scheme, p: Parts, t: Tree)
    requires StandsFor(h, p, t) && (t.value.Some? || Forks(t))
    ensures p.kids == [] ==> p.header.hasValue
  {
    if t.value.None? {
      var b: Nibble :| Trie.Kid(t, b).Some?;
      RankMono(p.header.mask, b, BRANCHES);
      assert KeptAt(h, p.header.mask, p.kids, t, b);
    }
  }

  /** Nodes are hashed as the standard has it, except those with children, a path and a value. */
  lemma EncodedAsStandardIff(h: Scheme, p: Parts)
    requires PartsOk(p) && |PathOf(p)| <= MAX_PATH
    ensures NodeEncoding(h, p) == StandardRlp(h, p) <==> !(p.kids != [] && PathOf(p) != [] && p.header.hasValue)
  {
    hide TwoPieces, ValuedList, Reference, PathOf;
    if p.kids != [] && PathOf(p) != [] && p.header.hasValue {
      PiecesTellKind(PathOf(p), Reference(h, ValuedList(h, p.header.mask, p.kids, ValueOf(p))));
    }
  }

  /** A node at nibble 4 with a value and one child, as it comes after keys 4 and 4 0. */
  lemma ValuedExtensionIsMarked(h: Scheme)
    ensures var header := Header(seq(BRANCHES, b => b == 0), true, 0, 1, 1, 1, 0);
            var p := Parts(header, [Kid(0, 0, 0, 0, [0x80])], [0x40], [7], [0x80]);
            PartsOk(p) && PathOf(p) == [4] && NodeEncoding(h, p) != StandardRlp(h, p)
  {
    var header := Header(seq(BRANCHES, b => b == 0), true, 0, 1, 1, 1, 0);
    OneBit(header.mask, 0, BRANCHES);
    var p := Parts(header, [Kid(0, 0, 0, 0, [0x80])], [0x40], [7], [0x80]);
    assert PathOf(p) == [4];
    EncodedAsStandardIff(h, p);
  }

  /** What is kept in a node: the reference of its branches, where a path would hide it. */
  function BranchData(h: Scheme, mask: Mask, kids: seq<Kid>, path: Key, value: Option<Bytes>): Bytes
    requires |mask| == BRANCHES && |kids| == Count(mask)
  {
    if path == [] then [] else Reference(h, ValuedList(h, mask, kids, value))
  }

  /** Processing makes no value longer. */
  predicate ValueFits(h: Scheme, value: Option<Bytes>) {
    value.Some? ==> |Processed(h, value.value)| <= |value.value| < LEAF_LIMIT
  }

  function RlpMaxSize(leafSize: nat): nat {
    ListLength(ListLength(KECCAK256_SIZE) * BRANCHES + ListLength(leafSize))
  }

  function ValueSize(value: Option<Bytes>): nat {
    if value.Some? then |value.value| else 0
  }

  lemma {:induction false} LengthLengthMono(m: nat, n: nat)
    requires m <= n
    ensures LengthLength(m) <= LengthLength(n)
  {
    if m > 0 {
      LengthLengthMono(m / 256, n / 256);
    }
  }

  /** The value fits behind sixteen items. */
  lemma ValueRoom(h: Scheme, value: Option<Bytes>, end: nat)
    requires ValueFits(h, value) && end <= BRANCHES * MAX_ITEM
    ensures end + |ValueItem(h, value)| <= RlpMaxSize(ValueSize(value))
    ensures value.Some? && value.value != [] ==> |ValueItem(h, value)| == StringLength(Processed(h, value.value)) < SIZE_MAX
    ensures end + |ValueItem(h, value)| < SIZE_MAX
  {
    hide EncodeString;
    if value.Some? {
      var s := Processed(h, value.value);
      EncodedLengths(s);
      LengthLengthMono(|s|, |value.value|);
      SizeFits(|s|);
    }
  }

  /** Adds the value item and makes a list. */
  method WrapValued(h: Scheme, items: array<Byte>, end: nat, value: Option<Bytes>,
                    ghost was: Bytes, ghost mask: Mask, ghost kids: seq<Kid>)
    returns (rlp: Bytes)
    requires ValueFits(h, value) && items.Length == RlpMaxSize(ValueSize(value))
    requires Emitted(items[..], was, 0, end, mask, kids, BRANCHES)
    modifies items
    ensures rlp == ValuedList(h, mask, kids, value)
  {
    hide EncodeList, EncodeString, BranchItems, ListLength, StringLength, LengthLength;
    ValueRoom(h, value, end);
    var concatLen;
    if value.Some? && value.value != [] {
      concatLen := PutString(items, end, Processed(h, value.value));
    } else {
      concatLen := EncodeEmptyString(items, end);
    }
    assert items[..concatLen] == BranchItems(mask, kids, BRANCHES) + ValueItem(h, value);
    EncodedLengths(items[..concatLen]);
    var list := new Byte[ListLength(concatLen)](i => 0);
    WrittenWhole(list[..], EncodeList(items[..concatLen]));
    var rlpEnd := PutList(list, 0, items[..concatLen]);
    rlp := list[..];
  }

  lemma RoomForItems(n: nat)
    ensures BRANCHES * MAX_ITEM <= RlpMaxSize(n)
  {
  }

  class VarLenMerkleCompute {
    const scheme: Scheme
    const state: InternalMerkleState

    constructor (scheme: Scheme)
      ensures this.scheme == scheme && fresh(state) && fresh(state.buffer) && state.Idle()
    {
      this.scheme := scheme;
      state := new InternalMerkleState();
    }

    method DoComputeLen(children: seq<ChildData>, value: Option<Bytes>, ghost mask: Mask) returns (n: nat)
      requires state.Idle() && Matches(mask, children) && ShortData(ValidKids(children)) && ValueFits(scheme, value)
      modifies state, state.buffer
      ensures |mask| == BRANCHES && |ValidKids(children)| == Count(mask)
      ensures n == state.len > 0 && state.Carries(Reference(scheme, ValuedList(scheme, mask, ValidKids(children), value)))
    {
      hide ValidKids, Matches, Emitted, RlpMaxSize, ValuedList;
      EnoughKids(mask, children);
      CutEnd(mask, children);
      RoomForItems(ValueSize(value));
      var items := new Byte[RlpMaxSize(ValueSize(value))](i => 0);
      ghost var was := items[..];
      var end := EncodeChildren(children, items, 0, mask);
      var rlp := WrapValued(scheme, items, end, value, was, mask, ValidKids(children));
      SomeBytes(scheme, mask, ValidKids(children), value);
      state.Set(scheme, rlp);
      n := state.len;
    }

    /** Announces the data only where a path is going to hide the branches. */
    method ComputeLen(children: seq<ChildData>, path: Key, value: Option<Bytes>, ghost mask: Mask) returns (n: nat)
      requires state.Idle() && Matches(mask, children) && ShortData(ValidKids(children)) && ValueFits(scheme, value)
      modifies state, state.buffer
      ensures |mask| == BRANCHES && |ValidKids(children)| == Count(mask)
      ensures n == state.len && state.Carries(BranchData(scheme, mask, ValidKids(children), path, value))
    {
      hide ValidKids, Matches, ValuedList, Reference;
      EnoughKids(mask, children);
      CutEnd(mask, children);
      if path == [] {
        n := 0;
      } else {
        n := DoComputeLen(children, value, mask);
      }
    }

    method ComputeBranch(dest: array<Byte>, at: nat, node: RawNode, ghost p: Parts) returns (n: nat)
      requires state.buffer.Length == KECCAK256_SIZE && state.len <= KECCAK256_SIZE && dest != state.buffer
      requires state.len > 0 ==> at + state.len <= dest.Length
      requires state.len == 0 ==> at + KECCAK256_SIZE <= dest.Length && Complete(node.mem[..], p) && ValueFits(scheme, ValueOf(p))
      modifies state, dest
      ensures state.Idle()
      ensures old(state.len) > 0 ==> n == old(state.len)
      ensures old(state.len) > 0 ==> dest[..] == Written(old(dest[..]), at, old(state.buffer[..state.len]))
      ensures old(state.len) == 0 ==> PartsOk(p)
      ensures old(state.len) == 0 ==>
        var r := Reference(scheme, ValuedList(scheme, p.header.mask, p.kids, ValueOf(p)));
        n == |r| && at + n <= dest.Length && dest[..] == Written(old(dest[..]), at, r)
    {
      hide Complete, Written, Reference, ValuedList;
      if state.len != 0 {
        CopyTo(dest, at, state.buffer[..state.len]);
        n := state.len;
        state.len := 0;
      } else {
        PartsAre(node.mem[..], p);
        var rlp := ListOfValuedNode(scheme, node, p);
        n := ToNodeReference(scheme, rlp, dest, at);
      }
    }

    /** The reference of a node, as its parent keeps it. */
    method Compute(dest: array<Byte>, at: nat, node: RawNode, ghost p: Parts) returns (n: nat)
      requires state.Idle() && Kept(scheme, node.mem[..], p) && |PathOf(p)| <= MAX_PATH
      requires dest != state.buffer && dest != node.mem && at + KECCAK256_SIZE <= dest.Length
      modifies state, dest
      ensures state.Idle() && n == |Reference(scheme, NodeEncoding(scheme, p))| && at + n <= dest.Length
      ensures dest[..] == Written(old(dest[..]), at, Reference(scheme, NodeEncoding(scheme, p)))
    {
      hide Complete, Reference, TwoPieces, Written, PathOf, ValuedList, PartsOk, ReadHeader;
      PartsAre(node.mem[..], p);
      var path := NodePath(node, p);
      var value := NodeValue(node, p);
      NoKidsNoBits(node.mem[..], p);
      if Count(ReadHeader(node.mem[..]).mask) == 0 {
        n := EncodeTwoPieces(scheme, dest, at, path, Processed(scheme, value.value), true);
      } else if path != [] {
        var data := NodeData(node, p);
        n := EncodeTwoPieces(scheme, dest, at, path, data, value.Some?);
      } else {
        n := ComputeBranch(dest, at, node, p);
      }
    }

    /** Makes a node over children that have their references: it stands for the subtrie `t` that is made of theirs. */
    method CreateNodeWithChildren(mask: Mask, children: seq<ChildData>, path: NibblesView, value: Option<Bytes>, version: int,
                                  ghost t: Tree)
      returns (node: RawNode)
      requires state.Idle() && Matches(mask, children) && Count(mask) > 0 && ViewOk(path) && ValueFits(scheme, value)
      requires |mask| == BRANCHES && |ValidKids(children)| == Count(mask) && ShortData(ValidKids(children))
      requires PartsOk(Planned(scheme, mask, children, path, value, version))
      modifies state, state.buffer
      ensures state.Idle()
      ensures fresh(node) && fresh(node.mem) && node.next == ValidPointers(children)
      ensures Kept(scheme, node.mem[..], Planned(scheme, mask, children, path, value, version))
      ensures MadeOf(scheme, mask, children, path, value, t) ==>
        var p := Planned(scheme, mask, children, path, value, version);
        StandsFor(scheme, p, t) && NodeEncoding(scheme, p) == ValuedRlp(scheme, t)
    {
      hide Complete, ValidKids, ValidPointers, Matches, PartsOk, Holds, BaseSize, CellAt, HoldsCell, Written, Reference, ValuedList,
           DataPos, CalculateNodeSize, HeaderOk, Rank, MadeOf, StandsFor, NodeEncoding, ValuedRlp;
      ghost var p := Planned(scheme, mask, children, path, value, version);
      var dataSize := ComputeLen(children, Nibbles(path.start, path.end, path.bytes), value, mask);
      node := MakeNode(mask, children, path, value, dataSize, version, p.data);
      ghost var s := Filled(|p.kids|).(data := false);
      DataRoom(node.mem[..], p, s);
      DataWritten(node.mem[..], p, s);
      if dataSize != 0 {
        var n := ComputeBranch(node.mem, DataPos(node.mem[..]), node, p);
      }
      PlannedKept(scheme, node.mem[..], mask, children, path, value, version);
      if MadeOf(scheme, mask, children, path, value, t) {
        PlannedStandsFor(scheme, mask, children, path, value, version, t);
      }
    }
  }

  lemma SomeBytes(h: Scheme, mask: Mask, kids: seq<Kid>, value: Option<Bytes>)
    requires |mask| == BRANCHES && |kids| == Count(mask)
    ensures |Reference(h, ValuedList(h, mask, kids, value))| > 0
  {
  }

  method ListOfValuedNode(h: Scheme, node: RawNode, ghost p: Parts) returns (rlp: Bytes)
    requires Complete(node.mem[..], p) && ValueFits(h, ValueOf(p))
    ensures PartsOk(p) && rlp == ValuedList(h, p.header.mask, p.kids, ValueOf(p))
  {
    hide Complete, Emitted, EncodeList, RlpMaxSize, ValuedList, ReadHeader;
    MaskRead(node.mem[..], p);
    PartsAre(node.mem[..], p);
    var value := NodeValue(node, p);
    RoomForItems(ValueSize(value));
    var items := new Byte[RlpMaxSize(ValueSize(value))](i => 0);
    ghost var was := items[..];
    var end := EncodeNodeChildren(node, items, 0, p);
    rlp := WrapValued(h, items, end, value, was, p.header.mask, p.kids);
  }

  /** A node without children has a value; one with children and a path has the reference of its branches. */
  ghost predicate Kept(h: Scheme, b: Bytes, p: Parts) {
    && Complete(b, p) && ValueFits(h, ValueOf(p))
    && (p.kids == [] ==> p.header.hasValue)
    && (p.kids != [] ==> p.data == BranchData(h, p.header.mask, p.kids, PathOf(p), ValueOf(p)))
  }

  function Planned(h: Scheme, mask: Mask, children: seq<ChildData>, path: NibblesView, value: Option<Bytes>, version: int): Parts
    requires |mask| == BRANCHES && |ValidKids(children)| == Count(mask) && ViewOk(path)
  {
    PartsOf(mask, children, path, value, BranchData(h, mask, ValidKids(children), Nibbles(path.start, path.end, path.bytes), value), version)
  }

  /** The children have the references of the subtries of `t`. */
  ghost predicate MadeOf(h: Scheme, mask: Mask, children: seq<ChildData>, path: NibblesView, value: Option<Bytes>, t: Tree)
    requires ViewOk(path)
  {
    KeptReferences(h, mask, ValidKids(children), t) && t.path == Nibbles(path.start, path.end, path.bytes) && t.value == value
  }

  /** A node made over the references of its subtries stands for their parent, and is encoded as it is. */
  lemma PlannedStandsFor(h: Scheme, mask: Mask, children: seq<ChildData>, path: NibblesView, value: Option<Bytes>, version: int, t: Tree)
    requires |mask| == BRANCHES && |ValidKids(children)| == Count(mask) > 0 && ViewOk(path)
    requires PartsOk(Planned(h, mask, children, path, value, version)) && MadeOf(h, mask, children, path, value, t)
    ensures var p := Planned(h, mask, children, path, value, version);
            StandsFor(h, p, t) && NodeEncoding(h, p) == ValuedRlp(h, t)
  {
    hide NodeEncoding, ValuedRlp, KeptReferences, ValidKids, PartsOk, Count, BranchData;
    EncodingIsOfTree(h, Planned(h, mask, children, path, value, version), t);
  }

  lemma PlannedKept(h: Scheme, b: Bytes, mask: Mask, children: seq<ChildData>, path: NibblesView, value: Option<Bytes>, version: int)
    requires |mask| == BRANCHES && |ValidKids(children)| == Count(mask) > 0 && ViewOk(path) && ValueFits(h, value)
    requires Complete(b, Planned(h, mask, children, path, value, version))
    ensures Kept(h, b, Planned(h, mask, children, path, value, version))
  {
    hide Complete, ValidKids, ValuedList, Reference;
    PartsAre(b, Planned(h, mask, children, path, value, version));
  }

  lemma NoKidsNoBits(b: Bytes, p: Parts)
    requires Complete(b, p)
    ensures |b| >= HEADER_SIZE && PartsOk(p) && Count(ReadHeader(b).mask) == |p.kids|
  {
    FieldsReadBack(b, p);
  }

  /** What a node keeps is what its branches hash to when asked again. */
  lemma KeptIsRecomputed(h: Scheme, b: Bytes, p: Parts)
    requires Kept(h, b, p) && p.kids != [] && PathOf(p) != []
    ensures p.data == Reference(h, ValuedList(h, p.header.mask, p.kids, ValueOf(p))) != []
  {
    hide Reference, ValuedList;
    SomeBytes(h, p.header.mask, p.kids, ValueOf(p));
  }

  /** The encoding of a node reached by a non-empty path, from the outside. */
  function HiddenRlp(h: Scheme, p: Parts, path: Key): Bytes
    requires PartsOk(p)
  {
    if p.kids == [] then TwoPieces(path, Processed(h, p.value), p.header.hasValue)
    else TwoPieces(path, Reference(h, ValuedList(h, p.header.mask, p.kids, ValueOf(p))), p.header.hasValue)
  }

  /** The only child of a root to be made is in memory. */
  ghost predicate OnlyChild(h: Scheme, children: seq<ChildData>, child: RawNode?, q: Parts, buffer: array<Byte>)
    reads if child == null then {} else {child.mem}
  {
    child != null && child.mem != buffer && Kept(h, child.mem[..], q) && |PathOf(q)| < MAX_PATH
    && forall i | 0 <= i < |children| && IsValid(children, i) :: children[i].ptr == child
  }

  /** The root of such a trie always holds a hash. */
  class RootVarLenMerkleCompute {
    const base: VarLenMerkleCompute

    constructor (scheme: Scheme)
      ensures base.scheme == scheme && fresh(base.state) && fresh(base.state.buffer) && base.state.Idle()
    {
      base := new VarLenMerkleCompute(scheme);
    }

    /** The reference the only child would have one nibble further up, into the state. */
    method HashWithExtraNibble(branch: Nibble, node: RawNode, ghost q: Parts)
      requires base.state.Idle() && node.mem != base.state.buffer && Kept(base.scheme, node.mem[..], q) && |PathOf(q)| < MAX_PATH
      modifies base.state, base.state.buffer
      ensures PartsOk(q) && base.state.Carries(Reference(base.scheme, HiddenRlp(base.scheme, q, [branch] + PathOf(q))))
    {
      hide Complete, Reference, TwoPieces, Written, PathOf, ValuedList, ReadHeader;
      PartsAre(node.mem[..], q);
      var path := NodePath(node, q);
      var value := NodeValue(node, q);
      NoKidsNoBits(node.mem[..], q);
      var second;
      if Count(ReadHeader(node.mem[..]).mask) == 0 {
        second := Processed(base.scheme, value.value);
      } else {
        second := NodeData(node, q);
        if second == [] {
          var hash := new Byte[KECCAK256_SIZE](i => 0);
          ghost var was := hash[..];
          var len := base.ComputeBranch(hash, 0, node, q);
          WrittenThere(was, 0, Reference(base.scheme, ValuedList(base.scheme, q.header.mask, q.kids, ValueOf(q))));
          second := hash[..len];
        }
      }
      SecondFits(base.scheme, q);
      base.state.len := EncodeTwoPieces(base.scheme, base.state.buffer, 0, [branch] + path, second, value.Some?);
      WrittenThere(old(base.state.buffer[..]), 0, Reference(base.scheme, HiddenRlp(base.scheme, q, [branch] + path)));
    }

    /** The hash of a trie, of which `children` are the references of the subtries: it is the root of the pairs the trie
        holds where the root forks, and with one branch exactly where nothing is dropped or marked. */
    method ComputeLen(children: seq<ChildData>, mask: Mask, value: Option<Bytes>, ghost child: RawNode?, ghost q: Parts,
                      ghost t: Tree, ghost m: Pairs, ghost keyLength: nat)
      returns (n: nat)
      requires base.state.Idle() && Matches(mask, children) && Count(mask) > 0
      requires ShortData(ValidKids(children)) && ValueFits(base.scheme, value)
      requires Count(mask) == 1 ==> OnlyChild(base.scheme, children, child, q, base.state.buffer)
      modifies base.state, base.state.buffer
      ensures n == KECCAK256_SIZE && |mask| == BRANCHES && |ValidKids(children)| == Count(mask)
      ensures Count(mask) > 1 ==>
        base.state.Carries(base.scheme.keccak(ValuedList(base.scheme, mask, ValidKids(children), value)))
      ensures Count(mask) == 1 ==> PartsOk(q) && exists b: Nibble ::
        mask[b] && base.state.Carries(base.scheme.keccak(HiddenRlp(base.scheme, q, [b] + PathOf(q))))
      ensures RootOf(base.scheme, mask, ValidKids(children), value, q, t) ==>
        base.state.Carries(base.scheme.keccak(RootPreimage(base.scheme, t)))
      ensures RootOf(base.scheme, mask, ValidKids(children), value, q, t) && RootProper(t, keyLength) && RootStores(base.scheme, t, m) ==>
        && Lengths(m, keyLength) && m != map[]
        && (Count(mask) > 1 ==> base.state.Carries(base.scheme.keccak(Composition(base.scheme, m, keyLength))))
        && (RootPreimage(base.scheme, t) == Composition(base.scheme, m, keyLength) <==>
              Count(mask) > 1 || (!HasOwn(t) && !(q.kids != [] && q.header.hasValue)))
      ensures RootOf(base.scheme, mask, ValidKids(children), value, q, t) && RootProper(t, keyLength) && RootStores(base.scheme, t, m) ==>
        Count(mask) == 1 ==>
        && Lengths(m - {[]}, keyLength) && m - {[]} != map[]
        && (RootPreimage(base.scheme, t) == Composition(base.scheme, m - {[]}, keyLength) <==>
              !(q.kids != [] && q.header.hasValue))
    {
      hide Complete, Reference, Written, PathOf, ValuedList, Matches, ValidKids, HiddenRlp, Kept, Rank, OnlyChild, RootOf,
           RootPreimage, RootProper, RootStores, Composition, Lengths, HasOwn;
      EnoughKids(mask, children);
      CutEnd(mask, children);
      if Count(mask) == 1 {
        var k := FirstValid(children, mask);
        ItsBranch(mask, children, k);
        ItIsTheChild(base.scheme, children, child, q, base.state.buffer, k);
        HashWithExtraNibble(children[k].branch, children[k].ptr, q);
        base.state.KeccakInplaceToRootHash(base.scheme, HiddenRlp(base.scheme, q, [children[k].branch] + PathOf(q)));
        if RootOf(base.scheme, mask, ValidKids(children), value, q, t) {
          SoleRoot(base.scheme, mask, ValidKids(children), value, children[k].branch, child.mem[..], q, t, m, keyLength);
        }
      } else {
        var len := base.DoComputeLen(children, value, mask);
        base.state.KeccakInplaceToRootHash(base.scheme, ValuedList(base.scheme, mask, ValidKids(children), value));
        if RootOf(base.scheme, mask, ValidKids(children), value, q, t) {
          ForkingRoot(base.scheme, mask, ValidKids(children), value, q, t, m, keyLength);
        }
      }
      n := KECCAK256_SIZE;
    }
  }

  /** The only child stands for the only subtrie. */
  ghost predicate ChildStands(h: Scheme, q: Parts, t: Tree) {
    forall b: Nibble | IsSole(t, b) :: StandsFor(h, q, Trie.Kid(t, b).value)
  }

  /** The data are the references of the subtries of `t`, and the only child, if there is one, stands for the only subtrie. */
  ghost predicate RootOf(h: Scheme, mask: Mask, kids: seq<Kid>, value: Option<Bytes>, q: Parts, t: Tree) {
    KeptReferences(h, mask, kids, t) && t.value == value && ChildStands(h, q, t)
  }

  lemma BitsAreKids(h: Scheme, mask: Mask, kids: seq<Kid>, t: Tree)
    requires KeptReferences(h, mask, kids, t)
    ensures |mask| == BRANCHES && |kids| == Count(mask) && forall b: Nibble :: Trie.Kid(t, b).Some? <==> mask[b]
  {
    forall b: Nibble ensures Trie.Kid(t, b).Some? <==> mask[b] {
      assert KeptAt(h, mask, kids, t, b);
    }
  }

  /** What is hashed for a root that forks. */
  lemma ForkingRoot(h: Scheme, mask: Mask, kids: seq<Kid>, value: Option<Bytes>, q: Parts, t: Tree, m: Pairs, len: nat)
    requires RootOf(h, mask, kids, value, q, t) && Count(mask) > 1
    ensures |mask| == BRANCHES && |kids| == Count(mask) && RootPreimage(h, t) == ValuedList(h, mask, kids, value)
    ensures RootProper(t, len) && RootStores(h, t, m) ==>
      Lengths(m, len) && m != map[] && RootPreimage(h, t) == Composition(h, m, len)
  {
    hide KeptReferences, ValuedSlots, BranchItems, EncodeList, ValueItem, RootStores, Composition, Lengths, Rank, KidsProper;
    BitsAreKids(h, mask, kids, t);
    ItemsAreValuedSlots(h, mask, kids, t, BRANCHES);
    var a := BitAtRank(mask, 0, BRANCHES);
    var b := BitAtRank(mask, 1, BRANCHES);
    assert Forks(t) by {
      assert if a < b then Trie.Kid(t, a).Some? && Trie.Kid(t, b).Some? else Trie.Kid(t, b).Some? && Trie.Kid(t, a).Some?;
    }
    ForksNotSole(t);
    if RootProper(t, len) && RootStores(h, t, m) {
      ForkedRoot(h, t, m, len);
    }
  }

  /** What is hashed for a root with one branch. */
  lemma SoleRoot(h: Scheme, mask: Mask, kids: seq<Kid>, value: Option<Bytes>, b: Nibble, bytes: Bytes, q: Parts, t: Tree,
                 m: Pairs, len: nat)
    requires RootOf(h, mask, kids, value, q, t) && Count(mask) == 1 && b < |mask| && mask[b] && Kept(h, bytes, q)
    ensures PartsOk(q) && RootPreimage(h, t) == HiddenRlp(h, q, [b] + PathOf(q))
    ensures RootProper(t, len) && RootStores(h, t, m) ==>
      && Lengths(m, len) && m != map[] && Lengths(m - {[]}, len) && m - {[]} != map[]
      && (RootPreimage(h, t) == Composition(h, m, len) <==> !HasOwn(t) && !(q.kids != [] && q.header.hasValue))
      && (RootPreimage(h, t) == Composition(h, m - {[]}, len) <==> !(q.kids != [] && q.header.hasValue))
  {
    hide KeptReferences, Complete, HiddenRlp, ValuedRlp, RootPreimage, RootStores, RootProper, Composition, Lengths, Rank, HasOwn, Marked;
    BitsAreKids(h, mask, kids, t);
    OnlyBit(mask, b);
    assert IsSole(t, b);
    NotForking(t, b);
    HiddenIsRaised(h, q, t, b);
    PreimageOfSole(h, t, b);
    if RootProper(t, len) && RootStores(h, t, m) {
      SoleRootIff(h, t, m, len, b);
      RootIsCompositionIff(h, t, m, len);
    }
  }

  lemma NotForking(t: Tree, b: Nibble)
    requires IsSole(t, b)
    ensures !Forks(t) && forall a: Nibble | IsSole(t, a) :: a == b
  {
  }

  /** The only child, hidden behind one nibble more. */
  lemma HiddenIsRaised(h: Scheme, q: Parts, t: Tree, b: Nibble)
    requires IsSole(t, b) && StandsFor(h, q, Trie.Kid(t, b).value) && (q.kids == [] ==> q.header.hasValue)
    ensures HiddenRlp(h, q, [b] + PathOf(q)) == ValuedRlp(h, Raised(t, b))
    ensures Marked(Raised(t, b)) <==> q.kids != [] && q.header.hasValue
  {
    hide KeptReferences, ValuedSlots, EncodeList, TwoPieces, Reference, BranchItems, PathOf, Rank, ValueItem;
    var u := Raised(t, b);
    assert KeptReferences(h, q.header.mask, q.kids, u) by {
      SameKept(h, q.header.mask, q.kids, Trie.Kid(t, b).value, u);
    }
    ItemsAreValuedSlots(h, q.header.mask, q.kids, u, BRANCHES);
    BitsAreKids(h, q.header.mask, q.kids, u);
    if q.kids == [] {
      forall a: Nibble ensures Trie.Kid(u, a).None? {
        RankMono(q.header.mask, a, BRANCHES);
      }
    } else {
      var a := BitAtRank(q.header.mask, 0, BRANCHES);
      assert Trie.Kid(u, a).Some?;
    }
  }

  lemma SameKept(h: Scheme, mask: Mask, kids: seq<Kid>, t: Tree, u: Tree)
    requires KeptReferences(h, mask, kids, t) && t.kids == u.kids
    ensures KeptReferences(h, mask, kids, u)
  {
    hide ValuedRlp, Reference;
    forall b: Nibble ensures KeptAt(h, mask, kids, u, b) {
      assert KeptAt(h, mask, kids, t, b);
    }
  }

  lemma SecondFits(h: Scheme, q: Parts)
    requires PartsOk(q)
    ensures |Reference(h, ValuedList(h, q.header.mask, q.kids, ValueOf(q)))| <= KECCAK256_SIZE < LEAF_LIMIT
  {
  }

  lemma ItsBranch(mask: Mask, children: seq<ChildData>, k: nat)
    requires Matches(mask, children) && k < |children| && IsValid(children, k)
    ensures children[k].branch < BRANCHES == |mask| && mask[children[k].branch]
  {
  }

  lemma ItIsTheChild(h: Scheme, children: seq<ChildData>, child: RawNode?, q: Parts, buffer: array<Byte>, k: nat)
    requires OnlyChild(h, children, child, q, buffer) && k < |children| && IsValid(children, k)
    ensures child != null && children[k].ptr == child && child.mem != buffer && Kept(h, child.mem[..], q) && |PathOf(q)| < MAX_PATH
  {
  }
}
