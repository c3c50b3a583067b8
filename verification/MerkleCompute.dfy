/** The hashing of fixed-length tries, with the state carried from sizing a node to filling it. */
module MerkleCompute {
  import opened Trie
  import opened TrieHeap
  import opened NodeLayout
  import opened NodeCells
  import opened NodeBuffer
  import opened NodeReadBack
  import opened NodeRemake
  import opened Rlp
  import opened MerkleSpec
  import opened Merkle

  function NibbleAt(b: Bytes, i: nat): Nibble
    requires i / 2 < |b|
  {
    if i % 2 == 0 then High(b[i / 2]) else Low(b[i / 2])
  }

  function Nibbles(start: nat, end: nat, b: Bytes): (k: Key)
    requires start <= end && |b| == PathBytes(end)
    ensures |k| == end - start
  {
    seq<Nibble>(end - start, i requires 0 <= i < end - start => NibbleAt(b, start + i))
  }

  lemma {:induction false} UnpackAt(b: Bytes, i: nat)
    requires i < 2 * |b|
    ensures |Unpack(b)| == 2 * |b| && Unpack(b)[i] == NibbleAt(b, i)
    decreases |b|
  {
    if i >= 2 {
      UnpackAt(b[1..], i - 2);
      assert b[1..][(i - 2) / 2] == b[i / 2];
    } else if |b| > 1 {
      UnpackAt(b[1..], 0);
    }
  }

  /** A nibble view shows the nibbles of its bytes, two to a byte, from `start` on. */
  lemma NibblesAreUnpacked(start: nat, end: nat, b: Bytes)
    requires start <= end && |b| == PathBytes(end)
    ensures |Unpack(b)| == 2 * |b| && Nibbles(start, end, b) == Unpack(b)[start..end]
  {
    hide Unpack, NibbleAt;
    UnpackedLength(b);
    forall k | 0 <= k < end - start ensures Nibbles(start, end, b)[k] == Unpack(b)[start + k] {
      UnpackAt(b, start + k);
    }
  }

  lemma {:induction false} UnpackedLength(b: Bytes)
    ensures |Unpack(b)| == 2 * |b|
  {
    if b != [] {
      UnpackedLength(b[1..]);
    }
  }

  function PathOf(p: Parts): Key
    requires PartsOk(p)
  {
    Nibbles(p.header.pathStart, p.header.pathEnd, p.path)
  }

  function ValueOf(p: Parts): Option<Bytes> {
    if p.header.hasValue then Some(p.value) else None
  }

  /** The bytes are those of the root of `t`, with its branch data and the references of its subtries. */
  ghost predicate Hashes(h: Scheme, b: Bytes, p: Parts, t: Tree) {
    && Complete(b, p) && PathOf(p) == t.path && ValueOf(p) == t.value && p.data == Data(h, t)
    && Faithful(h, p.header.mask, p.kids, t)
  }

  function BranchList(mask: Mask, kids: seq<Kid>): Bytes
    requires |mask| == BRANCHES && |kids| == Count(mask)
  {
    EncodeList(BranchItems(mask, kids, BRANCHES) + NO_ITEM)
  }

  lemma BranchListIsRlp(h: Scheme, mask: Mask, kids: seq<Kid>, t: Tree)
    requires Faithful(h, mask, kids, t)
    ensures |mask| == BRANCHES && |kids| == Count(mask) && BranchList(mask, kids) == BranchRlp(h, t)
  {
    hide EncodeList, NodeRlp, Slots, BranchItems;
    ItemsAreSlots(h, mask, kids, t, BRANCHES);
  }

  /** Adds the empty value and makes a list of the items. */
  method WrapBranch(items: array<Byte>, end: nat, ghost was: Bytes, ghost mask: Mask, ghost kids: seq<Kid>) returns (rlp: Bytes)
    requires items.Length == MAX_BRANCH_RLP && Emitted(items[..], was, 0, end, mask, kids, BRANCHES)
    modifies items
    ensures rlp == BranchList(mask, kids)
  {
    hide EncodeList, BranchItems;
    var concatLen := EncodeEmptyString(items, end);
    ListFits(concatLen);
    assert items[..concatLen] == BranchItems(mask, kids, BRANCHES) + NO_ITEM;
    var list := new Byte[MAX_BRANCH_RLP](i => 0);
    var rlpLen := PutList(list, 0, items[..concatLen]);
    rlp := list[..rlpLen];
  }

  method ListOfChildren(children: seq<ChildData>, ghost mask: Mask) returns (rlp: Bytes)
    requires Matches(mask, children) && ShortData(ValidKids(children))
    ensures |mask| == BRANCHES && |ValidKids(children)| == Count(mask) && rlp == BranchList(mask, ValidKids(children))
  {
    hide ValidKids, Matches, Emitted, EncodeList;
    EnoughKids(mask, children);
    CutEnd(mask, children);
    var items := new Byte[MAX_BRANCH_RLP](i => 0);
    ghost var was := items[..];
    var end := EncodeChildren(children, items, 0, mask);
    rlp := WrapBranch(items, end, was, mask, ValidKids(children));
  }

  method ListOfNode(node: RawNode, ghost p: Parts) returns (rlp: Bytes)
    requires Complete(node.mem[..], p)
    ensures |p.header.mask| == BRANCHES && |p.kids| == Count(p.header.mask) && rlp == BranchList(p.header.mask, p.kids)
  {
    hide Complete, Emitted, EncodeList;
    MaskRead(node.mem[..], p);
    var items := new Byte[MAX_BRANCH_RLP](i => 0);
    ghost var was := items[..];
    var end := EncodeNodeChildren(node, items, 0, p);
    rlp := WrapBranch(items, end, was, p.header.mask, p.kids);
  }

  /** Writes the reference of an encoding. */
  method ToNodeReference(h: Scheme, rlp: Bytes, dest: array<Byte>, at: nat) returns (n: nat)
    requires at + KECCAK256_SIZE <= dest.Length
    modifies dest
    ensures n == |Reference(h, rlp)| && at + n <= dest.Length
    ensures dest[..] == Written(old(dest[..]), at, Reference(h, rlp))
  {
    hide Written;
    if |rlp| >= KECCAK256_SIZE {
      CopyTo(dest, at, h.keccak(rlp));
      n := KECCAK256_SIZE;
    } else {
      CopyTo(dest, at, rlp);
      n := |rlp|;
    }
  }

  const MAX_PATH := 65

  /** Writes the reference of a leaf or an extension. */
  method EncodeTwoPieces(h: Scheme, dest: array<Byte>, at: nat, path: Key, second: Bytes, hasValue: bool) returns (n: nat)
    requires |path| <= MAX_PATH && |second| < LEAF_LIMIT && at + KECCAK256_SIZE <= dest.Length
    requires hasValue || |second| <= KECCAK256_SIZE
    modifies dest
    ensures n == |Reference(h, TwoPieces(path, second, hasValue))| && at + n <= dest.Length
    ensures dest[..] == Written(old(dest[..]), at, Reference(h, TwoPieces(path, second, hasValue)))
  {
    hide Written, EncodeString, EncodeList, CompactEncode, Reference;
    var first := CompactEncode(path, hasValue);
    CompactRoundTrip(path, hasValue);
    var needEncodeSecond := hasValue || |second| >= KECCAK256_SIZE;
    var concat := PutPieces(first, second, needEncodeSecond);
    PiecesFit(|first|, |second|, first, second);
    var rlp := new Byte[ListLength(|concat|)](i => 0);
    EncodedLengths(concat);
    WrittenWhole(rlp[..], EncodeList(concat));
    var rlpEnd := PutList(rlp, 0, concat);
    n := ToNodeReference(h, rlp[..], dest, at);
  }

  lemma WrittenWhole(b: Bytes, x: Bytes)
    requires |x| == |b|
    ensures Written(b, 0, x) == x
  {
  }

  lemma PiecesFit(m: nat, n: nat, first: Bytes, second: Bytes)
    requires m == |first| <= MAX_PATH && n == |second| < LEAF_LIMIT
    ensures StringLength(first) + StringLength(second) + n < SIZE_MAX
  {
    SizeFits(m);
    SizeFits(n);
  }

  /** The two pieces fill a buffer of the announced length. */
  method PutPieces(first: Bytes, second: Bytes, needEncodeSecond: bool) returns (concat: Bytes)
    requires |first| <= MAX_PATH && |second| < LEAF_LIMIT
    ensures concat == EncodeString(first) + if needEncodeSecond then EncodeString(second) else second
    ensures |concat| == StringLength(first) + if needEncodeSecond then StringLength(second) else |second|
  {
    hide Written, EncodeString;
    EncodedLengths(first);
    EncodedLengths(second);
    var concatLen := StringLength(first) + if needEncodeSecond then StringLength(second) else |second|;
    var out := new Byte[concatLen](i => 0);
    ghost var was := out[..];
    var end := PutString(out, 0, first);
    if needEncodeSecond {
      WrittenTwice(was, 0, EncodeString(first), [], EncodeString(second));
      end := PutString(out, end, second);
      WrittenWhole(was, EncodeString(first) + EncodeString(second));
    } else {
      WrittenTwice(was, 0, EncodeString(first), [], second);
      CopyTo(out, end, second);
      end := end + |second|;
      WrittenWhole(was, EncodeString(first) + second);
    }
    concat := out[..end];
  }

  /** What has been computed for a node that does not exist yet. */
  class InternalMerkleState {
    const buffer: array<Byte>
    var len: nat

    constructor ()
      ensures Idle() && fresh(buffer)
    {
      buffer := new Byte[KECCAK256_SIZE](i => 0);
      len := 0;
    }

    ghost predicate Idle()
      reads this
    {
      buffer.Length == KECCAK256_SIZE && len == 0
    }

    ghost predicate Carries(x: Bytes)
      reads this, buffer
    {
      buffer.Length == KECCAK256_SIZE && len == |x| <= KECCAK256_SIZE && buffer[..len] == x
    }

    /** A root is always a hash: of the encoding, whether that has been hashed already or not. */
    method KeccakInplaceToRootHash(h: Scheme, ghost rlp: Bytes)
      requires Carries(Reference(h, rlp))
      modifies this, buffer
      ensures Carries(h.keccak(rlp))
    {
      if len < KECCAK256_SIZE {
        CopyTo(buffer, 0, h.keccak(buffer[..len]));
        len := KECCAK256_SIZE;
      }
    }

    method Set(h: Scheme, rlp: Bytes)
      requires buffer.Length == KECCAK256_SIZE
      modifies this, buffer
      ensures Carries(Reference(h, rlp))
    {
      len := ToNodeReference(h, rlp, buffer, 0);
    }
  }

  method NodePath(node: RawNode, ghost p: Parts) returns (path: Key)
    requires Complete(node.mem[..], p)
    ensures PartsOk(p) && path == PathOf(p)
  {
    FieldsReadBack(node.mem[..], p);
    var header := ReadHeader(node.mem[..]);
    path := Nibbles(header.pathStart, header.pathEnd, node.mem[PathPos(node.mem[..])..ValuePos(node.mem[..])]);
  }

  method NodeValue(node: RawNode, ghost p: Parts) returns (value: Option<Bytes>)
    requires Complete(node.mem[..], p)
    ensures value == ValueOf(p)
  {
    FieldsReadBack(node.mem[..], p);
    value := if ReadHeader(node.mem[..]).hasValue then Some(node.mem[ValuePos(node.mem[..])..DataPos(node.mem[..])]) else None;
  }

  method NodeData(node: RawNode, ghost p: Parts) returns (data: Bytes)
    requires Complete(node.mem[..], p)
    ensures data == p.data
  {
    FieldsReadBack(node.mem[..], p);
    data := node.mem[DataPos(node.mem[..])..ChildDataPos(node.mem[..])];
  }

  lemma MaskShowsKids(h: Scheme, mask: Mask, kids: seq<Kid>, t: Tree)
    requires Faithful(h, mask, kids, t)
    ensures |mask| == BRANCHES && forall b: Nibble :: mask[b] <==> KidAt(t.kids, b).Some?
    ensures ShortData(kids)
  {
    hide NodeRlp, Reference;
    forall b: Nibble ensures mask[b] <==> KidAt(t.kids, b).Some? {
      assert FaithfulAt(h, mask, kids, t, b);
    }
    forall i | 0 <= i < |kids| ensures |kids[i].data| <= KECCAK256_SIZE {
      var b := BitAtRank(mask, i, BRANCHES);
      assert FaithfulAt(h, mask, kids, t, b);
    }
  }

  /** The branch a child index belongs to. */
  lemma {:induction false} BitAtRank(mask: Mask, i: nat, n: nat) returns (b: nat)
    requires n <= |mask| && i < Rank(mask, n)
    ensures b < n && mask[b] && Rank(mask, b) == i
  {
    if mask[n - 1] && Rank(mask, n - 1) == i {
      b := n - 1;
    } else {
      b := BitAtRank(mask, i, n - 1);
    }
  }

  lemma OnlyBit(mask: Mask, b: nat)
    requires |mask| == BRANCHES && Count(mask) == 1 && b < BRANCHES && mask[b]
    ensures forall c: nat | c < BRANCHES && c != b :: !mask[c]
  {
    forall c: nat | c < BRANCHES && c != b ensures !mask[c] {
      RankMono(mask, if b < c then b else c, if b < c then c else b);
      RankMono(mask, b, BRANCHES);
      RankMono(mask, c, BRANCHES);
    }
  }

  lemma {:induction false} RankOfOnly(mask: Mask, b: nat, n: nat)
    requires n <= |mask| && forall c: nat | c < n && c != b :: !mask[c]
    ensures Rank(mask, n) <= if b < n then 1 else 0
  {
    if n > 0 {
      RankOfOnly(mask, b, n - 1);
    }
  }

  /** With one branch, the data is the hash of the child moved up. */
  lemma SoleData(h: Scheme, t: Tree, b: Nibble)
    requires t.value.Some? && IsSole(t, b)
    ensures Data(h, t) == h.keccak(NodeRlp(h, KidAt(t.kids, b).value, [b] + KidAt(t.kids, b).value.path))
  {
    hide NodeRlp, TrieRlp;
    SoleTrie(h, t, b);
    assert HasKids(t);
  }

  /** With more, it is the hash of the list of branches. */
  lemma ForkData(h: Scheme, mask: Mask, kids: seq<Kid>, t: Tree)
    requires Faithful(h, mask, kids, t) && t.value.Some? && Count(mask) > 1
    ensures Data(h, t) == h.keccak(BranchRlp(h, t))
  {
    hide NodeRlp, BranchRlp, Faithful;
    MaskShowsKids(h, mask, kids, t);
    forall b: Nibble ensures !IsSole(t, b) {
      if IsSole(t, b) {
        forall c: Nibble | c != b ensures !mask[c] {
          assert Trie.Kid(t, c).None?;
        }
        RankOfOnly(mask, b, BRANCHES);
      }
    }
    var b := BitAtRank(mask, 0, BRANCHES);
    assert Trie.Kid(t, b).Some?;
  }

  /** A node about to be made with a single child has that child in memory. */
  ghost predicate SoleLoaded(h: Scheme, children: seq<ChildData>, t: Tree, sole: RawNode?, q: Parts, buffer: array<Byte>)
    reads if sole == null then {} else {sole.mem}
  {
    forall i | 0 <= i < |children| && IsValid(children, i) && children[i].branch < BRANCHES && IsSole(t, children[i].branch) ::
      sole != null && children[i].ptr == sole && sole.mem != buffer
      && Hashes(h, sole.mem[..], q, KidAt(t.kids, children[i].branch).value)
      && |KidAt(t.kids, children[i].branch).value.path| < MAX_PATH
  }

  class MerkleComputeBase {
    const scheme: Scheme
    const state: InternalMerkleState

    constructor (scheme: Scheme)
      ensures this.scheme == scheme && fresh(state) && fresh(state.buffer) && state.Idle()
    {
      this.scheme := scheme;
      state := new InternalMerkleState();
    }

    /** Hands over what is carried, or computes it from a finished node. */
    method ComputeBranch(dest: array<Byte>, at: nat, node: RawNode, ghost p: Parts) returns (n: nat)
      requires state.buffer.Length == KECCAK256_SIZE && state.len <= KECCAK256_SIZE && dest != state.buffer
      requires at + KECCAK256_SIZE <= dest.Length && (state.len == 0 ==> Complete(node.mem[..], p))
      modifies state, dest
      ensures state.Idle()
      ensures old(state.len) > 0 ==> n == old(state.len)
      ensures old(state.len) > 0 ==> dest[..] == Written(old(dest[..]), at, old(state.buffer[..state.len]))
      ensures old(state.len) == 0 ==> |p.header.mask| == BRANCHES && |p.kids| == Count(p.header.mask)
      ensures old(state.len) == 0 ==> n == |Reference(scheme, BranchList(p.header.mask, p.kids))| && at + n <= dest.Length
      ensures old(state.len) == 0 ==> dest[..] == Written(old(dest[..]), at, Reference(scheme, BranchList(p.header.mask, p.kids)))
    {
      hide Complete, Written, Reference, BranchList;
      if state.len != 0 {
        CopyTo(dest, at, state.buffer[..state.len]);
        n := state.len;
        state.len := 0;
      } else {
        var rlp := ListOfNode(node, p);
        n := ToNodeReference(scheme, rlp, dest, at);
      }
    }

    /** The reference of the branches of a node, from the node. */
    method BranchHash(node: RawNode, ghost p: Parts, ghost t: Tree) returns (hash: Bytes)
      requires state.Idle() && Hashes(scheme, node.mem[..], p, t)
      modifies state
      ensures state.Idle() && hash == Reference(scheme, BranchRlp(scheme, t))
    {
      hide Complete, Reference, BranchList, BranchRlp, Data, Faithful;
      BranchListIsRlp(scheme, p.header.mask, p.kids, t);
      var buffer := new Byte[KECCAK256_SIZE](i => 0);
      var len := ComputeBranch(buffer, 0, node, p);
      hash := buffer[..len];
    }

    /** The reference of a node, as its parent keeps it. */
    method Compute(dest: array<Byte>, at: nat, node: RawNode, ghost p: Parts, ghost t: Tree) returns (n: nat)
      requires state.Idle() && Hashes(scheme, node.mem[..], p, t) && |t.path| <= MAX_PATH
      requires dest != state.buffer && dest != node.mem && at + KECCAK256_SIZE <= dest.Length
      modifies state, dest
      ensures state.Idle() && n == |Reference(scheme, NodeRlp(scheme, t, t.path))| && at + n <= dest.Length
      ensures dest[..] == Written(old(dest[..]), at, Reference(scheme, NodeRlp(scheme, t, t.path)))
    {
      hide Complete, Reference, BranchList, BranchRlp, Data, Faithful, TwoPieces, Written, PathOf;
      var path := NodePath(node, p);
      var value := NodeValue(node, p);
      if value.Some? {
        var data := NodeData(node, p);
        n := EncodeTwoPieces(scheme, dest, at, path, scheme.leaf(value.value, data), true);
      } else if path != [] {
        var reference := BranchHash(node, p, t);
        n := EncodeTwoPieces(scheme, dest, at, path, reference, false);
      } else {
        BranchListIsRlp(scheme, p.header.mask, p.kids, t);
        n := ComputeBranch(dest, at, node, p);
      }
    }

    /** The reference the only child would have one nibble further up, into the state. */
    method HashWithExtraNibble(branch: Nibble, childData: Bytes, node: RawNode, ghost q: Parts, ghost c: Tree)
      requires state.Idle() && node.mem != state.buffer && Hashes(scheme, node.mem[..], q, c) && |c.path| < MAX_PATH
      requires childData == Reference(scheme, NodeRlp(scheme, c, c.path))
      modifies state, state.buffer
      ensures state.Carries(Reference(scheme, NodeRlp(scheme, c, [branch] + c.path)))
    {
      hide Complete, Reference, BranchList, BranchRlp, Data, Faithful, TwoPieces, Written, PathOf;
      var path := NodePath(node, q);
      var value := NodeValue(node, q);
      var second;
      if value.Some? {
        var data := NodeData(node, q);
        second := scheme.leaf(value.value, data);
      } else if path != [] {
        second := BranchHash(node, q, c);
      } else {
        second := childData;
      }
      state.len := EncodeTwoPieces(scheme, state.buffer, 0, [branch] + path, second, value.Some?);
      WrittenThere(old(state.buffer[..]), 0, Reference(scheme, NodeRlp(scheme, c, [branch] + c.path)));
    }

    /** Computes the data of a node to be made into the state and announces its length. */
    method ComputeLen(children: seq<ChildData>, mask: Mask, value: Option<Bytes>, ghost t: Tree,
                      ghost sole: RawNode?, ghost q: Parts)
      returns (n: nat)
      requires state.Idle() && Matches(mask, children) && Count(mask) > 0
      requires Faithful(scheme, mask, ValidKids(children), t) && t.value == value
      requires value.Some? ==> SoleLoaded(scheme, children, t, sole, q, state.buffer)
      modifies state, state.buffer
      ensures n == |Data(scheme, t)|
      ensures value.None? ==> n == 0 && state.Idle()
      ensures value.Some? ==> n == KECCAK256_SIZE && state.Carries(Data(scheme, t))
    {
      hide Complete, Reference, BranchList, BranchRlp, Faithful, TwoPieces, Written, ValidKids, Matches, SoleLoaded, NodeRlp, Slots, Data;
      if value.None? {
        NoData(scheme, t);
        return 0;
      }
      if Count(mask) == 1 {
        ComputeSole(children, mask, t, sole, q);
      } else {
        ForkData(scheme, mask, ValidKids(children), t);
        EnoughKids(mask, children);
        MaskShowsKids(scheme, mask, ValidKids(children), t);
        BranchListIsRlp(scheme, mask, ValidKids(children), t);
        var rlp := ListOfChildren(children, mask);
        state.Set(scheme, rlp);
        state.KeccakInplaceToRootHash(scheme, rlp);
      }
      n := KECCAK256_SIZE;
    }

    /** The only child gives its hash. */
    method ComputeSole(children: seq<ChildData>, mask: Mask, ghost t: Tree, ghost sole: RawNode?, ghost q: Parts)
      requires state.Idle() && Matches(mask, children) && Count(mask) == 1
      requires Faithful(scheme, mask, ValidKids(children), t) && t.value.Some?
      requires SoleLoaded(scheme, children, t, sole, q, state.buffer)
      modifies state, state.buffer
      ensures |Data(scheme, t)| == KECCAK256_SIZE && state.Carries(Data(scheme, t))
    {
      hide Complete, Reference, BranchList, BranchRlp, Faithful, TwoPieces, Written, ValidKids, Matches, SoleLoaded, NodeRlp, Slots, Data, Hashes;
      var k := FirstValid(children, mask);
      ghost var b := children[k].branch;
      SoleChild(scheme, children, mask, t, sole, q, state.buffer, k);
      ghost var c := KidAt(t.kids, b).value;
      HashWithExtraNibble(children[k].branch, children[k].kid.data, children[k].ptr, q, c);
      state.KeccakInplaceToRootHash(scheme, NodeRlp(scheme, c, [b] + c.path));
      SoleData(scheme, t, b);
    }

    /** Makes a node over children that have their references, with the hash of its branches if it has a value. */
    method CreateNodeWithChildren(mask: Mask, children: seq<ChildData>, path: NibblesView, value: Option<Bytes>, version: int,
                                  ghost t: Tree, ghost sole: RawNode?, ghost q: Parts)
      returns (node: RawNode)
      requires state.Idle() && Matches(mask, children) && Count(mask) > 0
      requires Faithful(scheme, mask, ValidKids(children), t) && t.value == value
      requires ViewOk(path) && t.path == Nibbles(path.start, path.end, path.bytes)
      requires value.Some? ==> SoleLoaded(scheme, children, t, sole, q, state.buffer)
      requires PartsOk(PartsOf(mask, children, path, value, Data(scheme, t), version))
      modifies state, state.buffer
      ensures state.Idle()
      ensures fresh(node) && fresh(node.mem) && node.next == ValidPointers(children)
      ensures Hashes(scheme, node.mem[..], PartsOf(mask, children, path, value, Data(scheme, t), version), t)
    {
      hide Complete, Faithful, ValidKids, ValidPointers, Matches, SoleLoaded, Data, PartsOk, Holds, BaseSize, CellAt, HoldsCell,
           ViewOk, Written, Reference, BranchList, DataPos, CalculateNodeSize, InternalMerkleState.Carries, HeaderOk;
      ghost var data := Data(scheme, t);
      ghost var p := PartsOf(mask, children, path, value, data, version);
      var dataSize := ComputeLen(children, mask, value, t, sole, q);
      node := MakeNode(mask, children, path, value, dataSize, version, data);
      ghost var s := Filled(|p.kids|).(data := false);
      DataRoom(node.mem[..], p, s);
      DataWritten(node.mem[..], p, s);
      if dataSize != 0 {
        var n := HandOver(node.mem, DataPos(node.mem[..]), node, p, data);
      }
      NewNodeHashes(scheme, node.mem[..], mask, children, path, value, t, version);
    }

    /** What is carried goes to where it belongs, and is carried no longer. */
    method HandOver(dest: array<Byte>, at: nat, node: RawNode, ghost p: Parts, ghost data: Bytes) returns (n: nat)
      requires state.Carries(data) && |data| == KECCAK256_SIZE && dest != state.buffer && at + KECCAK256_SIZE <= dest.Length
      modifies state, dest
      ensures state.Idle() && n == KECCAK256_SIZE
      ensures dest[..] == Written(old(dest[..]), at, data)
    {
      hide Complete, Written, Reference, BranchList;
      n := ComputeBranch(dest, at, node, p);
    }

    /** Sets the node of a child and the reference it is kept under. */
    method Finalize(child: ChildData, node: RawNode, ghost p: Parts, ghost t: Tree) returns (c: ChildData)
      requires state.Idle() && Hashes(scheme, node.mem[..], p, t) && |t.path| <= MAX_PATH
      modifies state
      ensures state.Idle()
      ensures c == child.(ptr := node, kid := child.kid.(data := Reference(scheme, NodeRlp(scheme, t, t.path))))
    {
      hide Hashes, Reference, NodeRlp;
      var data := new Byte[KECCAK256_SIZE](i => 0);
      var length := Compute(data, 0, node, p, t);
      c := child.(ptr := node, kid := child.kid.(data := data[..length]));
    }
  }

  lemma DataRoom(b: Bytes, p: Parts, s: Stage)
    requires PartsOk(p) && Holds(b, p, s) && s.header
    ensures |b| >= HEADER_SIZE && DataPos(b) == CellAt(p, DataCell) && DataPos(b) + |p.data| <= |b|
  {
    hide ReadHeader, HeaderBytes;
    StageTop(b, p, s);
    Positions(b, p);
    StoredLengths(p, DataCell);
  }

  lemma DataWritten(b: Bytes, p: Parts, s: Stage)
    requires PartsOk(p) && Holds(b, p, s) && s == Filled(|p.kids|).(data := false)
    ensures CellAt(p, DataCell) + |p.data| <= |b| && Complete(Written(b, CellAt(p, DataCell), p.data), p)
    ensures p.data == [] ==> Complete(b, p)
  {
    hide CellAt, BaseSize, Holds;
    TopContent(p);
    CellWritten(b, p, s, DataCell, Filled(|p.kids|));
    if p.data == [] {
      assert Written(b, CellAt(p, DataCell), p.data) == b;
    }
  }

  lemma NewNodeHashes(h: Scheme, b: Bytes, mask: Mask, children: seq<ChildData>, path: NibblesView, value: Option<Bytes>, t: Tree,
                      version: int)
    requires Complete(b, PartsOf(mask, children, path, value, Data(h, t), version))
    requires Faithful(h, mask, ValidKids(children), t) && t.value == value
    requires ViewOk(path) && t.path == Nibbles(path.start, path.end, path.bytes)
    ensures Hashes(h, b, PartsOf(mask, children, path, value, Data(h, t), version), t)
  {
    hide Complete, Faithful, ValidKids, Data;
    PartsAre(b, PartsOf(mask, children, path, value, Data(h, t), version));
  }

  /** What a node stores is the root form of what its branches hash to when asked again. */
  lemma StoredIsRecomputed(h: Scheme, b: Bytes, p: Parts, t: Tree)
    requires Hashes(h, b, p, t) && p.header.hasValue && Count(p.header.mask) > 1
    ensures |p.header.mask| == BRANCHES && |p.kids| == Count(p.header.mask)
    ensures p.data == h.keccak(BranchList(p.header.mask, p.kids))
    ensures |BranchList(p.header.mask, p.kids)| >= KECCAK256_SIZE ==> p.data == Reference(h, BranchList(p.header.mask, p.kids))
  {
    hide Complete, Faithful, BranchRlp, BranchList, Data;
    BranchListIsRlp(h, p.header.mask, p.kids, t);
    ForkData(h, p.header.mask, p.kids, t);
  }

  /** The hash of a whole trie is the root hash of the pairs it holds. */
  lemma RootHash(h: Scheme, t: Tree, m: Pairs, len: nat)
    requires Canonical(t) && Uniform(t, len) && Denotes(h, t, m)
    ensures Lengths(m, len) && m != map[]
    ensures var r := Reference(h, NodeRlp(h, t, t.path));
            (if |r| < KECCAK256_SIZE then h.keccak(r) else r) == h.keccak(Composition(h, m, len))
  {
    hide NodeRlp, Composition, Canonical, Uniform, Denotes;
    NodeIsComposition(h, t, m, len);
  }

  lemma NoData(h: Scheme, t: Tree)
    ensures t.value.None? ==> Data(h, t) == []
  {
  }

  lemma SoleChild(h: Scheme, children: seq<ChildData>, mask: Mask, t: Tree, sole: RawNode?, q: Parts, buffer: array<Byte>, k: nat)
    requires Matches(mask, children) && Count(mask) == 1 && k < |children| && IsValid(children, k)
    requires Faithful(h, mask, ValidKids(children), t) && SoleLoaded(h, children, t, sole, q, buffer)
    ensures children[k].branch < BRANCHES && IsSole(t, children[k].branch) && children[k].ptr != null && children[k].ptr.mem != buffer
    ensures var c := KidAt(t.kids, children[k].branch).value;
      && Hashes(h, children[k].ptr.mem[..], q, c) && |c.path| < MAX_PATH
      && children[k].kid.data == Reference(h, NodeRlp(h, c, c.path))
  {
    hide ValidKids, ValidPointers, NodeRlp, Reference, Hashes, Faithful;
    var b := children[k].branch;
    MaskShowsKids(h, mask, ValidKids(children), t);
    OnlyBit(mask, b);
    assert IsSole(t, b) by {
      forall c: Nibble | c != b ensures KidAt(t.kids, c).None? {
        assert !mask[c];
      }
    }
    ChildAtItsRank(mask, children, k);
    FaithfulHere(h, mask, ValidKids(children), t, b);
  }

  lemma FaithfulHere(h: Scheme, mask: Mask, kids: seq<Kid>, t: Tree, b: Nibble)
    requires Faithful(h, mask, kids, t) && |mask| == BRANCHES && mask[b]
    ensures Rank(mask, b) < |kids| && KidAt(t.kids, b).Some?
    ensures kids[Rank(mask, b)].data == Reference(h, NodeRlp(h, KidAt(t.kids, b).value, KidAt(t.kids, b).value.path))
  {
    assert FaithfulAt(h, mask, kids, t, b);
    RankMono(mask, b, BRANCHES);
  }

  method FirstValid(children: seq<ChildData>, mask: Mask) returns (k: nat)
    requires Matches(mask, children) && Count(mask) > 0
    ensures k < |children| && IsValid(children, k) && children[k].branch < BRANCHES
    ensures forall j | 0 <= j < k :: !IsValid(children, j)
  {
    ghost var b := BitAtRank(mask, 0, BRANCHES);
    assert HasChild(children, b);
    ghost var w :| 0 <= w < |children| && children[w].branch == b;
    k := 0;
    while children[k].branch == INVALID_BRANCH
      invariant 0 <= k <= w && forall j | 0 <= j < k :: !IsValid(children, j)
      decreases |children| - k
    {
      k := k + 1;
    }
  }
}
