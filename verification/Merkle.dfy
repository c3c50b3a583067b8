/** Hashes over nodes in memory: branch data is computed before the node exists, carried, and handed over. */
module Merkle {
  import opened Arithmetic
  import opened Trie
  import opened TrieHeap
  import opened NodeLayout
  import opened NodeCells
  import opened NodeBuffer
  import opened NodeReadBack
  import opened Rlp
  import opened MerkleSpec

  const MAX_ITEM := 33
  const MAX_BRANCH_RLP := 532

  /** The items of the first `n` branches, from the data kept for the children. */
  function BranchItems(mask: Mask, kids: seq<Kid>, n: nat): Bytes
    requires |mask| == BRANCHES && |kids| == Count(mask) && n <= BRANCHES
  {
    if n == 0 then []
    else
      BranchItems(mask, kids, n - 1) +
      if mask[n - 1] then
        RankMono(mask, n - 1, BRANCHES);
        Item(kids[Rank(mask, n - 1)].data)
      else NO_ITEM
  }

  predicate ShortData(kids: seq<Kid>) {
    forall i | 0 <= i < |kids| :: |kids[i].data| <= KECCAK256_SIZE
  }

  lemma ItemLength(data: Bytes)
    requires |data| <= KECCAK256_SIZE
    ensures |Item(data)| <= MAX_ITEM
  {
    EncodedLengths(data);
  }

  /** All sixteen items fit the buffer, and so does the list of them. */
  lemma {:induction false} ItemsLength(mask: Mask, kids: seq<Kid>, n: nat)
    requires |mask| == BRANCHES && |kids| == Count(mask) && n <= BRANCHES && ShortData(kids)
    ensures |BranchItems(mask, kids, n)| <= n * MAX_ITEM
  {
    hide Item;
    if n > 0 {
      ItemsLength(mask, kids, n - 1);
      RankMono(mask, n - 1, BRANCHES);
      if mask[n - 1] {
        ItemLength(kids[Rank(mask, n - 1)].data);
      }
    }
  }

  lemma ListFits(n: nat)
    requires n <= BRANCHES * MAX_ITEM + 1
    ensures ListLength(n) <= MAX_BRANCH_RLP
  {
    assert Pow256(2) == 65536;
    FewLengthBytes(n, 2);
  }

  /** The data kept for the children are the references of the subtries. */
  ghost predicate Faithful(h: Scheme, mask: Mask, kids: seq<Kid>, t: Tree) {
    && |mask| == BRANCHES && |kids| == Count(mask)
    && forall b: Nibble :: FaithfulAt(h, mask, kids, t, b)
  }

  ghost predicate FaithfulAt(h: Scheme, mask: Mask, kids: seq<Kid>, t: Tree, b: Nibble)
    requires |mask| == BRANCHES && |kids| == Count(mask)
  {
    if mask[b] then
      RankMono(mask, b, BRANCHES);
      KidAt(t.kids, b).Some? && kids[Rank(mask, b)].data == Reference(h, NodeRlp(h, KidAt(t.kids, b).value, KidAt(t.kids, b).value.path))
    else KidAt(t.kids, b).None?
  }

  lemma {:induction false} ItemsAreSlots(h: Scheme, mask: Mask, kids: seq<Kid>, t: Tree, n: nat)
    requires Faithful(h, mask, kids, t) && n <= BRANCHES
    ensures BranchItems(mask, kids, n) == Slots(h, t, n)
  {
    hide NodeRlp, Reference, Item;
    if n > 0 {
      ItemsAreSlots(h, mask, kids, t, n - 1);
      assert FaithfulAt(h, mask, kids, t, n - 1);
    }
  }

  method PutItem(out: array<Byte>, at: nat, data: Bytes) returns (end: nat)
    requires |data| <= KECCAK256_SIZE && at + MAX_ITEM <= out.Length
    modifies out
    ensures end == at + |Item(data)| <= out.Length
    ensures out[..] == Written(old(out[..]), at, Item(data))
  {
    hide Written, EncodeString;
    EncodedLengths(data);
    if |data| < KECCAK256_SIZE {
      CopyTo(out, at, data);
      end := at + |data|;
    } else {
      end := PutString(out, at, data);
    }
  }

  method EncodeEmptyString(out: array<Byte>, at: nat) returns (end: nat)
    requires at < out.Length
    modifies out
    ensures end == at + 1
    ensures out[..] == Written(old(out[..]), at, NO_ITEM)
  {
    hide Written;
    CopyTo(out, at, NO_ITEM);
    end := at + 1;
  }

  /** No child is at a branch between two neighbours. */
  lemma NoChildBetween(mask: Mask, children: seq<ChildData>, k: nat, i: nat)
    requires Matches(mask, children) && k <= |children| && i < BRANCHES
    requires forall j | 0 <= j < k && IsValid(children, j) :: children[j].branch < i
    requires forall j | k <= j < |children| && IsValid(children, j) :: children[j].branch > i
    ensures !mask[i]
  {
    assert !HasChild(children, i) by {
      if j :| 0 <= j < |children| && children[j].branch == i {
        assert IsValid(children, j);
      }
    }
  }

  /** The valid children before `k` are below branch `i`, the others are not. */
  ghost predicate Cut(children: seq<ChildData>, k: nat, i: nat)
    requires k <= |children|
  {
    && (forall j | 0 <= j < k && IsValid(children, j) :: children[j].branch < i)
    && (forall j | k <= j < |children| && IsValid(children, j) :: children[j].branch >= i)
  }

  lemma CutSkip(children: seq<ChildData>, k: nat, i: nat)
    requires k < |children| && !IsValid(children, k) && Cut(children, k, i)
    ensures Cut(children, k + 1, i)
  {
  }

  lemma CutEnd(mask: Mask, children: seq<ChildData>)
    requires Matches(mask, children)
    ensures |mask| == BRANCHES && Cut(children, 0, 0) && Cut(children, |children|, BRANCHES)
  {
  }

  /** The items of the first `i` branches stand at `at` .. `end`, and nothing else has changed. */
  ghost predicate Emitted(b: Bytes, was: Bytes, at: nat, end: nat, mask: Mask, kids: seq<Kid>, i: nat) {
    && |mask| == BRANCHES && |kids| == Count(mask) && i <= BRANCHES
    && |b| == |was| && at + BRANCHES * MAX_ITEM <= |b|
    && end == at + |BranchItems(mask, kids, i)| <= at + i * MAX_ITEM
    && b == Written(was, at, BranchItems(mask, kids, i))
  }

  lemma NothingEmitted(mask: Mask, kids: seq<Kid>, b: Bytes, at: nat)
    requires |mask| == BRANCHES && |kids| == Count(mask) && at + BRANCHES * MAX_ITEM <= |b|
    ensures Emitted(b, b, at, at, mask, kids, 0)
  {
  }

  lemma NextItem(b: Bytes, was: Bytes, at: nat, end: nat, mask: Mask, kids: seq<Kid>, i: nat, x: Bytes)
    requires Emitted(b, was, at, end, mask, kids, i) && i < BRANCHES && |x| <= MAX_ITEM
    requires if mask[i] then Rank(mask, i) < |kids| && x == Item(kids[Rank(mask, i)].data) else x == NO_ITEM
    ensures end + MAX_ITEM <= |b| && Emitted(Written(b, end, x), was, at, end + |x|, mask, kids, i + 1)
  {
    hide Written, Item;
    WrittenTwice(was, at, BranchItems(mask, kids, i), [], x);
  }

  /** Writes the sixteen items from children listed by branch, with gaps. */
  method EncodeChildren(children: seq<ChildData>, out: array<Byte>, at: nat, ghost mask: Mask) returns (end: nat)
    requires Matches(mask, children) && ShortData(ValidKids(children)) && at + BRANCHES * MAX_ITEM <= out.Length
    modifies out
    ensures Emitted(out[..], old(out[..]), at, end, mask, ValidKids(children), BRANCHES)
  {
    hide ValidKids, ValidPointers, Matches, Emitted;
    EnoughKids(mask, children);
    CutEnd(mask, children);
    ghost var kids := ValidKids(children);
    NothingEmitted(mask, kids, out[..], at);
    end := at;
    var i: nat := 0;
    for k := 0 to |children|
      invariant i <= BRANCHES && Cut(children, k, i)
      invariant Emitted(out[..], old(out[..]), at, end, mask, kids, i)
    {
      if children[k].branch != INVALID_BRANCH {
        i, end := EncodeChild(children, k, out, end, i, at, mask, old(out[..]));
      } else {
        CutSkip(children, k, i);
      }
    }
    end := FillTo(children, |children|, out, end, i, BRANCHES, at, mask, old(out[..]));
  }

  /** Empty items for the branches up to the next child. */
  method FillTo(children: seq<ChildData>, k: nat, out: array<Byte>, from: nat, i0: nat, target: nat,
                ghost at: nat, ghost mask: Mask, ghost was: Bytes)
    returns (end: nat)
    requires Matches(mask, children) && k <= |children| && i0 <= target <= BRANCHES
    requires Cut(children, k, i0) && Cut(children, k, target)
    requires Emitted(out[..], was, at, from, mask, ValidKids(children), i0)
    modifies out
    ensures Emitted(out[..], was, at, end, mask, ValidKids(children), target)
  {
    hide ValidKids, Matches, Emitted;
    CutEnd(mask, children);
    var i := i0;
    end := from;
    while i != target
      invariant i0 <= i <= target
      invariant Emitted(out[..], was, at, end, mask, ValidKids(children), i)
      decreases target - i
    {
      NoChildBetween(mask, children, k, i);
      NextItem(out[..], was, at, end, mask, ValidKids(children), i, NO_ITEM);
      end := EncodeEmptyString(out, end);
      i := i + 1;
    }
  }

  /** One child, after the gap before it. */
  method EncodeChild(children: seq<ChildData>, k: nat, out: array<Byte>, from: nat, i0: nat,
                     ghost at: nat, ghost mask: Mask, ghost was: Bytes)
    returns (i: nat, end: nat)
    requires Matches(mask, children) && ShortData(ValidKids(children))
    requires k < |children| && IsValid(children, k) && i0 <= BRANCHES && Cut(children, k, i0)
    requires Emitted(out[..], was, at, from, mask, ValidKids(children), i0)
    modifies out
    ensures i <= BRANCHES && Cut(children, k + 1, i)
    ensures Emitted(out[..], was, at, end, mask, ValidKids(children), i)
  {
    hide ValidKids, ValidPointers, Matches, Item, Cut, ShortData, Count, Rank, Emitted;
    CutEnd(mask, children);
    CutAt(mask, children, k, i0);
    end := FillTo(children, k, out, from, i0, children[k].branch, at, mask, was);
    ShortKid(mask, children, k);
    ItemLength(children[k].kid.data);
    NextItem(out[..], was, at, end, mask, ValidKids(children), children[k].branch, Item(children[k].kid.data));
    end := PutItem(out, end, children[k].kid.data);
    i := children[k].branch + 1;
  }

  lemma ShortKid(mask: Mask, children: seq<ChildData>, k: nat)
    requires Matches(mask, children) && k < |children| && IsValid(children, k) && ShortData(ValidKids(children))
    ensures var r := Rank(mask, children[k].branch); r < |ValidKids(children)| && ValidKids(children)[r] == children[k].kid
    ensures |children[k].kid.data| <= KECCAK256_SIZE
  {
    hide ValidKids, ValidPointers;
    ChildAtItsRank(mask, children, k);
  }

  lemma CutAt(mask: Mask, children: seq<ChildData>, k: nat, i: nat)
    requires Matches(mask, children) && k < |children| && IsValid(children, k) && Cut(children, k, i)
    ensures i <= children[k].branch < BRANCHES && mask[children[k].branch]
    ensures Cut(children, k, children[k].branch) && Cut(children, k + 1, children[k].branch + 1)
  {
  }

  /** The same from a finished node, branch by branch. */
  method EncodeNodeChildren(node: RawNode, out: array<Byte>, at: nat, ghost p: Parts) returns (end: nat)
    requires Complete(node.mem[..], p) && out != node.mem && at + BRANCHES * MAX_ITEM <= out.Length
    modifies out
    ensures Emitted(out[..], old(out[..]), at, end, p.header.mask, p.kids, BRANCHES)
  {
    hide Item, ReadHeader, Complete, Emitted;
    MaskRead(node.mem[..], p);
    var mask := ReadHeader(node.mem[..]).mask;
    NothingEmitted(mask, p.kids, out[..], at);
    end := at;
    for i := 0 to BRANCHES
      invariant Emitted(out[..], old(out[..]), at, end, mask, p.kids, i)
    {
      if mask[i] {
        var childIndex := Rank(mask, i);
        RankMono(mask, i, BRANCHES);
        DataOfKid(node.mem[..], p, childIndex);
        var data := ChildDataView(node.mem[..], childIndex);
        ItemLength(data);
        NextItem(out[..], old(out[..]), at, end, mask, p.kids, i, Item(data));
        end := PutItem(out, end, data);
      } else {
        NextItem(out[..], old(out[..]), at, end, mask, p.kids, i, NO_ITEM);
        end := EncodeEmptyString(out, end);
      }
    }
  }

  lemma MaskRead(b: Bytes, p: Parts)
    requires Complete(b, p)
    ensures |b| >= HEADER_SIZE && ReadHeader(b).mask == p.header.mask && |p.header.mask| == BRANCHES && |p.kids| == Count(p.header.mask)
    ensures ShortData(p.kids)
  {
    FieldsReadBack(b, p);
  }

  lemma DataOfKid(b: Bytes, p: Parts, i: nat)
    requires Complete(b, p) && i < |p.kids|
    ensures |b| >= HEADER_SIZE && OffPos(b, i + 1) <= |b|
    ensures ChildDataOffset(b, i) <= ChildDataOffset(b, i + 1) <= |b| - ChildDataPos(b)
    ensures ChildDataView(b, i) == p.kids[i].data && |p.kids[i].data| <= KECCAK256_SIZE
  {
    hide ReadHeader, ChildDataOffset, ChildDataPos;
    KidDataReadBack(b, p, i);
    MaskRead(b, p);
  }
}
