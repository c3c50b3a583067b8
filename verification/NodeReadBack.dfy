/** What is read from a node is what was put into it. */
module NodeReadBack {
  import opened Trie
  import opened TrieHeap
  import opened NodeLayout
  import opened NodeCells
  import opened NodeBuffer

  function Fnext(b: Bytes, i: nat): nat
    requires FnextPos(i + 1) <= |b|
  {
    Load(b[FnextPos(i)..FnextPos(i + 1)])
  }

  function MinFast(b: Bytes, i: nat): nat
    requires |b| >= HEADER_SIZE && MinFastPos(b, i + 1) <= |b|
  {
    Load(b[MinFastPos(b, i)..MinFastPos(b, i + 1)])
  }

  function MinSlow(b: Bytes, i: nat): nat
    requires |b| >= HEADER_SIZE && MinSlowPos(b, i + 1) <= |b|
  {
    Load(b[MinSlowPos(b, i)..MinSlowPos(b, i + 1)])
  }

  function SubtrieMinVersion(b: Bytes, i: nat): int
    requires |b| >= HEADER_SIZE && MinVersionPos(b, i + 1) <= |b|
  {
    LoadInt64(b[MinVersionPos(b, i)..MinVersionPos(b, i + 1)])
  }

  function ChildDataView(b: Bytes, i: nat): Bytes
    requires |b| >= HEADER_SIZE && OffPos(b, i + 1) <= |b|
    requires ChildDataOffset(b, i) <= ChildDataOffset(b, i + 1) <= |b| - ChildDataPos(b)
  {
    b[ChildDataPos(b) + ChildDataOffset(b, i)..ChildDataPos(b) + ChildDataOffset(b, i + 1)]
  }

  ghost predicate Complete(b: Bytes, p: Parts) {
    PartsOk(p) && Holds(b, p, Filled(|p.kids|))
  }

  lemma CellThere(b: Bytes, p: Parts, c: Cell)
    requires Complete(b, p) && HasCell(p, c)
    ensures HoldsCell(b, p, c) && BaseSize(p) <= |b|
  {
  }

  /** The header and the single fields. */
  lemma FieldsReadBack(b: Bytes, p: Parts)
    requires Complete(b, p)
    ensures |b| >= HEADER_SIZE && ReadHeader(b) == p.header && Children(b) == |p.kids| && PathPos(b) <= |b|
    ensures DataPos(b) + |p.data| <= |b|
    ensures b[PathPos(b)..ValuePos(b)] == p.path && b[ValuePos(b)..DataPos(b)] == p.value && b[DataPos(b)..ChildDataPos(b)] == p.data
    ensures NextPos(b) == BaseSize(p) <= |b|
  {
    hide HeaderBytes, ReadHeader, Store, Load, Complete;
    CellThere(b, p, HeaderCell);
    CellThere(b, p, PathCell);
    CellThere(b, p, ValueCell);
    CellThere(b, p, DataCell);
    if |p.kids| > 0 {
      CellThere(b, p, OffCell(|p.kids| - 1));
    }
    PartsAre(b, p);
    Positions(b, p);
    DataOffsets(b, p, |p.kids|);
  }

  lemma PartsAre(b: Bytes, p: Parts)
    requires Complete(b, p)
    ensures PartsOk(p)
  {
  }

  /** What belongs to one child. */
  lemma KidReadBack(b: Bytes, p: Parts, i: nat)
    requires Complete(b, p) && i < |p.kids|
    ensures |b| >= HEADER_SIZE && FnextPos(i + 1) <= |b| && Fnext(b, i) == p.kids[i].offset
    ensures MinFastPos(b, i + 1) <= |b| && MinFast(b, i) == p.kids[i].minFast
    ensures MinSlowPos(b, i + 1) <= |b| && MinSlow(b, i) == p.kids[i].minSlow
    ensures MinVersionPos(b, i + 1) <= |b| && SubtrieMinVersion(b, i) == p.kids[i].minVersion
  {
    hide Complete, PartsOk, FnextPos, MinFastPos, MinSlowPos, MinVersionPos, CellAt, Content, BaseSize, HoldsCell, Store, Load;
    PartsAre(b, p);
    Places(b, p, i);
    CellThere(b, p, FnextCell(i));
    CellThere(b, p, MinFastCell(i));
    CellThere(b, p, MinSlowCell(i));
    CellThere(b, p, MinVersionCell(i));
    ReadsNumber(b, p, FnextCell(i), p.kids[i].offset);
    ReadsNumber(b, p, MinFastCell(i), p.kids[i].minFast);
    ReadsNumber(b, p, MinSlowCell(i), p.kids[i].minSlow);
    ReadsVersion(b, p, i);
  }

  /** The accessors' addresses and sizes for child `i`. */
  lemma Places(b: Bytes, p: Parts, i: nat)
    requires Complete(b, p) && i < |p.kids|
    ensures PartsOk(p) && KidOk(p.kids[i]) && |b| >= HEADER_SIZE
    ensures FnextPos(i) == CellAt(p, FnextCell(i)) && FnextPos(i + 1) == End(p, FnextCell(i))
    ensures MinFastPos(b, i) == CellAt(p, MinFastCell(i)) && MinFastPos(b, i + 1) == End(p, MinFastCell(i))
    ensures MinSlowPos(b, i) == CellAt(p, MinSlowCell(i)) && MinSlowPos(b, i + 1) == End(p, MinSlowCell(i))
    ensures MinVersionPos(b, i) == CellAt(p, MinVersionCell(i)) && MinVersionPos(b, i + 1) == End(p, MinVersionCell(i))
    ensures OffPos(b, i) == CellAt(p, OffCell(i)) && OffPos(b, i + 1) == End(p, OffCell(i))
    ensures ChildDataPos(b) == ChildDataAt(p)
  {
    hide ReadHeader, Store, Load, Complete, StoreInt64;
    PartsAre(b, p);
    CellThere(b, p, HeaderCell);
    Positions(b, p);
    StoredLengths(p, FnextCell(i));
    StoredLengths(p, MinFastCell(i));
    StoredLengths(p, MinSlowCell(i));
    StoredLengths(p, MinVersionCell(i));
    StoredLengths(p, OffCell(i));
  }

  predicate Number(c: Cell, k: Kid, v: nat) {
    match c
    case FnextCell(_) => v == k.offset
    case MinFastCell(_) => v == k.minFast
    case MinSlowCell(_) => v == k.minSlow
    case _ => false
  }

  lemma ReadsNumber(b: Bytes, p: Parts, c: Cell, v: nat)
    requires PartsOk(p) && HasCell(p, c) && HoldsCell(b, p, c) && (c.FnextCell? || c.MinFastCell? || c.MinSlowCell?)
    requires Number(c, p.kids[c.i], v)
    ensures End(p, c) <= |b| && Load(b[CellAt(p, c)..End(p, c)]) == v
  {
    hide Store, Load, CellAt, BaseSize;
    Powers();
    assert KidOk(p.kids[c.i]);
    LoadStore(if c.FnextCell? then FNEXT_SIZE else MIN_OFFSET_SIZE, v);
  }

  lemma ReadsVersion(b: Bytes, p: Parts, i: nat)
    requires PartsOk(p) && i < |p.kids| && HoldsCell(b, p, MinVersionCell(i))
    ensures var c := MinVersionCell(i); End(p, c) <= |b| && LoadInt64(b[CellAt(p, c)..End(p, c)]) == p.kids[i].minVersion
  {
    hide Store, Load, CellAt, BaseSize, LoadInt64, StoreInt64;
    assert KidOk(p.kids[i]);
    LoadStoreInt64(p.kids[i].minVersion);
  }

  lemma KidDataReadBack(b: Bytes, p: Parts, i: nat)
    requires Complete(b, p) && i < |p.kids|
    ensures |b| >= HEADER_SIZE && OffPos(b, i + 1) <= |b|
    ensures ChildDataOffset(b, i) <= ChildDataOffset(b, i + 1) <= |b| - ChildDataPos(b)
    ensures ChildDataView(b, i) == p.kids[i].data
  {
    hide Complete, PartsOk, OffPos, CellAt, Content, BaseSize, ChildDataPos, ChildDataOffset, ChildDataAt, DataOffset, HoldsCell;
    PartsAre(b, p);
    Places(b, p, i);
    CellThere(b, p, HeaderCell);
    CellThere(b, p, ChildCell(i));
    CellThere(b, p, OffCell(i));
    if i > 0 {
      CellThere(b, p, OffCell(i - 1));
    }
    DataOffsets(b, p, i);
    DataOffsets(b, p, i + 1);
    ChildSlice(b, p, i);
  }

  lemma ChildSlice(b: Bytes, p: Parts, i: nat)
    requires PartsOk(p) && i < |p.kids| && HoldsCell(b, p, ChildCell(i))
    ensures DataOffset(p.kids, i) <= DataOffset(p.kids, i + 1) && ChildDataAt(p) + DataOffset(p.kids, i + 1) <= |b|
    ensures var at := ChildDataAt(p); b[at + DataOffset(p.kids, i)..at + DataOffset(p.kids, i + 1)] == p.kids[i].data
  {
  }

  /** The valid children come by ascending branch, one for each branch of the mask. */
  ghost predicate Matches(mask: Mask, children: seq<ChildData>) {
    && |mask| == BRANCHES
    && (forall i | 0 <= i < |children| && IsValid(children, i) :: children[i].branch < BRANCHES && mask[children[i].branch])
    && (forall i, j | 0 <= i < j < |children| && IsValid(children, i) && IsValid(children, j) :: children[i].branch < children[j].branch)
    && forall b: nat | b < BRANCHES && mask[b] :: HasChild(children, b)
  }

  predicate IsValid(children: seq<ChildData>, i: nat)
    requires i < |children|
  {
    children[i].branch != INVALID_BRANCH
  }

  ghost predicate HasChild(children: seq<ChildData>, b: nat) {
    exists i :: 0 <= i < |children| && children[i].branch == b
  }

  /** `b` separates the first `i` children from the rest: its rank counts the valid ones among them. */
  lemma {:induction false} RankCounts(mask: Mask, children: seq<ChildData>, b: nat, i: nat)
    requires Matches(mask, children) && b <= BRANCHES && i <= |children|
    requires forall k | 0 <= k < i && IsValid(children, k) :: children[k].branch < b
    requires forall k | i <= k < |children| && IsValid(children, k) :: children[k].branch >= b
    ensures Rank(mask, b) == |ValidKids(children[..i])|
    decreases b, i
  {
    hide ValidKids, ValidPointers;
    NoKids();
    assert children[..0] == [];
    if i > 0 {
      ValidLength(children, i - 1);
    }
    if i > 0 && !IsValid(children, i - 1) {
      RankCounts(mask, children, b, i - 1);
    } else if b > 0 && i > 0 && children[i - 1].branch == b - 1 {
      RankCounts(mask, children, b - 1, i - 1);
    } else if b > 0 {
      forall k | 0 <= k < |children| ensures children[k].branch != b - 1 {
        assert IsValid(children, k) ==> k >= i || k == i - 1 || children[k].branch < children[i - 1].branch;
      }
      assert !HasChild(children, b - 1);
      RankCounts(mask, children, b - 1, i);
    }
  }

  /** Each child of a new node sits at the rank of its branch. */
  lemma ChildAtItsRank(mask: Mask, children: seq<ChildData>, i: nat)
    requires Matches(mask, children) && i < |children| && IsValid(children, i)
    ensures var r := Rank(mask, children[i].branch);
      && r < |ValidKids(children)| == |ValidPointers(children)|
      && ValidKids(children)[r] == children[i].kid && ValidPointers(children)[r] == children[i].ptr
  {
    hide ValidKids, ValidPointers;
    RankCounts(mask, children, children[i].branch, i);
    ValidLength(children, i);
    ValidPrefix(children, i + 1);
    ValidLength(children, |children|);
    assert children[..|children|] == children;
    assert ValidKids(children[..i + 1]) <= ValidKids(children) && ValidPointers(children[..i + 1]) <= ValidPointers(children);
  }

  lemma EnoughKids(mask: Mask, children: seq<ChildData>)
    requires Matches(mask, children)
    ensures |ValidKids(children)| == Count(mask)
  {
    RankCounts(mask, children, BRANCHES, |children|);
    assert children[..|children|] == children;
  }
}
