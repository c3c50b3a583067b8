/** The builders that put data into a new node or make a node from another one. */
module NodeRemake {
  import opened Trie
  import opened TrieHeap
  import opened NodeLayout
  import opened NodeCells
  import opened NodeBuffer
  import opened NodeReadBack

  /** Makes a node whose branch data is given. */
  method MakeNodeWithData(mask: Mask, children: seq<ChildData>, path: NibblesView, value: Option<Bytes>, data: Bytes, version: int)
    returns (n: RawNode)
    requires PartsOk(PartsOf(mask, children, path, value, data, version))
    ensures fresh(n) && fresh(n.mem) && n.next == ValidPointers(children)
    ensures var p := PartsOf(mask, children, path, value, data, version);
            Complete(n.mem[..], p) && n.mem.Length == RoundUp8(BaseSize(p))
  {
    hide BaseSize, ValidKids, ValidPointers, PartsOk, CalculateNodeSize, CellAt;
    ghost var p := PartsOf(mask, children, path, value, data, version);
    n := MakeNode(mask, children, path, value, |data|, version, data);
    PutData(n.mem, data, p);
    SizesMatch(p);
    ValidLength(children, |children|);
    assert children[..|children|] == children;
  }

  lemma SizesMatch(p: Parts)
    requires PartsOk(p)
    ensures CalculateNodeSize(Count(p.header.mask), DataOffset(p.kids, |p.kids|), |p.value|, |p.path|, |p.data|)
         == RoundUp8(BaseSize(p)) + |p.kids| * POINTER_SIZE
  {
    AllocatedSize(p);
  }

  method PutData(mem: array<Byte>, data: Bytes, ghost p: Parts)
    requires PartsOk(p) && data == p.data && Holds(mem[..], p, Filled(|p.kids|).(data := false))
    modifies mem
    ensures Complete(mem[..], p)
  {
    hide BaseSize, CellAt, Holds, HoldsCell, PartsOk, DataPos;
    ghost var s := Filled(|p.kids|).(data := false);
    StageTop(mem[..], p, s);
    Positions(mem[..], p);
    TopContent(p);
    PutCell(mem, DataPos(mem[..]), data, p, s, DataCell, Filled(|p.kids|));
  }

  /** A field lies inside a written stretch and the stretch has its content. */
  ghost predicate Inside(p: Parts, c: Cell, at: nat, x: Bytes)
    requires PartsOk(p) && HasCell(p, c)
  {
    at <= CellAt(p, c) && End(p, c) <= at + |x| && x[CellAt(p, c) - at..End(p, c) - at] == Content(p, c)
  }

  ghost predicate Outside(p: Parts, c: Cell, at: nat, x: Bytes)
    requires PartsOk(p) && HasCell(p, c)
  {
    End(p, c) <= at || at + |x| <= CellAt(p, c)
  }

  /** Writing a stretch that holds several fields. */
  lemma BlockWritten(b: Bytes, p: Parts, s: Stage, at: nat, x: Bytes, s': Stage)
    requires PartsOk(p) && Holds(b, p, s) && at + |x| <= |b|
    requires forall c | HasCell(p, c) && Reached(s', c) :: Inside(p, c, at, x) || (Reached(s, c) && Outside(p, c, at, x))
    ensures Holds(Written(b, at, x), p, s')
  {
    hide CellAt, Content, BaseSize, HasCell, Written, Reached, Inside, Outside, HoldsCell, PartsOk;
    WrittenThere(b, at, x);
    forall c | HasCell(p, c) && Reached(s', c) ensures HoldsCell(Written(b, at, x), p, c) {
      if Inside(p, c, at, x) {
        InsideIsHeld(Written(b, at, x), p, c, at, x);
      } else {
        assert HoldsCell(b, p, c);
        OutsideIsHeld(b, p, c, at, x);
      }
    }
  }

  lemma InsideIsHeld(b: Bytes, p: Parts, c: Cell, at: nat, x: Bytes)
    requires PartsOk(p) && HasCell(p, c) && at + |x| <= |b| && b[at..at + |x|] == x && Inside(p, c, at, x)
    ensures HoldsCell(b, p, c)
  {
    hide CellAt, Content, PartsOk, HasCell;
    SubSlice(b, at, at + |x|, CellAt(p, c), End(p, c));
  }

  lemma OutsideIsHeld(b: Bytes, p: Parts, c: Cell, at: nat, x: Bytes)
    requires PartsOk(p) && HasCell(p, c) && at + |x| <= |b| && HoldsCell(b, p, c) && Outside(p, c, at, x)
    ensures HoldsCell(Written(b, at, x), p, c)
  {
    hide CellAt, Content, PartsOk, HasCell, Written;
    WrittenElsewhere(b, at, x, CellAt(p, c), End(p, c));
  }

  /** The parts of a node with another path, value and version. */
  function Remade(p: Parts, path: NibblesView, value: Option<Bytes>, version: int): Parts {
    var v := if value.Some? then value.value else [];
    Parts(Header(p.header.mask, value.Some?, path.start, path.end, p.header.dataLen, |v|, version), p.kids, path.bytes, v, p.data)
  }

  predicate ViewOk(path: NibblesView) {
    path.start <= 1 && path.start <= path.end < 256 && |path.bytes| == PathBytes(path.end)
  }

  lemma SubSlice(b: Bytes, lo: nat, hi: nat, from: nat, end: nat)
    requires lo <= from <= end <= hi <= |b|
    ensures b[lo..hi][from - lo..end - lo] == b[from..end]
  {
    var x, y := b[lo..hi][from - lo..end - lo], b[from..end];
    forall i | 0 <= i < end - from ensures x[i] == y[i] {
      assert b[lo..hi][from - lo + i] == b[from + i];
    }
  }

  predicate InArrays(c: Cell) {
    c.FnextCell? || c.MinFastCell? || c.MinSlowCell? || c.MinVersionCell? || c.OffCell?
  }

  /** The arrays lie at the same place in both nodes. */
  lemma SameArrays(p: Parts, q: Parts, c: Cell)
    requires PartsOk(p) && PartsOk(q) && p.kids == q.kids && InArrays(c) && HasCell(q, c)
    ensures HasCell(p, c) && CellAt(p, c) == CellAt(q, c) && Content(p, c) == Content(q, c)
    ensures HEADER_SIZE <= CellAt(q, c) && End(q, c) <= PathAt(|q.kids|)
  {
    hide HeaderBytes, Store, StoreInt64;
    StoredLengths(q, c);
    var n := |q.kids|;
    match c {
      case FnextCell(i) => assert End(q, c) == HEADER_SIZE + (i + 1) * FNEXT_SIZE;
      case MinFastCell(i) => assert End(q, c) == HEADER_SIZE + n * FNEXT_SIZE + (i + 1) * MIN_OFFSET_SIZE;
      case MinSlowCell(i) => assert End(q, c) == HEADER_SIZE + n * FNEXT_SIZE + n * MIN_OFFSET_SIZE + (i + 1) * MIN_OFFSET_SIZE;
      case MinVersionCell(i) => assert End(q, c) == HEADER_SIZE + n * FNEXT_SIZE + 2 * n * MIN_OFFSET_SIZE + (i + 1) * MIN_VERSION_SIZE;
      case OffCell(i) => assert End(q, c) <= PathAt(n);
    }
  }

  /** The top fields lie before and behind the arrays. */
  lemma AroundArrays(q: Parts, c: Cell)
    requires PartsOk(q) && (c.HeaderCell? || c.PathCell? || c.ValueCell?)
    ensures HasCell(q, c) && (End(q, c) <= HEADER_SIZE || PathAt(|q.kids|) <= CellAt(q, c))
  {
    hide HeaderBytes;
  }

  lemma ArraysBlock(b: Bytes, p: Parts, q: Parts, c: Cell)
    requires PartsOk(p) && PartsOk(q) && p.kids == q.kids && Complete(b, p) && HasCell(q, c)
    requires InArrays(c) || c.HeaderCell? || c.PathCell? || c.ValueCell?
    ensures HEADER_SIZE <= PathAt(|p.kids|) <= |b|
    ensures var x := b[HEADER_SIZE..PathAt(|p.kids|)];
      if InArrays(c) then Inside(q, c, HEADER_SIZE, x) else Outside(q, c, HEADER_SIZE, x)
  {
    hide CellAt, Content, Complete, HoldsCell, BaseSize, PartsOk, Inside;
    PartsAre(b, p);
    Fits(p);
    CellThere(b, p, HeaderCell);
    if InArrays(c) {
      SameArrays(p, q, c);
      CellThere(b, p, c);
      CarriedInside(b, p, q, c, HEADER_SIZE, PathAt(|p.kids|), HEADER_SIZE);
    } else {
      AroundArrays(q, c);
      SliceLength(b, HEADER_SIZE, PathAt(|p.kids|));
    }
  }

  lemma HeldSlice(b: Bytes, p: Parts, c: Cell)
    requires PartsOk(p) && HasCell(p, c) && HoldsCell(b, p, c)
    ensures End(p, c) <= |b| && b[CellAt(p, c)..End(p, c)] == Content(p, c)
  {
  }

  /** The branch data and the child data keep their distances. */
  lemma SameTail(p: Parts, q: Parts, c: Cell)
    requires PartsOk(p) && PartsOk(q) && p.kids == q.kids && p.data == q.data && HasCell(q, c)
    ensures CellAt(p, DataCell) <= BaseSize(p)
    ensures c.DataCell? || c.ChildCell? ==> HasCell(p, c) && Content(p, c) == Content(q, c)
    ensures c.DataCell? || c.ChildCell? ==> CellAt(p, DataCell) <= CellAt(p, c) && End(p, c) <= BaseSize(p)
    ensures c.DataCell? || c.ChildCell? ==> CellAt(p, c) - CellAt(p, DataCell) == CellAt(q, c) - CellAt(q, DataCell)
    ensures !c.DataCell? && !c.ChildCell? ==> End(q, c) <= CellAt(q, DataCell)
  {
    hide HeaderBytes, Store, StoreInt64;
    StoredLengths(q, c);
    if c.ChildCell? {
      StoredLengths(p, c);
    }
  }

  /** They move as one stretch, to wherever the new value ends. */
  lemma DataBlock(b: Bytes, p: Parts, q: Parts, c: Cell)
    requires PartsOk(p) && PartsOk(q) && p.kids == q.kids && p.data == q.data && Complete(b, p) && HasCell(q, c)
    ensures CellAt(p, DataCell) <= BaseSize(p) <= |b|
    ensures var x := b[CellAt(p, DataCell)..BaseSize(p)]; var at := CellAt(q, DataCell);
      if c.DataCell? || c.ChildCell? then Inside(q, c, at, x) else Outside(q, c, at, x)
  {
    hide CellAt, Content, Complete, HoldsCell, BaseSize, PartsOk, Inside;
    SameTail(p, q, c);
    CellThere(b, p, HeaderCell);
    if c.DataCell? || c.ChildCell? {
      CellThere(b, p, c);
      CarriedInside(b, p, q, c, CellAt(p, DataCell), BaseSize(p), CellAt(q, DataCell));
    } else {
      SliceLength(b, CellAt(p, DataCell), BaseSize(p));
    }
  }

  /** What lies in a stretch lies in its copy, as far from the start. */
  lemma Carried(b: Bytes, lo: nat, hi: nat, from: nat, end: nat, at: nat, here: nat, content: Bytes)
    requires lo <= from <= end <= hi <= |b| && at <= here && from - lo == here - at && b[from..end] == content
    ensures var x := b[lo..hi];
      here + |content| <= at + |x| && x[here - at..here + |content| - at] == content
  {
    SubSlice(b, lo, hi, from, end);
  }

  /** A field lies in the copy of a stretch that holds it, as far from the start. */
  lemma CarriedInside(b: Bytes, p: Parts, q: Parts, c: Cell, lo: nat, hi: nat, at: nat)
    requires PartsOk(p) && PartsOk(q) && HasCell(p, c) && HasCell(q, c) && Content(p, c) == Content(q, c) && HoldsCell(b, p, c)
    requires lo <= CellAt(p, c) && End(p, c) <= hi <= |b| && at <= CellAt(q, c) && CellAt(p, c) - lo == CellAt(q, c) - at
    ensures Inside(q, c, at, b[lo..hi])
  {
    HeldSlice(b, p, c);
    hide CellAt, Content, HoldsCell, PartsOk, Inside, HasCell;
    Carried(b, lo, hi, CellAt(p, c), End(p, c), at, CellAt(q, c), Content(q, c));
    InsideIs(q, c, at, b[lo..hi]);
  }

  lemma InsideIs(q: Parts, c: Cell, at: nat, x: Bytes)
    requires PartsOk(q) && HasCell(q, c) && at <= CellAt(q, c) && CellAt(q, c) + |Content(q, c)| <= at + |x|
    requires x[CellAt(q, c) - at..CellAt(q, c) + |Content(q, c)| - at] == Content(q, c)
    ensures Inside(q, c, at, x)
  {
    hide CellAt, Content, PartsOk, HasCell;
  }

  lemma SliceLength(b: Bytes, lo: nat, hi: nat)
    requires lo <= hi <= |b|
    ensures |b[lo..hi]| == hi - lo
  {
  }

  /** Makes the same node with another path, value and version; the child pointers move over. */
  method MakeNodeFrom(from: RawNode, path: NibblesView, value: Option<Bytes>, version: int, ghost p: Parts) returns (n: RawNode)
    requires Complete(from.mem[..], p) && |from.next| == |p.kids| && ViewOk(path) && IsInt64(version)
    requires value.Some? ==> |value.value| < 0x1_0000_0000
    modifies from`next
    ensures fresh(n) && fresh(n.mem)
    ensures var q := Remade(p, path, value, version); Complete(n.mem[..], q) && n.mem.Length == RoundUp8(BaseSize(q))
    ensures n.next == old(from.next)
    ensures |from.next| == |old(from.next)| && forall i | 0 <= i < |from.next| :: from.next[i] == null
  {
    ghost var q := Remade(p, path, value, version);
    RemadeSize(from.mem[..], p, path, value, version);
    hide BaseSize, CellAt, Complete, PartsOk, Holds, CalculateNodeSize, ReadHeader, Written, PathPos, DataPos, NextPos, HeaderOk,
         ChildDataOffset, Count, Children, RoundUp8;
    var h := ReadHeader(from.mem[..]);
    var count := Count(h.mask);
    var v := if value.Some? then value.value else [];
    var size := CalculateNodeSize(count, ChildDataOffset(from.mem[..], count), |v|, |path.bytes|, h.dataLen);
    var mem := new Byte[size - count * POINTER_SIZE](i => 0);
    PutTop(mem, Header(h.mask, value.Some?, path.start, path.end, h.dataLen, |v|, version), path.bytes, v, q);
    CopyBlocks(mem, from.mem, p, q);
    n := new RawNode(mem, from.next);
    from.next := seq(|from.next|, i => null);
  }

  /** The two stretches that do not change. */
  method CopyBlocks(mem: array<Byte>, from: array<Byte>, ghost p: Parts, ghost q: Parts)
    requires Complete(from[..], p) && PartsOk(q) && p.kids == q.kids && p.data == q.data
    requires mem != from && Holds(mem[..], q, TopStage(0))
    modifies mem
    ensures Complete(mem[..], q)
  {
    ghost var b := from[..];
    PartsAre(b, p);
    FieldsReadBack(b, p);
    SourceSizes(b, p);
    hide BaseSize, CellAt, Complete, PartsOk, Holds, HoldsCell, ReadHeader, Written, PathPos, DataPos, NextPos, Inside, Outside, Reached,
         ChildDataOffset, Children;
    ghost var n := |q.kids|;
    ghost var arrays := ArrayStage(n);
    forall c | HasCell(q, c) && Reached(arrays, c)
      ensures var x := b[HEADER_SIZE..PathAt(n)]; Inside(q, c, HEADER_SIZE, x) || (Reached(TopStage(0), c) && Outside(q, c, HEADER_SIZE, x))
    {
      StageKinds(n, c);
      ArraysBlock(b, p, q, c);
    }
    StageTop(mem[..], q, TopStage(0));
    Fits(q);
    BlockWritten(mem[..], q, TopStage(0), HEADER_SIZE, b[HEADER_SIZE..PathAt(n)], arrays);
    CopyTo(mem, HEADER_SIZE, from[HEADER_SIZE..PathPos(from[..])]);
    CopyData(mem, from, p, q);
  }

  /** Everything but the branch data and the child data. */
  function ArrayStage(n: nat): Stage {
    TopStage(n).(fnext := n, minFast := n, minSlow := n, minVersion := n)
  }

  lemma StageKinds(n: nat, c: Cell)
    ensures Reached(ArrayStage(n), c) ==> InArrays(c) || Reached(TopStage(0), c)
    ensures Reached(TopStage(0), c) <==> c.HeaderCell? || c.PathCell? || c.ValueCell?
    ensures Reached(Filled(n), c) && !c.DataCell? && !c.ChildCell? ==> Reached(ArrayStage(n), c)
  {
  }

  method CopyData(mem: array<Byte>, from: array<Byte>, ghost p: Parts, ghost q: Parts)
    requires Complete(from[..], p) && PartsOk(q) && p.kids == q.kids && p.data == q.data
    requires mem != from && Holds(mem[..], q, ArrayStage(|q.kids|))
    modifies mem
    ensures Complete(mem[..], q)
  {
    ghost var b, n := from[..], |q.kids|;
    PartsAre(b, p);
    FieldsReadBack(b, p);
    SourceSizes(b, p);
    hide BaseSize, CellAt, Complete, PartsOk, Holds, HoldsCell, ReadHeader, Written, PathPos, DataPos, NextPos, Inside, Outside, Reached,
         ChildDataOffset, Children;
    StageTop(mem[..], q, ArrayStage(n));
    Positions(mem[..], q);
    Fits(p);
    Fits(q);
    forall c | HasCell(q, c) && Reached(Filled(n), c)
      ensures var x := b[CellAt(p, DataCell)..BaseSize(p)]; var at := CellAt(q, DataCell);
              Inside(q, c, at, x) || (Reached(ArrayStage(n), c) && Outside(q, c, at, x))
    {
      StageKinds(n, c);
      DataBlock(b, p, q, c);
    }
    BlockWritten(mem[..], q, ArrayStage(n), CellAt(q, DataCell), b[CellAt(p, DataCell)..BaseSize(p)], Filled(n));
    CopyTo(mem, DataPos(mem[..]), from[DataPos(from[..])..NextPos(from[..])]);
    CompleteNow(mem[..], q);
  }

  lemma CompleteNow(b: Bytes, p: Parts)
    requires PartsOk(p) && Holds(b, p, Filled(|p.kids|))
    ensures Complete(b, p)
  {
  }

  lemma Fits(p: Parts)
    requires PartsOk(p)
    ensures PathAt(|p.kids|) <= CellAt(p, DataCell) <= BaseSize(p) && HEADER_SIZE <= PathAt(|p.kids|)
    ensures BaseSize(p) - CellAt(p, DataCell) == |p.data| + DataOffset(p.kids, |p.kids|)
  {
  }

  lemma RemadeOk(b: Bytes, p: Parts, path: NibblesView, value: Option<Bytes>, version: int)
    requires Complete(b, p) && ViewOk(path) && IsInt64(version) && (value.Some? ==> |value.value| < 0x1_0000_0000)
    ensures PartsOk(p) && PartsOk(Remade(p, path, value, version))
  {
  }

  /** What is read from the old node gives the size of the new one. */
  lemma RemadeSize(b: Bytes, p: Parts, path: NibblesView, value: Option<Bytes>, version: int)
    requires Complete(b, p) && ViewOk(path) && IsInt64(version) && (value.Some? ==> |value.value| < 0x1_0000_0000)
    ensures var q := Remade(p, path, value, version); var n := |p.kids|;
      && PartsOk(p) && PartsOk(q) && |b| >= HEADER_SIZE && ReadHeader(b) == p.header && Count(p.header.mask) == n == Children(b)
      && PathPos(b) == PathAt(n) <= |b|
      && CalculateNodeSize(n, ChildDataOffset(b, n), |q.value|, |path.bytes|, p.header.dataLen) == RoundUp8(BaseSize(q)) + n * POINTER_SIZE
  {
    RemadeOk(b, p, path, value, version);
    FieldsReadBack(b, p);
    SourceSizes(b, p);
    AllocatedSize(Remade(p, path, value, version));
    hide BaseSize, Complete, CalculateNodeSize, ReadHeader, PathPos, DataPos, NextPos, HeaderOk, ChildDataOffset, Count, Children, RoundUp8;
  }

  /** What the sizes and addresses read from the old node come to. */
  lemma SourceSizes(b: Bytes, p: Parts)
    requires Complete(b, p)
    ensures |b| >= HEADER_SIZE && PathPos(b) == PathAt(|p.kids|) <= |b| && DataPos(b) == CellAt(p, DataCell)
    ensures Children(b) == |p.kids| == Count(p.header.mask) && ChildDataOffset(b, |p.kids|) == DataOffset(p.kids, |p.kids|)
    ensures NextPos(b) == BaseSize(p) <= |b| && CellAt(p, DataCell) <= BaseSize(p)
  {
    hide HeaderBytes, ReadHeader, Store, Load;
    FieldsReadBack(b, p);
    CellThere(b, p, HeaderCell);
    Positions(b, p);
    if |p.kids| > 0 {
      CellThere(b, p, OffCell(|p.kids| - 1));
    }
    DataOffsets(b, p, |p.kids|);
  }
}
