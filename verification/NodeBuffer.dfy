/** Nodes as bytes in memory: the builders write them field by field, the accessors find the fields again. */
module NodeBuffer {
  import opened Trie
  import opened TrieHeap
  import opened NodeLayout
  import opened NodeCells

  function Written(b: Bytes, at: nat, x: Bytes): (r: Bytes)
    requires at + |x| <= |b|
    ensures |r| == |b|
  {
    b[..at] + x + b[at + |x|..]
  }

  lemma WrittenElsewhere(b: Bytes, at: nat, x: Bytes, lo: nat, hi: nat)
    requires at + |x| <= |b| && lo <= hi <= |b| && (hi <= at || at + |x| <= lo)
    ensures Written(b, at, x)[lo..hi] == b[lo..hi]
  {
  }

  lemma WrittenThere(b: Bytes, at: nat, x: Bytes)
    requires at + |x| <= |b|
    ensures Written(b, at, x)[at..at + |x|] == x
  {
  }

  method CopyTo(mem: array<Byte>, at: nat, x: Bytes)
    requires at + |x| <= mem.Length
    modifies mem
    ensures mem[..] == Written(old(mem[..]), at, x)
  {
    for i := 0 to |x|
      invariant mem[..at] == old(mem[..at]) && mem[at..at + i] == x[..i] && mem[at + i..] == old(mem[at + i..])
    {
      mem[at + i] := x[i];
    }
    assert mem[..] == mem[..at] + mem[at..at + |x|] + mem[at + |x|..];
  }

  /** How far a node has been filled in: how many elements of each array, and which single fields. */
  datatype Stage = Stage(header: bool, path: bool, value: bool, data: bool,
                         offs: nat, fnext: nat, minFast: nat, minSlow: nat, minVersion: nat, child: nat)

  predicate Reached(s: Stage, c: Cell) {
    match c
    case HeaderCell => s.header
    case PathCell => s.path
    case ValueCell => s.value
    case DataCell => s.data
    case FnextCell(i) => i < s.fnext
    case MinFastCell(i) => i < s.minFast
    case MinSlowCell(i) => i < s.minSlow
    case MinVersionCell(i) => i < s.minVersion
    case OffCell(i) => i < s.offs
    case ChildCell(i) => i < s.child
  }

  /** The fields filled in so far are in place. */
  ghost predicate Holds(b: Bytes, p: Parts, s: Stage)
    requires PartsOk(p)
  {
    BaseSize(p) <= |b| && forall c | HasCell(p, c) && Reached(s, c) :: HoldsCell(b, p, c)
  }

  ghost predicate HoldsCell(b: Bytes, p: Parts, c: Cell)
    requires PartsOk(p) && HasCell(p, c)
  {
    End(p, c) <= |b| && b[CellAt(p, c)..End(p, c)] == Content(p, c)
  }

  /** Writing one field leaves the others alone. */
  lemma CellWritten(b: Bytes, p: Parts, s: Stage, c: Cell, s': Stage)
    requires PartsOk(p) && Holds(b, p, s) && HasCell(p, c) && !Reached(s, c)
    requires forall d | Reached(s', d) :: Reached(s, d) || d == c
    ensures End(p, c) <= |b| && Holds(Written(b, CellAt(p, c), Content(p, c)), p, s')
  {
    hide CellAt, Content, BaseSize, HasCell, Written, Reached;
    StoredLengths(p, c);
    var b' := Written(b, CellAt(p, c), Content(p, c));
    forall d | HasCell(p, d) && Reached(s', d) ensures HoldsCell(b', p, d) {
      if d == c {
        WrittenThere(b, CellAt(p, c), Content(p, c));
      } else {
        assert HoldsCell(b, p, d);
        CellsApart(p, c, d);
        WrittenElsewhere(b, CellAt(p, c), Content(p, c), CellAt(p, d), End(p, d));
      }
    }
  }

  function Children(b: Bytes): nat
    requires |b| >= HEADER_SIZE
  {
    Count(ReadHeader(b).mask)
  }

  /** The address of array element `i`, by array. */
  function FnextPos(i: nat): nat {
    HEADER_SIZE + i * FNEXT_SIZE
  }

  function MinFastPos(b: Bytes, i: nat): nat
    requires |b| >= HEADER_SIZE
  {
    HEADER_SIZE + Children(b) * FNEXT_SIZE + i * MIN_OFFSET_SIZE
  }

  function MinSlowPos(b: Bytes, i: nat): nat
    requires |b| >= HEADER_SIZE
  {
    MinFastPos(b, 0) + Children(b) * MIN_OFFSET_SIZE + i * MIN_OFFSET_SIZE
  }

  function MinVersionPos(b: Bytes, i: nat): nat
    requires |b| >= HEADER_SIZE
  {
    MinSlowPos(b, 0) + Children(b) * MIN_OFFSET_SIZE + i * MIN_VERSION_SIZE
  }

  function OffPos(b: Bytes, i: nat): nat
    requires |b| >= HEADER_SIZE
  {
    MinVersionPos(b, 0) + Children(b) * MIN_VERSION_SIZE + i * DATA_OFFSET_SIZE
  }

  function PathPos(b: Bytes): nat
    requires |b| >= HEADER_SIZE
  {
    OffPos(b, 0) + Children(b) * DATA_OFFSET_SIZE
  }

  function ValuePos(b: Bytes): nat
    requires |b| >= HEADER_SIZE
  {
    PathPos(b) + PathBytes(ReadHeader(b).pathEnd)
  }

  function DataPos(b: Bytes): nat
    requires |b| >= HEADER_SIZE
  {
    ValuePos(b) + ReadHeader(b).valueLen
  }

  function ChildDataPos(b: Bytes): nat
    requires |b| >= HEADER_SIZE
  {
    DataPos(b) + ReadHeader(b).dataLen
  }

  function ChildDataOffset(b: Bytes, i: nat): nat
    requires |b| >= HEADER_SIZE && (i > 0 ==> OffPos(b, i) <= |b|)
  {
    if i == 0 then 0 else Load(b[OffPos(b, i - 1)..OffPos(b, i)])
  }

  /** The end of the fields, found by walking through them. */
  function NextPos(b: Bytes): nat
    requires |b| >= HEADER_SIZE && PathPos(b) <= |b|
  {
    ChildDataPos(b) + ChildDataOffset(b, Children(b))
  }

  /** The addresses the accessors compute are those of the fields. */
  lemma Positions(b: Bytes, p: Parts)
    requires PartsOk(p) && BaseSize(p) <= |b| && HoldsCell(b, p, HeaderCell)
    ensures |b| >= HEADER_SIZE && ReadHeader(b) == p.header && Children(b) == |p.kids|
    ensures PathPos(b) == CellAt(p, PathCell) == PathAt(|p.kids|) && ValuePos(b) == CellAt(p, ValueCell) && DataPos(b) == CellAt(p, DataCell)
    ensures ChildDataPos(b) == ChildDataAt(p)
    ensures forall i | 0 <= i < |p.kids| ::
      && FnextPos(i) == CellAt(p, FnextCell(i)) && MinFastPos(b, i) == CellAt(p, MinFastCell(i)) && MinSlowPos(b, i) == CellAt(p, MinSlowCell(i))
      && MinVersionPos(b, i) == CellAt(p, MinVersionCell(i)) && OffPos(b, i) == CellAt(p, OffCell(i))
  {
    hide HeaderBytes, ReadHeader, Store, Load;
    assert HoldsCell(b, p, HeaderCell);
    StoredLengths(p, HeaderCell);
    HeaderRoundTrip(p.header, b);
  }

  /** The data offsets lead to the data of each child, and past the last one to the end. */
  lemma {:induction false} DataOffsets(b: Bytes, p: Parts, i: nat)
    requires PartsOk(p) && i <= |p.kids| && BaseSize(p) <= |b| && HoldsCell(b, p, HeaderCell)
    requires i > 0 ==> HoldsCell(b, p, OffCell(i - 1))
    ensures |b| >= HEADER_SIZE && (i > 0 ==> OffPos(b, i) <= |b|) && ChildDataOffset(b, i) == DataOffset(p.kids, i)
  {
    hide HeaderBytes, ReadHeader, Store, Load;
    Positions(b, p);
    if i > 0 {
      var c := OffCell(i - 1);
      assert HoldsCell(b, p, c);
      StoredLengths(p, c);
      DataOffsetBound(p.kids, i);
      Powers();
      LoadStore(DATA_OFFSET_SIZE, DataOffset(p.kids, i));
    }
  }

  const INVALID_BRANCH := 255

  /** A child on its way into a node; erased children have no branch and are skipped. */
  datatype ChildData = ChildData(branch: nat, ptr: RawNode?, kid: Kid)

  function ValidKids(children: seq<ChildData>): seq<Kid> {
    if children == [] then []
    else ValidKids(children[..|children| - 1]) +
         if children[|children| - 1].branch != INVALID_BRANCH then [children[|children| - 1].kid] else []
  }

  function ValidPointers(children: seq<ChildData>): seq<RawNode?> {
    if children == [] then []
    else ValidPointers(children[..|children| - 1]) +
         if children[|children| - 1].branch != INVALID_BRANCH then [children[|children| - 1].ptr] else []
  }

  lemma {:induction false} ValidLength(children: seq<ChildData>, n: nat)
    requires n <= |children|
    ensures |ValidKids(children[..n])| == |ValidPointers(children[..n])|
    ensures n < |children| ==> (ValidKids(children[..n + 1])
              == ValidKids(children[..n]) + if children[n].branch != INVALID_BRANCH then [children[n].kid] else [])
    ensures n < |children| ==> (ValidPointers(children[..n + 1])
              == ValidPointers(children[..n]) + if children[n].branch != INVALID_BRANCH then [children[n].ptr] else [])
  {
    if n > 0 {
      ValidLength(children, n - 1);
      assert children[..n][..n - 1] == children[..n - 1];
    }
    if n < |children| {
      assert children[..n + 1][..n] == children[..n];
    }
  }

  /** A packed path: nibbles `start` .. `end` of these bytes. */
  datatype NibblesView = NibblesView(start: nat, end: nat, bytes: Bytes)

  /** The parts of the node being made. */
  function PartsOf(mask: Mask, children: seq<ChildData>, path: NibblesView, value: Option<Bytes>, data: Bytes, version: int): Parts {
    var v := if value.Some? then value.value else [];
    Parts(Header(mask, value.Some?, path.start, path.end, |data|, |v|, version), ValidKids(children), path.bytes, v, data)
  }

  class RawNode {
    const mem: array<Byte>
    var next: seq<RawNode?>

    constructor (mem: array<Byte>, next: seq<RawNode?>)
      ensures this.mem == mem && this.next == next
    {
      this.mem, this.next := mem, next;
    }
  }

  const NOTHING: Stage := Stage(false, false, false, false, 0, 0, 0, 0, 0, 0)

  function Filled(n: nat): Stage {
    Stage(true, true, true, true, n, n, n, n, n, n)
  }

  /** The header, the path and the value go in. */
  method PutTop(mem: array<Byte>, h: Header, path: Bytes, value: Bytes, ghost p: Parts)
    requires PartsOk(p) && h == p.header && path == p.path && value == p.value && mem.Length >= BaseSize(p)
    modifies mem
    ensures Holds(mem[..], p, NOTHING.(header := true, path := true, value := true))
  {
    hide HeaderBytes, Content, BaseSize;
    var s0 := NOTHING;
    CellWritten(mem[..], p, s0, HeaderCell, s0.(header := true));
    TopContent(p);
    CopyTo(mem, 0, HeaderBytes(h));
    Positions(mem[..], p);
    CellWritten(mem[..], p, s0.(header := true), PathCell, s0.(header := true, path := true));
    CopyTo(mem, PathPos(mem[..]), path);
    Positions(mem[..], p);
    CellWritten(mem[..], p, s0.(header := true, path := true), ValueCell, s0.(header := true, path := true, value := true));
    CopyTo(mem, ValuePos(mem[..]), value);
  }

  lemma TopContent(p: Parts)
    requires PartsOk(p)
    ensures Content(p, HeaderCell) == HeaderBytes(p.header) && CellAt(p, HeaderCell) == 0
    ensures Content(p, PathCell) == p.path && Content(p, ValueCell) == p.value && Content(p, DataCell) == p.data
  {
  }

  function TopStage(offs: nat): Stage {
    NOTHING.(header := true, path := true, value := true, offs := offs)
  }

  /** Children up to `k` are in, with their data offsets. */
  function KidStage(n: nat, k: nat): Stage {
    TopStage(n).(fnext := k, minFast := k, minSlow := k, minVersion := k, child := k)
  }

  /** The data offsets, which the addresses of the child data depend on. */
  method PutOffsets(mem: array<Byte>, offsets: seq<nat>, ghost p: Parts)
    requires PartsOk(p) && |offsets| == |p.kids| && forall i | 0 <= i < |offsets| :: offsets[i] == DataOffset(p.kids, i + 1)
    requires Holds(mem[..], p, TopStage(0))
    modifies mem
    ensures Holds(mem[..], p, TopStage(|p.kids|))
  {
    hide HeaderBytes, Content, BaseSize, CellAt, OffPos;
    for i := 0 to |offsets|
      invariant Holds(mem[..], p, TopStage(i))
    {
      StageTop(mem[..], p, TopStage(i));
      Positions(mem[..], p);
      CellWritten(mem[..], p, TopStage(i), OffCell(i), TopStage(i + 1));
      KidContent(p, i);
      CopyTo(mem, OffPos(mem[..], i), Store(DATA_OFFSET_SIZE, offsets[i]));
    }
  }

  lemma StageTop(b: Bytes, p: Parts, s: Stage)
    requires PartsOk(p) && Holds(b, p, s) && s.header
    ensures BaseSize(p) <= |b| && HoldsCell(b, p, HeaderCell)
  {
  }

  lemma KidContent(p: Parts, i: nat)
    requires PartsOk(p) && i < |p.kids|
    ensures KidOk(p.kids[i])
    ensures Content(p, OffCell(i)) == Store(DATA_OFFSET_SIZE, DataOffset(p.kids, i + 1))
    ensures Content(p, FnextCell(i)) == Store(FNEXT_SIZE, p.kids[i].offset)
    ensures Content(p, MinFastCell(i)) == Store(MIN_OFFSET_SIZE, p.kids[i].minFast)
    ensures Content(p, MinSlowCell(i)) == Store(MIN_OFFSET_SIZE, p.kids[i].minSlow)
    ensures Content(p, MinVersionCell(i)) == StoreInt64(p.kids[i].minVersion)
    ensures Content(p, ChildCell(i)) == p.kids[i].data
    ensures CellAt(p, ChildCell(i)) == ChildDataAt(p) + DataOffset(p.kids, i)
  {
  }

  /** The five fields of one child. */
  method PutKid(mem: array<Byte>, i: nat, kid: Kid, ghost p: Parts)
    requires PartsOk(p) && i < |p.kids| && kid == p.kids[i]
    requires Holds(mem[..], p, KidStage(|p.kids|, i))
    modifies mem
    ensures Holds(mem[..], p, KidStage(|p.kids|, i + 1))
  {
    hide HeaderBytes, Content, BaseSize, CellAt, Store, StoreInt64, Holds, HoldsCell, PartsOk,
         MinFastPos, MinSlowPos, MinVersionPos, FnextPos, ChildDataPos, ChildDataOffset, DataOffset;
    ghost var s2, s4 := KidStage(|p.kids|, i).(fnext := i + 1, minFast := i + 1), KidStage(|p.kids|, i + 1).(child := i);
    PutOffsetsOfKid(mem, i, kid, p);
    KidContent(p, i);
    ghost var s3 := s2.(minSlow := i + 1);
    StageTop(mem[..], p, s2);
    Positions(mem[..], p);
    PutCell(mem, MinSlowPos(mem[..], i), Store(MIN_OFFSET_SIZE, kid.minSlow), p, s2, MinSlowCell(i), s3);
    StageTop(mem[..], p, s3);
    Positions(mem[..], p);
    PutCell(mem, MinVersionPos(mem[..], i), StoreInt64(kid.minVersion), p, s3, MinVersionCell(i), s4);
    PutDataOfKid(mem, i, kid.data, p);
  }

  method PutOffsetsOfKid(mem: array<Byte>, i: nat, kid: Kid, ghost p: Parts)
    requires PartsOk(p) && i < |p.kids| && kid == p.kids[i]
    requires Holds(mem[..], p, KidStage(|p.kids|, i))
    modifies mem
    ensures Holds(mem[..], p, KidStage(|p.kids|, i).(fnext := i + 1, minFast := i + 1))
  {
    hide HeaderBytes, Content, BaseSize, CellAt, Store, StoreInt64, Holds, HoldsCell, PartsOk, MinFastPos, FnextPos;
    ghost var s0 := KidStage(|p.kids|, i);
    ghost var s1 := s0.(fnext := i + 1);
    KidContent(p, i);
    StageTop(mem[..], p, s0);
    Positions(mem[..], p);
    PutCell(mem, FnextPos(i), Store(FNEXT_SIZE, kid.offset), p, s0, FnextCell(i), s1);
    StageTop(mem[..], p, s1);
    Positions(mem[..], p);
    PutCell(mem, MinFastPos(mem[..], i), Store(MIN_OFFSET_SIZE, kid.minFast), p, s1, MinFastCell(i), s1.(minFast := i + 1));
  }

  method PutDataOfKid(mem: array<Byte>, i: nat, data: Bytes, ghost p: Parts)
    requires PartsOk(p) && i < |p.kids| && data == p.kids[i].data
    requires Holds(mem[..], p, KidStage(|p.kids|, i + 1).(child := i))
    modifies mem
    ensures Holds(mem[..], p, KidStage(|p.kids|, i + 1))
  {
    hide HeaderBytes, Content, BaseSize, CellAt, Holds, HoldsCell, PartsOk, ChildDataPos, ChildDataOffset, DataOffset;
    ghost var s := KidStage(|p.kids|, i + 1).(child := i);
    KidContent(p, i);
    StageTop(mem[..], p, s);
    Positions(mem[..], p);
    StageOffset(mem[..], p, s, i);
    DataOffsets(mem[..], p, i);
    PutCell(mem, ChildDataPos(mem[..]) + ChildDataOffset(mem[..], i), data, p, s, ChildCell(i), KidStage(|p.kids|, i + 1));
  }

  /** Writes one field at the address the accessors give for it. */
  method PutCell(mem: array<Byte>, at: nat, x: Bytes, ghost p: Parts, ghost s: Stage, ghost c: Cell, ghost s': Stage)
    requires PartsOk(p) && Holds(mem[..], p, s) && HasCell(p, c) && !Reached(s, c) && at == CellAt(p, c) && x == Content(p, c)
    requires forall d | Reached(s', d) :: Reached(s, d) || d == c
    modifies mem
    ensures Holds(mem[..], p, s')
  {
    hide PartsOk, Holds, Content, CellAt, Reached;
    CellWritten(mem[..], p, s, c, s');
    CopyTo(mem, at, x);
  }

  lemma StageOffset(b: Bytes, p: Parts, s: Stage, i: nat)
    requires PartsOk(p) && Holds(b, p, s) && i <= |p.kids| && s.offs >= i
    ensures i > 0 ==> HoldsCell(b, p, OffCell(i - 1))
  {
    if i > 0 {
      assert HasCell(p, OffCell(i - 1)) && Reached(s, OffCell(i - 1));
    }
  }

  /** Makes a node from children listed by ascending branch; the branch data is put in by whoever asked for room. */
  method MakeNode(mask: Mask, children: seq<ChildData>, path: NibblesView, value: Option<Bytes>, dataSize: nat, version: int,
                  ghost data: Bytes)
    returns (n: RawNode)
    requires PartsOk(PartsOf(mask, children, path, value, data, version)) && |data| == dataSize
    ensures fresh(n) && fresh(n.mem) && n.next == ValidPointers(children)
    ensures var p := PartsOf(mask, children, path, value, data, version);
      && Holds(n.mem[..], p, Filled(|p.kids|).(data := false))
      && n.mem.Length + |n.next| * POINTER_SIZE == CalculateNodeSize(Count(mask), DataOffset(p.kids, |p.kids|),
           if value.Some? then |value.value| else 0, |path.bytes|, dataSize)
  {
    ghost var p := PartsOf(mask, children, path, value, data, version);
    var offsets := ChildDataOffsets(children);
    var count := Count(mask);
    var total := if offsets == [] then 0 else offsets[|offsets| - 1];
    var v := if value.Some? then value.value else [];
    AllocatedSize(p);
    TotalOf(p.kids, offsets);
    var mem := new Byte[CalculateNodeSize(count, total, |v|, |path.bytes|, dataSize) - count * POINTER_SIZE](i => 0);
    hide BaseSize, CellAt, ValidKids, ValidPointers, PartsOk, CalculateNodeSize;
    PutTop(mem, Header(mask, value.Some?, path.start, path.end, dataSize, |v|, version), path.bytes, v, p);
    PutOffsets(mem, offsets, p);
    var next: seq<RawNode?> := seq(count, i => null);
    n := new RawNode(mem, next);
    PutKids(n, children, p);
    ValidLength(children, |children|);
    assert children[..|children|] == children;
  }

  /** Puts in the children that have a branch, in order. */
  method PutKids(n: RawNode, children: seq<ChildData>, ghost p: Parts)
    requires PartsOk(p) && p.kids == ValidKids(children) && |n.next| == |p.kids| && Holds(n.mem[..], p, KidStage(|p.kids|, 0))
    modifies n, n.mem
    ensures Holds(n.mem[..], p, KidStage(|p.kids|, |p.kids|)) && n.next == ValidPointers(children)
  {
    hide BaseSize, CellAt, ValidKids, ValidPointers, PartsOk, Holds;
    var index := 0;
    ValidLength(children, 0);
    assert children[..0] == [];
    NoKids();
    for i := 0 to |children|
      invariant index == |ValidKids(children[..i])| == |ValidPointers(children[..i])| && |n.next| == |p.kids|
      invariant ValidKids(children[..i]) <= p.kids
      invariant Holds(n.mem[..], p, KidStage(|p.kids|, index))
      invariant n.next[..index] == ValidPointers(children[..i])
    {
      ValidLength(children, i);
      ValidPrefix(children, i + 1);
      if children[i].branch != INVALID_BRANCH {
        PutKid(n.mem, index, children[i].kid, p);
        n.next := n.next[index := children[i].ptr];
        index := index + 1;
      }
    }
    assert children[..|children|] == children;
  }

  /** Where the data of each child ends, counted from the first child's. */
  method ChildDataOffsets(children: seq<ChildData>) returns (offsets: seq<nat>)
    ensures |offsets| == |ValidKids(children)|
    ensures forall k | 0 <= k < |offsets| :: offsets[k] == DataOffset(ValidKids(children), k + 1)
  {
    hide ValidKids, ValidPointers;
    ghost var kids := ValidKids(children);
    var total := 0;
    offsets := [];
    assert children[..0] == [];
    NoKids();
    for i := 0 to |children|
      invariant |offsets| == |ValidKids(children[..i])| && ValidKids(children[..i]) <= kids
      invariant total == DataOffset(kids, |offsets|)
      invariant forall k | 0 <= k < |offsets| :: offsets[k] == DataOffset(kids, k + 1)
    {
      ValidLength(children, i);
      ValidPrefix(children, i + 1);
      if children[i].branch != INVALID_BRANCH {
        total := total + |children[i].kid.data|;
        offsets := offsets + [total];
      }
    }
    assert children[..|children|] == children;
  }

  lemma {:induction false} ValidPrefix(children: seq<ChildData>, n: nat)
    requires n <= |children|
    ensures ValidKids(children[..n]) <= ValidKids(children) && ValidPointers(children[..n]) <= ValidPointers(children)
    decreases |children| - n
  {
    if n == |children| {
      assert children[..n] == children;
    } else {
      ValidPrefix(children, n + 1);
      ValidLength(children, n);
    }
  }

  lemma TotalOf(kids: seq<Kid>, offsets: seq<nat>)
    requires |offsets| == |kids| && forall k | 0 <= k < |offsets| :: offsets[k] == DataOffset(kids, k + 1)
    ensures DataOffset(kids, |kids|) == if offsets == [] then 0 else offsets[|offsets| - 1]
  {
  }

  lemma NoKids()
    ensures ValidKids([]) == [] && ValidPointers([]) == []
  {
  }
}
