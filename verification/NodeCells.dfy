/** The variable-length fields of a node: where each lies, and what a node made from its parts holds there. */
module NodeCells {
  import opened Trie
  import opened TrieHeap
  import opened NodeLayout

  const FNEXT_SIZE := 8
  const MIN_OFFSET_SIZE := 4
  const MIN_VERSION_SIZE := 8
  const DATA_OFFSET_SIZE := 2
  const POINTER_SIZE := 16
  const MAX_CHILD_DATA := 32

  /** What is stored for a child besides its pointer. */
  datatype Kid = Kid(offset: nat, minFast: nat, minSlow: nat, minVersion: int, data: Bytes)

  predicate KidOk(k: Kid) {
    && k.offset < INT64_WRAP && k.minFast < 0x1_0000_0000 && k.minSlow < 0x1_0000_0000
    && IsInt64(k.minVersion) && |k.data| <= MAX_CHILD_DATA
  }

  /** A node by its parts. */
  datatype Parts = Parts(header: Header, kids: seq<Kid>, path: Bytes, value: Bytes, data: Bytes)

  function PathBytes(end: nat): nat {
    (end + 1) / 2
  }

  /** As few bytes as hold the nibbles. */
  lemma PathBytesFit(end: nat)
    ensures end <= 2 * PathBytes(end) < end + 2
  {
  }

  predicate PartsOk(p: Parts) {
    && HeaderOk(p.header) && |p.kids| == Count(p.header.mask)
    && |p.path| == PathBytes(p.header.pathEnd) && |p.value| == p.header.valueLen && |p.data| == p.header.dataLen
    && forall i | 0 <= i < |p.kids| :: KidOk(p.kids[i])
  }

  /** Where the data of child `i` starts, counted from the first child's. */
  function DataOffset(kids: seq<Kid>, i: nat): nat
    requires i <= |kids|
  {
    if i == 0 then 0 else DataOffset(kids, i - 1) + |kids[i - 1].data|
  }

  lemma {:induction false} DataOffsetMono(kids: seq<Kid>, i: nat, j: nat)
    requires i < j <= |kids|
    ensures DataOffset(kids, i) + |kids[i].data| <= DataOffset(kids, j)
    decreases j
  {
    if i < j - 1 {
      DataOffsetMono(kids, i, j - 1);
    }
  }

  lemma {:induction false} DataOffsetBound(kids: seq<Kid>, i: nat)
    requires i <= |kids| && forall k | 0 <= k < |kids| :: KidOk(kids[k])
    ensures DataOffset(kids, i) <= MAX_CHILD_DATA * i
  {
    if i > 0 {
      DataOffsetBound(kids, i - 1);
    }
  }

  datatype Cell =
    | HeaderCell | PathCell | ValueCell | DataCell
    | FnextCell(i: nat) | MinFastCell(i: nat) | MinSlowCell(i: nat) | MinVersionCell(i: nat)
    | OffCell(i: nat) | ChildCell(i: nat)

  predicate HasCell(p: Parts, c: Cell) {
    match c
    case HeaderCell => true
    case PathCell => true
    case ValueCell => true
    case DataCell => true
    case _ => c.i < |p.kids|
  }

  /** The start of the packed path, after the five arrays. */
  function PathAt(n: nat): nat {
    HEADER_SIZE + n * FNEXT_SIZE + n * MIN_OFFSET_SIZE + n * MIN_OFFSET_SIZE + n * MIN_VERSION_SIZE + n * DATA_OFFSET_SIZE
  }

  function ChildDataAt(p: Parts): nat {
    PathAt(|p.kids|) + |p.path| + |p.value| + |p.data|
  }

  function CellAt(p: Parts, c: Cell): nat
    requires HasCell(p, c)
  {
    var n := |p.kids|;
    match c
    case HeaderCell => 0
    case FnextCell(i) => HEADER_SIZE + i * FNEXT_SIZE
    case MinFastCell(i) => HEADER_SIZE + n * FNEXT_SIZE + i * MIN_OFFSET_SIZE
    case MinSlowCell(i) => HEADER_SIZE + n * FNEXT_SIZE + n * MIN_OFFSET_SIZE + i * MIN_OFFSET_SIZE
    case MinVersionCell(i) => HEADER_SIZE + n * FNEXT_SIZE + 2 * n * MIN_OFFSET_SIZE + i * MIN_VERSION_SIZE
    case OffCell(i) => HEADER_SIZE + n * FNEXT_SIZE + 2 * n * MIN_OFFSET_SIZE + n * MIN_VERSION_SIZE + i * DATA_OFFSET_SIZE
    case PathCell => PathAt(n)
    case ValueCell => PathAt(n) + |p.path|
    case DataCell => PathAt(n) + |p.path| + |p.value|
    case ChildCell(i) => ChildDataAt(p) + DataOffset(p.kids, i)
  }

  /** What is stored there. */
  function Content(p: Parts, c: Cell): Bytes
    requires PartsOk(p) && HasCell(p, c)
  {
    match c
    case HeaderCell => HeaderBytes(p.header)
    case FnextCell(i) => Store(FNEXT_SIZE, p.kids[i].offset)
    case MinFastCell(i) => Store(MIN_OFFSET_SIZE, p.kids[i].minFast)
    case MinSlowCell(i) => Store(MIN_OFFSET_SIZE, p.kids[i].minSlow)
    case MinVersionCell(i) => StoreInt64(p.kids[i].minVersion)
    case OffCell(i) => Store(DATA_OFFSET_SIZE, DataOffset(p.kids, i + 1))
    case PathCell => p.path
    case ValueCell => p.value
    case DataCell => p.data
    case ChildCell(i) => p.kids[i].data
  }

  function End(p: Parts, c: Cell): nat
    requires PartsOk(p) && HasCell(p, c)
  {
    CellAt(p, c) + |Content(p, c)|
  }

  /** Bytes on disk without the size in front, and in memory without the pointers. */
  function BaseSize(p: Parts): nat {
    ChildDataAt(p) + DataOffset(p.kids, |p.kids|)
  }

  function RoundUp8(x: nat): (r: nat)
    ensures x <= r < x + 8 && r % 8 == 0
  {
    (x + 7) / 8 * 8
  }

  function CalculateNodeSize(children: nat, childData: nat, value: nat, path: nat, data: nat): nat {
    RoundUp8(HEADER_SIZE + (DATA_OFFSET_SIZE + 2 * MIN_OFFSET_SIZE + MIN_VERSION_SIZE + FNEXT_SIZE + POINTER_SIZE) * children
             + childData + value + path + data)
  }

  /** The allocated size is the rounded fields plus the pointers. */
  lemma AllocatedSize(p: Parts)
    requires PartsOk(p)
    ensures CalculateNodeSize(|p.kids|, DataOffset(p.kids, |p.kids|), |p.value|, |p.path|, |p.data|)
         == RoundUp8(BaseSize(p)) + |p.kids| * POINTER_SIZE
  {
  }

  /** Two different fields share no byte, and all lie within the size. */
  lemma CellsApart(p: Parts, c: Cell, d: Cell)
    requires PartsOk(p) && HasCell(p, c) && HasCell(p, d) && c != d
    ensures End(p, c) <= CellAt(p, d) || End(p, d) <= CellAt(p, c)
  {
    hide HeaderBytes, Store, StoreInt64;
    if c.ChildCell? && d.ChildCell? {
      if c.i < d.i { DataOffsetMono(p.kids, c.i, d.i); } else { DataOffsetMono(p.kids, d.i, c.i); }
    }
    StoredLengths(p, c);
    StoredLengths(p, d);
  }

  lemma StoredLengths(p: Parts, c: Cell)
    requires PartsOk(p) && HasCell(p, c)
    ensures |Content(p, c)| == match c
      case HeaderCell => HEADER_SIZE
      case FnextCell(_) => FNEXT_SIZE
      case MinFastCell(_) => MIN_OFFSET_SIZE
      case MinSlowCell(_) => MIN_OFFSET_SIZE
      case MinVersionCell(_) => MIN_VERSION_SIZE
      case OffCell(_) => DATA_OFFSET_SIZE
      case PathCell => |p.path|
      case ValueCell => |p.value|
      case DataCell => |p.data|
      case ChildCell(i) => |p.kids[i].data|
    ensures End(p, c) <= BaseSize(p)
  {
    if c.ChildCell? {
      DataOffsetMono(p.kids, c.i, |p.kids|);
    }
  }

  /** Every byte belongs to a field. */
  lemma CellOf(p: Parts, x: nat) returns (c: Cell)
    requires PartsOk(p) && x < BaseSize(p)
    ensures HasCell(p, c) && CellAt(p, c) <= x < End(p, c)
  {
    var n := |p.kids|;
    if x < HEADER_SIZE { c := HeaderCell; }
    else if x < At0(n, 1) { c := FnextCell((x - HEADER_SIZE) / FNEXT_SIZE); }
    else if x < At0(n, 2) { c := MinFastCell((x - At0(n, 1)) / MIN_OFFSET_SIZE); }
    else if x < At0(n, 3) { c := MinSlowCell((x - At0(n, 2)) / MIN_OFFSET_SIZE); }
    else if x < At0(n, 4) { c := MinVersionCell((x - At0(n, 3)) / MIN_VERSION_SIZE); }
    else if x < PathAt(n) { c := OffCell((x - At0(n, 4)) / DATA_OFFSET_SIZE); }
    else if x < PathAt(n) + |p.path| { c := PathCell; }
    else if x < PathAt(n) + |p.path| + |p.value| { c := ValueCell; }
    else if x < ChildDataAt(p) { c := DataCell; }
    else {
      var i := ChildOf(p.kids, x - ChildDataAt(p), n);
      c := ChildCell(i);
    }
  }

  /** The start of the `k`-th array after the header. */
  function At0(n: nat, k: nat): nat
    requires k <= 4
  {
    if k == 0 then HEADER_SIZE
    else if k == 1 then HEADER_SIZE + n * FNEXT_SIZE
    else if k == 2 then HEADER_SIZE + n * FNEXT_SIZE + n * MIN_OFFSET_SIZE
    else if k == 3 then HEADER_SIZE + n * FNEXT_SIZE + 2 * n * MIN_OFFSET_SIZE
    else HEADER_SIZE + n * FNEXT_SIZE + 2 * n * MIN_OFFSET_SIZE + n * MIN_VERSION_SIZE
  }

  lemma {:induction false} ChildOf(kids: seq<Kid>, x: nat, n: nat) returns (i: nat)
    requires n <= |kids| && x < DataOffset(kids, n)
    ensures i < n && DataOffset(kids, i) <= x < DataOffset(kids, i) + |kids[i].data|
    decreases n
  {
    if x >= DataOffset(kids, n - 1) {
      i := n - 1;
    } else {
      i := ChildOf(kids, x, n - 1);
    }
  }

  /** Where the fields of a node with two children lie. */
  lemma LayoutOfTwo(p: Parts)
    requires |p.kids| == 2
    ensures CellAt(p, HeaderCell) == 0 && CellAt(p, FnextCell(0)) == 16 && CellAt(p, FnextCell(1)) == 24
    ensures CellAt(p, MinFastCell(0)) == 32 && CellAt(p, MinFastCell(1)) == 36
    ensures CellAt(p, MinSlowCell(0)) == 40 && CellAt(p, MinSlowCell(1)) == 44
    ensures CellAt(p, MinVersionCell(0)) == 48 && CellAt(p, MinVersionCell(1)) == 56
    ensures CellAt(p, OffCell(0)) == 64 && CellAt(p, OffCell(1)) == 66 && CellAt(p, PathCell) == 68
    ensures CalculateNodeSize(2, 64, 5, 3, 32) == 208
  {
  }
}
