/** Writing a node out in pieces and reading it back. */
module NodeSerialize {
  import opened Arithmetic
  import opened Trie
  import opened TrieHeap
  import opened NodeLayout
  import opened NodeCells
  import opened NodeBuffer
  import opened NodeReadBack

  const DISK_SIZE_BYTES := 4

  /** A whole node in memory: its fields and room to the next 8 bytes. */
  ghost predicate NodeOk(n: RawNode, p: Parts)
    reads n.mem
  {
    Complete(n.mem[..], p) && n.mem.Length == RoundUp8(BaseSize(p)) && BaseSize(p) + DISK_SIZE_BYTES <= MAX_DISK_SIZE
  }

  /** What a node is on disk: its size, then its fields. */
  ghost function OnDisk(n: RawNode, p: Parts): Bytes
    requires NodeOk(n, p)
    reads n.mem
  {
    Store(DISK_SIZE_BYTES, BaseSize(p) + DISK_SIZE_BYTES) + n.mem[..BaseSize(p)]
  }

  /** The first four bytes say how many there are. */
  lemma SizeInFront(n: RawNode, p: Parts)
    requires NodeOk(n, p)
    ensures |OnDisk(n, p)| >= 20 && Load(OnDisk(n, p)[..4]) == |OnDisk(n, p)|
  {
    AtLeastHeader(p);
    hide Complete, BaseSize, Load, Store, NextPos, ReadHeader, PathPos, ChildDataPos, ValuePos, DataPos;
    FieldsReadBack(n.mem[..], p);
    Powers();
    LoadStore(4, BaseSize(p) + 4);
    assert OnDisk(n, p)[..4] == Store(4, BaseSize(p) + 4);
  }

  lemma AtLeastHeader(p: Parts)
    ensures BaseSize(p) >= 16
  {
  }

  /** Found by walking through the fields. */
  method GetDiskSize(n: RawNode, ghost p: Parts) returns (size: nat)
    requires NodeOk(n, p)
    ensures size == BaseSize(p) + DISK_SIZE_BYTES == |OnDisk(n, p)| && 0 < size <= MAX_DISK_SIZE
  {
    hide BaseSize, Complete, NextPos;
    FieldsReadBack(n.mem[..], p);
    size := NextPos(n.mem[..]) + DISK_SIZE_BYTES;
  }

  /** How much of a stretch of the disk form belongs to the size in front. */
  function OfSize(size: Bytes, from: nat, count: nat): nat {
    if from >= |size| then 0 else if count < |size| - from then count else |size| - from
  }

  /** Part of the size, then part of the fields: together that stretch of the disk form. */
  lemma InTwoWrites(b: Bytes, at: nat, size: Bytes, mem: Bytes, n: nat, from: nat, count: nat)
    requires n <= |mem| && from + count <= |size| + n && at + count <= |b|
    ensures var first := OfSize(size, from, count); var start := if from >= |size| then from - |size| else 0;
      && (from < |size| ==> from + first <= |size|) && (count > first ==> start + count - first <= n)
      && var b1 := if from < |size| then Written(b, at, size[from..from + first]) else b;
      && var b2 := if count > first then Written(b1, at + first, mem[start..start + count - first]) else b1;
         b2 == Written(b, at, (size + mem[..n])[from..from + count])
  {
    hide Written;
    if from >= |size| {
      InFields(size, mem, n, from, count);
      NothingWritten(b, at);
    } else if count <= |size| - from {
      assert (size + mem[..n])[from..from + count] == size[from..from + count];
    } else {
      var rest := count - (|size| - from);
      Joined(size, mem, n, from, rest);
      assert size[from..] == size[from..from + (|size| - from)] && mem[..rest] == mem[0..0 + rest];
      TwoWrites(b, at, size[from..], mem[..rest]);
    }
  }

  lemma InFields(size: Bytes, mem: Bytes, n: nat, from: nat, count: nat)
    requires n <= |mem| && |size| <= from && from + count <= |size| + n
    ensures (size + mem[..n])[from..from + count] == mem[from - |size|..from - |size| + count]
  {
  }

  lemma NothingWritten(b: Bytes, at: nat)
    requires at <= |b|
    ensures Written(b, at, []) == b
  {
  }

  lemma Joined(size: Bytes, mem: Bytes, n: nat, from: nat, rest: nat)
    requires n <= |mem| && from <= |size| && rest <= n
    ensures (size + mem[..n])[from..|size| + rest] == size[from..] + mem[..rest]
  {
  }

  lemma TwoWrites(b: Bytes, at: nat, x: Bytes, y: Bytes)
    requires at + |x| + |y| <= |b|
    ensures Written(Written(b, at, x), at + |x|, y) == Written(b, at, x + y)
  {
  }

  /** Bytes `offset` .. `offset + count` of the node on disk, wherever the cuts fall. */
  method SerializeNodeToBuffer(to: array<Byte>, at: nat, count: nat, n: RawNode, diskSize: nat, offset: nat, ghost p: Parts)
    requires NodeOk(n, p) && to != n.mem && diskSize == BaseSize(p) + DISK_SIZE_BYTES
    requires offset + count <= diskSize && at + count <= to.Length
    modifies to
    ensures to[..] == Written(old(to[..]), at, OnDisk(n, p)[offset..offset + count])
  {
    hide BaseSize, Complete, Store, Written;
    var pos, left := at, count;
    var size := Store(DISK_SIZE_BYTES, diskSize);
    InTwoWrites(to[..], at, size, n.mem[..], BaseSize(p), offset, count);
    if offset < DISK_SIZE_BYTES {
      var written := if left < DISK_SIZE_BYTES - offset then left else DISK_SIZE_BYTES - offset;
      CopyTo(to, pos, size[offset..offset + written]);
      left, pos := left - written, pos + written;
    }
    if left > 0 {
      var inNode := if offset >= DISK_SIZE_BYTES then offset - DISK_SIZE_BYTES else 0;
      assert n.mem[..][inNode..inNode + left] == n.mem[inNode..inNode + left];
      CopyTo(to, pos, n.mem[inNode..inNode + left]);
    }
  }

  function Total(pieces: seq<nat>): nat {
    if pieces == [] then 0 else Total(pieces[..|pieces| - 1]) + pieces[|pieces| - 1]
  }

  /** However the node is cut, the pieces one after the other are the node on disk. */
  method SerializeInPieces(n: RawNode, pieces: seq<nat>, ghost p: Parts) returns (out: array<Byte>)
    requires NodeOk(n, p) && Total(pieces) == BaseSize(p) + DISK_SIZE_BYTES
    ensures fresh(out) && out[..] == OnDisk(n, p)
  {
    hide BaseSize, Complete, Store;
    var diskSize := GetDiskSize(n, p);
    out := new Byte[diskSize](i => 0);
    ghost var disk := OnDisk(n, p);
    var offset := 0;
    for k := 0 to |pieces|
      invariant offset == Total(pieces[..k]) <= diskSize && fresh(out) && out.Length == diskSize
      invariant n.mem[..] == old(n.mem[..]) && out[..offset] == disk[..offset]
    {
      assert pieces[..k + 1][..k] == pieces[..k];
      TotalGrows(pieces, k + 1);
      SerializeNodeToBuffer(out, offset, pieces[k], n, diskSize, offset, p);
      assert disk[..offset + pieces[k]] == disk[..offset] + disk[offset..offset + pieces[k]];
      offset := offset + pieces[k];
    }
    assert pieces[..|pieces|] == pieces;
  }

  lemma {:induction false} TotalGrows(pieces: seq<nat>, k: nat)
    requires k <= |pieces|
    ensures Total(pieces[..k]) <= Total(pieces)
    decreases |pieces|
  {
    if k == |pieces| {
      assert pieces[..k] == pieces;
    } else {
      TotalGrows(pieces[..|pieces| - 1], k);
      assert pieces[..|pieces| - 1][..k] == pieces[..k];
    }
  }

  /** The fields do not mind what comes behind them. */
  lemma StillComplete(base: Bytes, b: Bytes, p: Parts)
    requires Complete(base, p) && base <= b
    ensures Complete(b, p)
  {
    hide CellAt, Content, BaseSize;
    forall c | HasCell(p, c) && Reached(Filled(|p.kids|), c) ensures HoldsCell(b, p, c) {
      assert HoldsCell(base, p, c);
      assert b[CellAt(p, c)..End(p, c)] == base[CellAt(p, c)..End(p, c)];
    }
  }

  function MemSize(b: Bytes): nat
    requires |b| >= HEADER_SIZE && PathPos(b) <= |b|
  {
    RoundUp8(NextPos(b)) + Children(b) * POINTER_SIZE
  }

  /** Reads a node from the front of a buffer: the same fields, and no children in memory. */
  method DeserializeNodeFromBuffer(buffer: Bytes, ghost base: Bytes, ghost p: Parts) returns (n: RawNode)
    requires Complete(base, p) && |base| == BaseSize(p) && |base| + DISK_SIZE_BYTES <= MAX_DISK_SIZE
    requires Store(DISK_SIZE_BYTES, |base| + DISK_SIZE_BYTES) + base <= buffer
    ensures fresh(n) && fresh(n.mem) && NodeOk(n, p) && n.mem[..BaseSize(p)] == base
    ensures |n.next| == |p.kids| && forall i | 0 <= i < |n.next| :: n.next[i] == null
  {
    hide BaseSize, Complete, Store, Load, ReadHeader, NextPos, PathPos, RoundUp8, FromBits, ToBits, Written,
         DataPos, ValuePos, ChildDataPos, ChildDataOffset, Pow256;
    ghost var size := Store(DISK_SIZE_BYTES, |base| + DISK_SIZE_BYTES);
    FrontOf(buffer, size, base);
    Powers();
    LoadStore(DISK_SIZE_BYTES, |base| + DISK_SIZE_BYTES);
    FieldsReadBack(base, p);
    var diskSize := Load(buffer[..DISK_SIZE_BYTES]);
    assert diskSize <= |buffer| && 0 < diskSize <= MAX_DISK_SIZE;
    var baseSize := diskSize - DISK_SIZE_BYTES;
    assert |base| >= HEADER_SIZE;
    var mask := ToBits(16, Load(buffer[DISK_SIZE_BYTES..DISK_SIZE_BYTES + 2]));
    MaskRead(base);
    var count := Count(mask);
    var mem := new Byte[RoundUp8(baseSize)](i => 0);
    ghost var blank := mem[..];
    CopyTo(mem, 0, buffer[DISK_SIZE_BYTES..DISK_SIZE_BYTES + baseSize]);
    WrittenThere(blank, 0, base);
    var next: seq<RawNode?> := seq(count, i => null);
    n := new RawNode(mem, next);
    StillComplete(base, mem[..], p);
    FieldsReadBack(mem[..], p);
    assert RoundUp8(baseSize) + count * POINTER_SIZE == MemSize(mem[..]);
  }

  lemma FrontOf(buffer: Bytes, size: Bytes, base: Bytes)
    requires size + base <= buffer
    ensures buffer[..|size|] == size && buffer[|size|..|size| + |base|] == base
    ensures |base| >= 2 ==> buffer[|size|..|size| + 2] == base[..2]
  {
    assert buffer[..|size|] == (size + base)[..|size|];
    assert buffer[|size|..|size| + |base|] == (size + base)[|size|..];
    if |base| >= 2 {
      assert buffer[|size|..|size| + 2] == (size + base)[|size|..|size| + 2];
    }
  }

  lemma MaskRead(b: Bytes)
    requires |b| >= HEADER_SIZE
    ensures ReadHeader(b).mask == ToBits(16, Load(b[..2]))
  {
  }

  /** Out in any pieces and back in: every field the same, every child pointer null. */
  method WriteAndRead(n: RawNode, pieces: seq<nat>, ghost p: Parts) returns (m: RawNode)
    requires NodeOk(n, p) && Total(pieces) == BaseSize(p) + DISK_SIZE_BYTES
    ensures fresh(m) && NodeOk(m, p) && m.mem[..BaseSize(p)] == n.mem[..BaseSize(p)]
    ensures |m.next| == |p.kids| && forall i | 0 <= i < |m.next| :: m.next[i] == null
  {
    hide BaseSize, Complete, Store;
    var out := SerializeInPieces(n, pieces, p);
    JustTheFields(n.mem[..], p);
    m := DeserializeNodeFromBuffer(out[..], n.mem[..BaseSize(p)], p);
  }

  lemma JustTheFields(b: Bytes, p: Parts)
    requires Complete(b, p)
    ensures BaseSize(p) <= |b| && Complete(b[..BaseSize(p)], p)
  {
    hide CellAt, Content, BaseSize;
    var base := b[..BaseSize(p)];
    forall c | HasCell(p, c) && Reached(Filled(|p.kids|), c) ensures HoldsCell(base, p, c) {
      assert HoldsCell(b, p, c);
      StoredLengths(p, c);
      assert base[CellAt(p, c)..End(p, c)] == b[CellAt(p, c)..End(p, c)];
    }
  }
}
