/** Where chunks and metadata lie on the devices of a storage pool. */
module StorageLayout {
  import opened Arithmetic
  import opened Trie

  const CPU_PAGE_SIZE := 4096
  const METADATA_SIZE := 64
  const COUNTER_SIZE := 4
  const LEGACY_CNV_CHUNKS := 3

  /** A device of `size` bytes; `numCnv` is 0 on devices set up before the field existed. */
  datatype Device = Device(size: nat, capacity: nat, numCnv: nat)

  function DownToPage(x: nat): (r: nat)
    ensures r <= x < r + CPU_PAGE_SIZE && r % CPU_PAGE_SIZE == 0
  {
    x / CPU_PAGE_SIZE * CPU_PAGE_SIZE
  }

  /** Room for at least one chunk and one page; whole pages. */
  predicate DeviceOk(d: Device) {
    d.capacity > 0 && d.capacity % CPU_PAGE_SIZE == 0 && d.size >= d.capacity + CPU_PAGE_SIZE
  }

  /** How many chunks fit before the metadata at the end of the device. */
  function Chunks(d: Device): nat
    requires DeviceOk(d)
  {
    var end := d.size - METADATA_SIZE;
    var ret := end / (d.capacity + COUNTER_SIZE);
    CountersFit(end, d.capacity, ret);
    var endOfChunks := DownToPage(ret * d.capacity);
    var startOfMetadata := DownToPage(end - ret * COUNTER_SIZE);
    if startOfMetadata == endOfChunks then
      (NotNone(d, ret); ret - 1)
    else ret
  }

  /** With chunks of a megabyte: just room for the chunks, a page, the counters and the metadata, and one byte less. */
  lemma ChunksVectors()
    ensures Chunks(Device(1048576 + 4096 + 4 + 64, 1048576, 3)) == 1 && Chunks(Device(1048576 + 4096 + 3 + 64, 1048576, 3)) == 0
    ensures Chunks(Device(2097152 + 4096 + 8 + 64, 1048576, 3)) == 2 && Chunks(Device(2097152 + 4096 + 7 + 64, 1048576, 3)) == 1
  {
  }

  function TotalSize(d: Device): nat
    requires DeviceOk(d)
  {
    METADATA_SIZE + Chunks(d) * COUNTER_SIZE
  }

  /** The start of the part that is mapped into memory, were there `n` chunks. */
  function MappedFrom(d: Device, n: nat): nat
    requires METADATA_SIZE + n * COUNTER_SIZE <= d.size
  {
    DownToPage(d.size - METADATA_SIZE - n * COUNTER_SIZE)
  }

  /** `n` chunks and their counters leave a page between them. */
  predicate Fits(d: Device, n: nat) {
    METADATA_SIZE + n * COUNTER_SIZE <= d.size && n * d.capacity < MappedFrom(d, n)
  }

  lemma CountersFit(end: nat, capacity: nat, ret: nat)
    requires capacity > 0 && ret == end / (capacity + COUNTER_SIZE)
    ensures ret * capacity + ret * COUNTER_SIZE <= end
    ensures end < (ret + 1) * capacity + (ret + 1) * COUNTER_SIZE
  {
    var u := capacity + COUNTER_SIZE;
    assert end == u * ret + end % u;
    assert u * ret == ret * capacity + ret * COUNTER_SIZE;
    assert u * (ret + 1) == (ret + 1) * capacity + (ret + 1) * COUNTER_SIZE && u * (ret + 1) == u * ret + u;
  }

  lemma NotNone(d: Device, ret: nat)
    requires DeviceOk(d) && ret * COUNTER_SIZE <= d.size - METADATA_SIZE
    requires DownToPage(d.size - METADATA_SIZE - ret * COUNTER_SIZE) == DownToPage(ret * d.capacity)
    ensures ret > 0
  {
  }

  lemma Aligned(n: nat, capacity: nat)
    requires capacity % CPU_PAGE_SIZE == 0
    ensures DownToPage(n * capacity) == n * capacity
  {
    var k := capacity / CPU_PAGE_SIZE;
    assert n * capacity == n * k * CPU_PAGE_SIZE by {
      assert capacity == k * CPU_PAGE_SIZE;
      assert n * (k * CPU_PAGE_SIZE) == n * k * CPU_PAGE_SIZE;
    }
  }

  lemma DownMono(x: nat, y: nat)
    requires x <= y
    ensures DownToPage(x) <= DownToPage(y)
  {
  }

  /** The count is the largest that keeps chunks and mapped metadata a page apart. */
  lemma ChunksIsMost(d: Device, n: nat)
    requires DeviceOk(d)
    ensures Fits(d, n) <==> n <= Chunks(d)
  {
    hide DownToPage;
    var end := d.size - METADATA_SIZE;
    var ret := end / (d.capacity + COUNTER_SIZE);
    CountersFit(end, d.capacity, ret);
    Aligned(ret, d.capacity);
    DownMono(ret * d.capacity, end - ret * COUNTER_SIZE);
    if n < ret {
      Times(n, ret, d.capacity, d.capacity);
      DownMono(end - ret * COUNTER_SIZE, end - n * COUNTER_SIZE);
    } else if n > ret {
      Times(ret + 1, n, d.capacity, d.capacity);
      if METADATA_SIZE + n * COUNTER_SIZE <= d.size {
        BelowItself(end - n * COUNTER_SIZE);
      }
    }
  }

  lemma BelowItself(x: nat)
    ensures DownToPage(x) <= x
  {
  }

  /** A chunk of the pool: `index` on its device, `inZone` among the chunks of its kind. */
  datatype Chunk = Chunk(device: nat, index: nat, offset: nat, capacity: nat, inZone: nat, appendOnly: bool)

  function ActivateChunk(appendOnly: bool, devices: seq<Device>, device: nat, index: nat, inZone: nat): Chunk
    requires device < |devices|
  {
    Chunk(device, index, index * devices[device].capacity, devices[device].capacity, inZone, appendOnly)
  }

  function CnvCount(devices: seq<Device>): nat
    requires devices != []
  {
    if devices[0].numCnv == 0 then LEGACY_CNV_CHUNKS else devices[0].numCnv
  }

  /** A first device that does not say how many conventional chunks there are has three; the others are not asked. */
  lemma CnvCountIs(devices: seq<Device>, size: nat, capacity: nat, n: nat)
    ensures CnvCount([Device(size, capacity, 0)] + devices) == 3
    ensures n > 0 ==> CnvCount([Device(size, capacity, n)] + devices) == n
  {
  }

  predicate AllOk(devices: seq<Device>) {
    devices != [] && forall i | 0 <= i < |devices| :: DeviceOk(devices[i])
  }

  /** Chunks `from` .. `to` of one device, numbered in their zone from `start` on. */
  function Row(devices: seq<Device>, appendOnly: bool, device: nat, from: nat, ends: nat, start: nat): (r: seq<Chunk>)
    requires device < |devices| && from <= ends
    ensures |r| == ends - from
    ensures forall k | 0 <= k < |r| :: r[k] == ActivateChunk(appendOnly, devices, device, from + k, start + k)
    decreases ends
  {
    if from == ends then []
    else Row(devices, appendOnly, device, from, ends - 1, start) + [ActivateChunk(appendOnly, devices, device, ends - 1, start + ends - 1 - from)]
  }

  /** One zone: device after device. */
  function Zone(devices: seq<Device>, appendOnly: bool, from: nat, ends: seq<nat>): seq<Chunk>
    requires |ends| <= |devices| && forall d | 0 <= d < |ends| :: from <= ends[d]
  {
    if ends == [] then []
    else
      var before := Zone(devices, appendOnly, from, ends[..|ends| - 1]);
      before + Row(devices, appendOnly, |ends| - 1, from, ends[|ends| - 1], |before|)
  }

  function Repeated(n: nat, c: nat): (r: seq<nat>)
    ensures |r| == n && forall i | 0 <= i < n :: r[i] == c
  {
    if n == 0 then [] else Repeated(n - 1, c) + [c]
  }

  function AllChunks(devices: seq<Device>): (r: seq<nat>)
    requires forall d | 0 <= d < |devices| :: DeviceOk(devices[d])
    ensures |r| == |devices| && forall d | 0 <= d < |devices| :: r[d] == Chunks(devices[d])
  {
    seq(|devices|, d requires 0 <= d < |devices| => Chunks(devices[d]))
  }

  /** The first chunks of every device are conventional, the others sequential; none when a device is too small. */
  method FillChunks(devices: seq<Device>) returns (ok: bool, cnv: seq<Chunk>, sequential: seq<Chunk>)
    requires AllOk(devices)
    ensures ok <==> forall d | 0 <= d < |devices| :: Chunks(devices[d]) >= CnvCount(devices) + 1
    ensures ok ==> cnv == Zone(devices, false, 0, Repeated(|devices|, CnvCount(devices)))
    ensures ok ==> sequential == Zone(devices, true, CnvCount(devices), AllChunks(devices))
  {
    hide Zone, Chunks;
    var cnvCount := CnvCount(devices);
    cnv, sequential := [], [];
    var chunks: seq<nat> := [];
    for d := 0 to |devices|
      invariant |chunks| == d && forall i | 0 <= i < d :: chunks[i] + cnvCount == Chunks(devices[i]) && chunks[i] > 0
    {
      var n := Chunks(devices[d]);
      if n < cnvCount + 1 {
        return false, [], [];
      }
      chunks := chunks + [n - cnvCount];
    }
    ok := true;
    ghost var cnvTo := Repeated(|devices|, cnvCount);
    NoZone(devices, false, 0);
    NoZone(devices, true, cnvCount);
    for d := 0 to |devices|
      invariant cnv == Zone(devices, false, 0, cnvTo[..d])
    {
      ghost var before := cnv;
      for i := 0 to cnvCount
        invariant cnv == before + Row(devices, false, d, 0, i, |before|)
      {
        cnv := cnv + [ActivateChunk(false, devices, d, i, |cnv|)];
        assert Row(devices, false, d, 0, i + 1, |before|)
            == Row(devices, false, d, 0, i, |before|) + [ActivateChunk(false, devices, d, i, |before| + i)];
      }
      ZoneStep(devices, false, 0, cnvTo, d);
    }
    ghost var ends := AllChunks(devices);
    for d := 0 to |devices|
      invariant sequential == Zone(devices, true, cnvCount, ends[..d])
    {
      ghost var before := sequential;
      for n := 0 to chunks[d]
        invariant sequential == before + Row(devices, true, d, cnvCount, cnvCount + n, |before|)
      {
        sequential := sequential + [ActivateChunk(true, devices, d, cnvCount + n, |sequential|)];
        assert Row(devices, true, d, cnvCount, cnvCount + n + 1, |before|)
            == Row(devices, true, d, cnvCount, cnvCount + n, |before|) + [ActivateChunk(true, devices, d, cnvCount + n, |before| + n)];
      }
      ZoneStep(devices, true, cnvCount, ends, d);
    }
    assert cnvTo[..|devices|] == cnvTo && ends[..|devices|] == ends;
  }

  lemma NoZone(devices: seq<Device>, appendOnly: bool, from: nat)
    ensures Zone(devices, appendOnly, from, []) == []
  {
  }

  lemma ZoneStep(devices: seq<Device>, appendOnly: bool, from: nat, ends: seq<nat>, d: nat)
    requires d < |ends| <= |devices| && forall i | 0 <= i < |ends| :: from <= ends[i]
    ensures var before := Zone(devices, appendOnly, from, ends[..d]);
      Zone(devices, appendOnly, from, ends[..d + 1]) == before + Row(devices, appendOnly, d, from, ends[d], |before|)
  {
    assert ends[..d + 1][..d] == ends[..d];
  }

  /** The chunks of a list are those between `from` and `to` of each device, each once, in zone order. */
  ghost predicate Covers(cs: seq<Chunk>, devices: seq<Device>, appendOnly: bool, from: nat, ends: seq<nat>)
    requires |ends| <= |devices|
  {
    && (forall k | 0 <= k < |cs| :: PlacedAt(cs[k], k, devices, appendOnly, from, ends))
    && (forall k, l | 0 <= k < l < |cs| :: Apart(cs[k], cs[l]))
    && forall d, i | 0 <= d < |ends| && from <= i < ends[d] :: HasChunk(cs, d, i)
  }

  predicate PlacedAt(c: Chunk, k: nat, devices: seq<Device>, appendOnly: bool, from: nat, ends: seq<nat>)
    requires |ends| <= |devices|
  {
    c.device < |ends| && from <= c.index < ends[c.device] && c == ActivateChunk(appendOnly, devices, c.device, c.index, k)
  }

  predicate Apart(a: Chunk, b: Chunk) {
    a.device != b.device || a.index != b.index
  }

  ghost predicate HasChunk(cs: seq<Chunk>, d: nat, i: nat) {
    exists k :: 0 <= k < |cs| && cs[k].device == d && cs[k].index == i
  }

  lemma {:induction false} ZoneCovers(devices: seq<Device>, appendOnly: bool, from: nat, ends: seq<nat>)
    requires |ends| <= |devices| && forall d | 0 <= d < |ends| :: from <= ends[d]
    ensures Covers(Zone(devices, appendOnly, from, ends), devices, appendOnly, from, ends)
    decreases |ends|
  {
    if ends != [] {
      var n := |ends| - 1;
      var before := Zone(devices, appendOnly, from, ends[..n]);
      var row := Row(devices, appendOnly, n, from, ends[n], |before|);
      ZoneCovers(devices, appendOnly, from, ends[..n]);
      RowCovers(before, row, devices, appendOnly, from, ends);
    }
  }

  lemma RowCovers(before: seq<Chunk>, row: seq<Chunk>, devices: seq<Device>, appendOnly: bool, from: nat, ends: seq<nat>)
    requires 0 < |ends| <= |devices| && from <= ends[|ends| - 1]
    requires Covers(before, devices, appendOnly, from, ends[..|ends| - 1])
    requires row == Row(devices, appendOnly, |ends| - 1, from, ends[|ends| - 1], |before|)
    ensures Covers(before + row, devices, appendOnly, from, ends)
  {
    var cs, n, m := before + row, |ends| - 1, |before|;
    forall k | 0 <= k < |row| ensures PlacedAt(row[k], m + k, devices, appendOnly, from, ends) && row[k].device == n && row[k].index == from + k {
    }
    forall k | 0 <= k < m ensures PlacedAt(before[k], k, devices, appendOnly, from, ends) && before[k].device < n {
      assert PlacedAt(before[k], k, devices, appendOnly, from, ends[..n]);
    }
    hide PlacedAt, Row, ActivateChunk;
    forall k, l | 0 <= k < l < |cs| ensures Apart(cs[k], cs[l]) {
      assert l < m ==> Apart(before[k], before[l]);
    }
    forall d, i | 0 <= d < |ends| && from <= i < ends[d] ensures HasChunk(cs, d, i) {
      if d < n {
        assert HasChunk(before, d, i);
        var k :| 0 <= k < |before| && before[k].device == d && before[k].index == i;
        assert cs[k].device == d && cs[k].index == i;
      } else {
        assert cs[|before| + i - from].device == d && cs[|before| + i - from].index == i;
      }
    }
  }

  /** A chunk that FillChunks hands out. */
  ghost predicate InPool(devices: seq<Device>, a: Chunk) {
    && a.device < |devices| && DeviceOk(devices[a.device]) && a.index < Chunks(devices[a.device])
    && devices != [] && a.appendOnly == (a.index >= CnvCount(devices))
    && a.capacity == devices[a.device].capacity && a.offset == a.index * a.capacity
  }

  /** Together the two zones hold every chunk of every device exactly once. */
  lemma PoolIsComplete(devices: seq<Device>, cnv: seq<Chunk>, sequential: seq<Chunk>)
    requires AllOk(devices) && forall d | 0 <= d < |devices| :: Chunks(devices[d]) >= CnvCount(devices) + 1
    requires cnv == Zone(devices, false, 0, Repeated(|devices|, CnvCount(devices)))
    requires sequential == Zone(devices, true, CnvCount(devices), AllChunks(devices))
    ensures forall k | 0 <= k < |cnv| :: InPool(devices, cnv[k]) && cnv[k].inZone == k
    ensures forall k | 0 <= k < |sequential| :: InPool(devices, sequential[k]) && sequential[k].inZone == k
    ensures forall d, i | 0 <= d < |devices| && 0 <= i < CnvCount(devices) :: HasChunk(cnv, d, i)
    ensures forall d, i | 0 <= d < |devices| && CnvCount(devices) <= i < Chunks(devices[d]) :: HasChunk(sequential, d, i)
    ensures forall k, l | 0 <= k < l < |cnv| :: Apart(cnv[k], cnv[l])
    ensures forall k, l | 0 <= k < l < |sequential| :: Apart(sequential[k], sequential[l])
  {
    hide Zone, Chunks, CnvCount;
    ZoneCovers(devices, false, 0, Repeated(|devices|, CnvCount(devices)));
    ZoneCovers(devices, true, CnvCount(devices), AllChunks(devices));
  }

  /** No two chunks of the pool share a byte, and all end before the mapped metadata of their device. */
  lemma PoolIsSound(devices: seq<Device>, a: Chunk, b: Chunk)
    requires InPool(devices, a) && InPool(devices, b)
    ensures a.device != b.device || a.index == b.index
         || a.offset + a.capacity <= b.offset || b.offset + b.capacity <= a.offset
    ensures var d := devices[a.device]; a.offset + a.capacity <= MappedFrom(d, Chunks(d)) <= d.size - TotalSize(d)
  {
    hide Chunks;
    ChunkPlace(devices, a);
    if a.device == b.device {
      if a.index < b.index { Times(a.index + 1, b.index, a.capacity, a.capacity); }
      if b.index < a.index { Times(b.index + 1, a.index, a.capacity, a.capacity); }
    }
  }

  lemma ChunkPlace(devices: seq<Device>, a: Chunk)
    requires InPool(devices, a)
    ensures Fits(devices[a.device], Chunks(devices[a.device]))
    ensures a.offset + a.capacity <= MappedFrom(devices[a.device], Chunks(devices[a.device]))
  {
    hide Chunks;
    var d := devices[a.device];
    ChunksIsMost(d, Chunks(d));
    Times(a.index + 1, Chunks(d), d.capacity, d.capacity);
  }

  /** The counters of bytes used, one per chunk of a device, kept right before its metadata. */
  class Counters {
    const device: Device
    const used: array<nat>

    ghost predicate Valid()
      reads used
    {
      && DeviceOk(device) && used.Length == Chunks(device) && device.capacity < 0x1_0000_0000
      && forall i | 0 <= i < used.Length :: used[i] <= device.capacity
    }

    constructor (device: Device)
      requires DeviceOk(device) && device.capacity < 0x1_0000_0000
      ensures Valid() && this.device == device && fresh(used) && forall i | 0 <= i < used.Length :: used[i] == 0
    {
      hide Chunks;
      this.device := device;
      used := new nat[Chunks(device)](i => 0);
    }

    /** The bytes of the device that hold counter `i`. */
    function CounterAt(i: nat): nat
      requires DeviceOk(device) && i < Chunks(device)
    {
      device.size - TotalSize(device) + i * COUNTER_SIZE
    }

    /** Counters lie in the mapped part, one after the other, before the metadata. */
    lemma CountersAreMapped(i: nat)
      requires DeviceOk(device) && i < Chunks(device)
      ensures MappedFrom(device, Chunks(device)) <= CounterAt(i)
      ensures CounterAt(i) + COUNTER_SIZE <= if i + 1 < Chunks(device) then CounterAt(i + 1) else device.size - METADATA_SIZE
    {
    }

    /** Where the next `bytes` bytes of a chunk go; none when they do not fit, which stops the program. */
    method WriteFd(c: Chunk, bytes: nat) returns (r: Option<nat>)
      requires Valid() && c.appendOnly && c.index < used.Length
      requires c.offset == c.index * device.capacity && c.capacity == device.capacity && bytes < 0x1_0000_0000
      modifies used
      ensures r == if old(used[c.index]) + bytes <= c.capacity then Some(c.offset + old(used[c.index])) else None
      ensures r.Some? ==> Valid() && used[c.index] == old(used[c.index]) + bytes
      ensures r.Some? ==> c.offset <= r.value && r.value + bytes == c.offset + used[c.index] <= c.offset + c.capacity
      ensures forall i | 0 <= i < used.Length && i != c.index :: used[i] == old(used[i])
    {
      hide Chunks, DeviceOk;
      var size := used[c.index];
      used[c.index] := (size + bytes) % 0x1_0000_0000;
      if size + bytes > c.capacity {
        return None;
      }
      r := Some(c.offset + size);
    }
  }
}
