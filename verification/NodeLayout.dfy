/** The bytes of a node: a fixed header and variable-length fields behind it, each found from what comes before. */
module NodeLayout {
  import opened Arithmetic
  import opened Trie
  import opened TrieHeap

  /** `n` bytes of an unsigned number, lowest first. */
  function Store(n: nat, v: nat): (b: Bytes)
    ensures |b| == n
  {
    if n == 0 then [] else [v % 256] + Store(n - 1, v / 256)
  }

  function Load(b: Bytes): nat {
    if b == [] then 0 else b[0] + 256 * Load(b[1..])
  }

  lemma {:induction false} LoadStore(n: nat, v: nat)
    requires v < Pow256(n)
    ensures Load(Store(n, v)) == v
  {
    if n > 0 {
      LoadStore(n - 1, v / 256);
      assert Store(n, v)[1..] == Store(n - 1, v / 256);
    }
  }

  const INT64_HALF := 0x8000_0000_0000_0000
  const INT64_WRAP := 0x1_0000_0000_0000_0000

  predicate IsInt64(v: int) {
    -INT64_HALF <= v < INT64_HALF
  }

  /** Two's complement. */
  function StoreInt64(v: int): Bytes
    requires IsInt64(v)
  {
    Store(8, if v >= 0 then v else v + INT64_WRAP)
  }

  function LoadInt64(b: Bytes): int {
    var u := Load(b);
    if u < INT64_HALF then u else u - INT64_WRAP
  }

  lemma Powers()
    ensures Pow256(1) == 0x100 && Pow256(2) == 0x1_0000 && Pow256(4) == 0x1_0000_0000 && Pow256(8) == INT64_WRAP
  {
    assert Pow256(3) == 0x100_0000;
    assert Pow256(5) == 256 * Pow256(4);
    assert Pow256(6) == 256 * Pow256(5);
    assert Pow256(7) == 256 * Pow256(6);
  }

  lemma LoadStoreInt64(v: int)
    requires IsInt64(v)
    ensures LoadInt64(StoreInt64(v)) == v
  {
    Powers();
    LoadStore(8, if v >= 0 then v else v + INT64_WRAP);
  }

  /** Bits, lowest first. */
  function FromBits(bits: seq<bool>): nat {
    if bits == [] then 0 else (if bits[0] then 1 else 0) + 2 * FromBits(bits[1..])
  }

  function ToBits(n: nat, v: nat): (bits: seq<bool>)
    ensures |bits| == n
  {
    if n == 0 then [] else [v % 2 == 1] + ToBits(n - 1, v / 2)
  }

  lemma {:induction false} BitsRoundTrip(bits: seq<bool>)
    ensures ToBits(|bits|, FromBits(bits)) == bits
  {
    if bits != [] {
      BitsRoundTrip(bits[1..]);
      assert bits == [bits[0]] + bits[1..];
    }
  }

  lemma {:induction false} BitsBound(bits: seq<bool>)
    ensures FromBits(bits) < Pow2(|bits|)
  {
    if bits != [] {
      BitsBound(bits[1..]);
    }
  }

  /** The fixed part. The path is kept as packed nibbles `start` .. `end` of its bytes. */
  datatype Header = Header(mask: Mask, hasValue: bool, pathStart: nat, pathEnd: nat, dataLen: nat, valueLen: nat, version: int)

  const HEADER_SIZE := 16
  const MAX_DISK_SIZE := 256 * 1024 * 1024
  const MAX_DATA_LEN := 63

  predicate HeaderOk(h: Header) {
    && |h.mask| == BRANCHES && h.pathStart <= 1 && h.pathStart <= h.pathEnd < 256 && h.dataLen <= MAX_DATA_LEN
    && h.valueLen < 0x1_0000_0000 && (!h.hasValue ==> h.valueLen == 0) && IsInt64(h.version)
  }

  function Packed(h: Header): nat {
    (if h.hasValue then 1 else 0) + 2 * h.pathStart + 4 * h.dataLen
  }

  function HeaderBytes(h: Header): (b: Bytes)
    requires HeaderOk(h)
    ensures |b| == HEADER_SIZE
  {
    Store(2, FromBits(h.mask)) + Store(1, Packed(h)) + Store(1, h.pathEnd) + Store(4, h.valueLen) + StoreInt64(h.version)
  }

  function ReadHeader(b: Bytes): Header
    requires |b| >= HEADER_SIZE
  {
    var packed := Load(b[2..3]);
    Header(ToBits(16, Load(b[..2])), packed % 2 == 1, packed / 2 % 2, Load(b[3..4]), packed / 4, Load(b[4..8]), LoadInt64(b[8..16]))
  }

  lemma HeaderRoundTrip(h: Header, b: Bytes)
    requires HeaderOk(h) && |b| >= HEADER_SIZE && b[..HEADER_SIZE] == HeaderBytes(h)
    ensures ReadHeader(b) == h
  {
    hide Store, Load, FromBits, ToBits, LoadInt64, StoreInt64, Pow256, Pow2;
    var x := HeaderBytes(h);
    assert b[..2] == x[..2] == Store(2, FromBits(h.mask));
    assert b[2..3] == x[2..3] == Store(1, Packed(h));
    assert b[3..4] == x[3..4] == Store(1, h.pathEnd);
    assert b[4..8] == x[4..8] == Store(4, h.valueLen);
    assert b[8..16] == x[8..16] == StoreInt64(h.version);
    MaskFits(h.mask);
    Powers();
    LoadStore(2, FromBits(h.mask));
    LoadStore(1, Packed(h));
    LoadStore(1, h.pathEnd);
    LoadStore(4, h.valueLen);
    LoadStoreInt64(h.version);
    BitsRoundTrip(h.mask);
  }

  lemma MaskFits(mask: Mask)
    requires |mask| == BRANCHES
    ensures FromBits(mask) < 0x1_0000
  {
    BitsBound(mask);
    assert Pow2(8) == 256;
    assert Pow2(12) == 4096;
    assert Pow2(16) == 0x1_0000;
  }

  /** A header with children 0 and 9, a value of 258 bytes, path nibbles 1 .. 5, 32 bytes of data and version -2. */
  lemma HeaderVector()
    ensures var h := Header(seq(BRANCHES, b => b == 0 || b == 9), true, 1, 5, 32, 258, -2);
            HeaderOk(h) && HeaderBytes(h) == [1, 2, 131, 5, 2, 1, 0, 0, 254, 255, 255, 255, 255, 255, 255, 255]
  {
    SomeMask();
    StoredVectors();
  }

  lemma SomeMask()
    ensures FromBits(seq(BRANCHES, b => b == 0 || b == 9)) == 513
  {
    var mask := seq(BRANCHES, b => b == 0 || b == 9);
    var low, high := mask[1..], mask[1..][8..];
    NoBitsSet(high[1..]);
    assert FromBits(high) == 1;
    ShiftedBits(low, 8);
    assert Pow2(8) == 256;
  }

  lemma StoredVectors()
    ensures Store(2, 513) == [1, 2] && Store(1, 131) == [131] && Store(1, 5) == [5] && Store(4, 258) == [2, 1, 0, 0]
    ensures StoreInt64(-2) == [254, 255, 255, 255, 255, 255, 255, 255]
  {
    assert Store(4, 0xFFFF_FFFF) == [255, 255, 255, 255];
    assert Store(8, 0xFFFF_FFFF_FFFF_FFFE) == [254, 255, 255, 255] + Store(4, 0xFFFF_FFFF);
  }

  lemma Doubling(x: nat, y: nat)
    ensures 2 * (x * y) == (2 * x) * y
  {
  }

  lemma {:induction false} ShiftedBits(bits: seq<bool>, k: nat)
    requires k <= |bits| && forall i | 0 <= i < k :: !bits[i]
    ensures FromBits(bits) == Pow2(k) * FromBits(bits[k..])
    decreases k
  {
    if k == 0 {
      assert bits[0..] == bits;
    } else {
      ShiftedBits(bits[1..], k - 1);
      assert bits[1..][k - 1..] == bits[k..];
      hide FromBits;
      Doubling(Pow2(k - 1), FromBits(bits[k..]));
    }
  }

  lemma {:induction false} NoBitsSet(bits: seq<bool>)
    requires forall i | 0 <= i < |bits| :: !bits[i]
    ensures FromBits(bits) == 0
  {
    if bits != [] {
      NoBitsSet(bits[1..]);
    }
  }
}
