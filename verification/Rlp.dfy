/** Recursive length prefix encoding of strings and lists, and hex-prefix encoding of nibble paths
    (Ethereum Yellow Paper, Appendices B and C). */
module Rlp {
  import opened Arithmetic
  import opened Trie
  import opened NodeBuffer

  const RLP_EMPTY_STRING: Byte := 0x80
  const SIZE_MAX := 0x1_0000_0000_0000_0000

  /** The bytes of a length, highest first, without leading zeros. */
  function BigEndian(n: nat): Bytes {
    if n == 0 then [] else BigEndian(n / 256) + [n % 256]
  }

  function LengthLength(n: nat): nat {
    if n == 0 then 0 else 1 + LengthLength(n / 256)
  }

  lemma {:induction false} BigEndianLength(n: nat)
    ensures |BigEndian(n)| == LengthLength(n)
  {
    if n > 0 {
      BigEndianLength(n / 256);
    }
  }

  function FromBigEndian(b: Bytes): nat {
    if b == [] then 0 else 256 * FromBigEndian(b[..|b| - 1]) + b[|b| - 1]
  }

  lemma {:induction false} BigEndianRoundTrip(n: nat)
    ensures FromBigEndian(BigEndian(n)) == n
  {
    if n > 0 {
      BigEndianRoundTrip(n / 256);
      assert BigEndian(n)[..|BigEndian(n)| - 1] == BigEndian(n / 256);
    }
  }

  lemma {:induction false} FewLengthBytes(n: nat, k: nat)
    requires n < Pow256(k)
    ensures LengthLength(n) <= k
  {
    if n > 0 && k > 0 {
      FewLengthBytes(n / 256, k - 1);
    }
  }

  lemma SizeFits(n: nat)
    requires n < SIZE_MAX
    ensures LengthLength(n) <= 8 && (n > 0 ==> LengthLength(n) >= 1)
  {
    assert Pow256(4) == 0x1_0000_0000;
    assert Pow256(6) == 0x1_0000_0000_0000;
    assert Pow256(8) == SIZE_MAX;
    FewLengthBytes(n, 8);
  }

  /** A single byte below 0x80 is its own encoding. */
  predicate IsDirect(s: Bytes) {
    |s| == 1 && s[0] <= 0x7F
  }

  /** What stands before `n` bytes of content; the sums are truncated to a byte. */
  function Prefix(short: nat, long: nat, n: nat): Bytes {
    if n <= 55 then [(short + n) % 256] else [(long + LengthLength(n)) % 256] + BigEndian(n)
  }

  function EncodeString(s: Bytes): Bytes {
    if IsDirect(s) then s else Prefix(0x80, 0xB7, |s|) + s
  }

  function EncodeList(content: Bytes): Bytes {
    Prefix(0xC0, 0xF7, |content|) + content
  }

  function StringLength(s: Bytes): nat {
    if IsDirect(s) then 1
    else if |s| <= 55 then 1 + |s|
    else 1 + LengthLength(|s|) + |s|
  }

  function ListLength(n: nat): nat {
    if n <= 55 then 1 + n else 1 + LengthLength(n) + n
  }

  /** The announced lengths are those of the encodings. */
  lemma EncodedLengths(s: Bytes)
    ensures |EncodeString(s)| == StringLength(s) && |EncodeList(s)| == ListLength(|s|)
  {
    BigEndianLength(|s|);
  }

  /** Reads one encoded string off the front. */
  function ReadString(b: Bytes): (r: Option<(Bytes, Bytes)>) {
    if b == [] || b[0] >= 0xC0 then None
    else if b[0] < 0x80 then Some((b[..1], b[1..]))
    else if b[0] <= 0xB7 then Split(b, 1, b[0] - 0x80)
    else
      var k := b[0] - 0xB7;
      if 1 + k <= |b| then Split(b, 1 + k, FromBigEndian(b[1..1 + k])) else None
  }

  function Split(b: Bytes, at: nat, n: nat): Option<(Bytes, Bytes)> {
    if at + n <= |b| then Some((b[at..at + n], b[at + n..])) else None
  }

  /** An encoded string shows where it ends, and gives back what it encodes. */
  lemma StringRoundTrip(s: Bytes, rest: Bytes)
    requires |s| < SIZE_MAX
    ensures ReadString(EncodeString(s) + rest) == Some((s, rest))
  {
    hide BigEndian, FromBigEndian, LengthLength;
    if IsDirect(s) {
      var b := EncodeString(s) + rest;
      assert b[..1] == s && b[1..] == rest;
    } else if |s| <= 55 {
      SplitBehind(Prefix(0x80, 0xB7, |s|), s, rest);
    } else {
      SizeFits(|s|);
      BigEndianLength(|s|);
      BigEndianRoundTrip(|s|);
      var p := Prefix(0x80, 0xB7, |s|);
      SplitBehind(p, s, rest);
      assert (p + s + rest)[1..1 + LengthLength(|s|)] == p[1..] == BigEndian(|s|);
    }
  }

  lemma SplitBehind(p: Bytes, s: Bytes, rest: Bytes)
    ensures |p + s + rest| == |p| + |s| + |rest| && (p != [] ==> (p + s + rest)[0] == p[0])
    ensures Split(p + s + rest, |p|, |s|) == Some((s, rest))
  {
    var b := p + s + rest;
    assert b[|p|..|p| + |s|] == s && b[|p| + |s|..] == rest;
  }

  function ReadList(b: Bytes): (r: Option<(Bytes, Bytes)>) {
    if b == [] || b[0] < 0xC0 then None
    else if b[0] <= 0xF7 then Split(b, 1, b[0] - 0xC0)
    else
      var k := b[0] - 0xF7;
      if 1 + k <= |b| then Split(b, 1 + k, FromBigEndian(b[1..1 + k])) else None
  }

  lemma ListRoundTrip(content: Bytes, rest: Bytes)
    requires |content| < SIZE_MAX
    ensures ReadList(EncodeList(content) + rest) == Some((content, rest))
  {
    hide BigEndian, FromBigEndian, LengthLength;
    var p := Prefix(0xC0, 0xF7, |content|);
    SplitBehind(p, content, rest);
    if |content| > 55 {
      SizeFits(|content|);
      BigEndianLength(|content|);
      BigEndianRoundTrip(|content|);
      assert (p + content + rest)[1..1 + LengthLength(|content|)] == p[1..] == BigEndian(|content|);
    }
  }

  /** Writes the prefix and the content. A long length is stored as eight bytes, the significant ones first;
      what is too much of it is overwritten by the content, which is longer. */
  method PutPrefixed(d: array<Byte>, at: nat, short: nat, long: nat, s: Bytes) returns (end: nat)
    requires |s| < SIZE_MAX && at + ListLength(|s|) <= d.Length
    modifies d
    ensures end == at + |Prefix(short, long, |s|) + s| <= d.Length
    ensures d[..] == Written(old(d[..]), at, Prefix(short, long, |s|) + s)
  {
    hide Written, BigEndian, LengthLength;
    BigEndianLength(|s|);
    if |s| <= 55 {
      var x: Bytes := [(short + |s|) % 256];
      WrittenTwice(d[..], at, x, [], s);
      CopyTo(d, at, x);
      CopyTo(d, at + 1, s);
      end := at + 1 + |s|;
    } else {
      SizeFits(|s|);
      var k := LengthLength(|s|);
      var zeros: Bytes := seq(8 - k, i => 0);
      var x: Bytes := [(long + k) % 256];
      WrittenTwice(d[..], at, x, [], BigEndian(|s|) + zeros);
      WrittenTwice(d[..], at, x + BigEndian(|s|), zeros, s);
      assert x + (BigEndian(|s|) + zeros) == x + BigEndian(|s|) + zeros;
      CopyTo(d, at, x);
      CopyTo(d, at + 1, BigEndian(|s|) + zeros);
      CopyTo(d, at + 1 + k, s);
      end := at + 1 + k + |s|;
    }
  }

  /** The second write covers the excess of the first. */
  lemma WrittenTwice(b: Bytes, at: nat, x: Bytes, excess: Bytes, y: Bytes)
    requires |excess| <= |y| && at + |x| + |y| <= |b|
    ensures Written(Written(b, at, x + excess), at + |x|, y) == Written(b, at, x + y)
    ensures excess == [] ==> x + excess == x
  {
  }

  method PutString(d: array<Byte>, at: nat, s: Bytes) returns (end: nat)
    requires |s| < SIZE_MAX && at + StringLength(s) <= d.Length
    modifies d
    ensures end == at + |EncodeString(s)| == at + StringLength(s) <= d.Length
    ensures d[..] == Written(old(d[..]), at, EncodeString(s))
  {
    hide Prefix, Written;
    EncodedLengths(s);
    if |s| == 1 && s[0] <= 0x7F {
      CopyTo(d, at, [s[0]]);
      assert [s[0]] == s;
      end := at + 1;
    } else {
      end := PutPrefixed(d, at, 0x80, 0xB7, s);
    }
  }

  method PutList(d: array<Byte>, at: nat, content: Bytes) returns (end: nat)
    requires |content| < SIZE_MAX && at + ListLength(|content|) <= d.Length
    modifies d
    ensures end == at + |EncodeList(content)| == at + ListLength(|content|) <= d.Length
    ensures d[..] == Written(old(d[..]), at, EncodeList(content))
  {
    hide Prefix, Written;
    EncodedLengths(content);
    end := PutPrefixed(d, at, 0xC0, 0xF7, content);
  }

  function Packed(high: Nibble, low: Nibble): Byte {
    high * 16 + low
  }

  function High(b: Byte): Nibble {
    b / 16
  }

  function Low(b: Byte): Nibble {
    b % 16
  }

  lemma NibblesOfPacked(high: Nibble, low: Nibble)
    ensures High(Packed(high, low)) == high && Low(Packed(high, low)) == low
  {
  }

  /** Two nibbles to a byte, the first one high. */
  function Pack(nibbles: Key): Bytes {
    if |nibbles| < 2 then [] else [Packed(nibbles[0], nibbles[1])] + Pack(nibbles[2..])
  }

  function Unpack(b: Bytes): Key {
    if b == [] then [] else [High(b[0]), Low(b[0])] + Unpack(b[1..])
  }

  lemma {:induction false} PackRoundTrip(nibbles: Key, half: nat)
    requires |nibbles| == 2 * half
    ensures Unpack(Pack(nibbles)) == nibbles && |Pack(nibbles)| == half
  {
    hide High, Low, Packed;
    if half > 0 {
      var first, rest := Packed(nibbles[0], nibbles[1]), nibbles[2..];
      PackRoundTrip(rest, half - 1);
      NibblesOfPacked(nibbles[0], nibbles[1]);
      assert Pack(nibbles) == [first] + Pack(rest);
      assert Pack(nibbles)[1..] == Pack(rest);
      assert nibbles == [nibbles[0], nibbles[1]] + rest;
    }
  }

  function OddNibble(path: Key): Nibble {
    if |path| % 2 == 1 then path[0] else 0
  }

  /** The first byte tells a leaf from an extension and an odd path from an even one. */
  function Flags(terminating: bool, odd: bool): Nibble {
    if terminating then if odd then 3 else 2 else if odd then 1 else 0
  }

  function CompactEncode(path: Key, terminating: bool): Bytes {
    [Packed(Flags(terminating, |path| % 2 == 1), OddNibble(path))] + Pack(path[|path| % 2..])
  }

  function CompactDecode(b: Bytes): (Key, bool)
    requires b != []
  {
    ((if High(b[0]) % 2 == 1 then [Low(b[0])] else []) + Unpack(b[1..]), High(b[0]) >= 2)
  }

  lemma CompactRoundTrip(path: Key, terminating: bool)
    ensures |CompactEncode(path, terminating)| == |path| / 2 + 1
    ensures CompactDecode(CompactEncode(path, terminating)) == (path, terminating)
  {
    hide Packed, High, Low, Pack, Unpack;
    var b, odd := CompactEncode(path, terminating), |path| % 2 == 1;
    var tail := if odd then path[1..] else path;
    assert path[|path| % 2..] == tail;
    PackRoundTrip(tail, |path| / 2);
    NibblesOfPacked(Flags(terminating, odd), OddNibble(path));
    assert b[1..] == Pack(tail);
    assert path == (if odd then [path[0]] else []) + tail;
  }

  /** The first byte: 32 for a leaf, and for an odd path 16 and the first nibble. */
  lemma CompactFirstByte(path: Key, terminating: bool)
    ensures |CompactEncode(path, terminating)| == |path| / 2 + 1
    ensures CompactEncode(path, terminating)[0] == (if terminating then 32 else 0) + if |path| % 2 == 1 then 16 + (path[0] as int) else 0
  {
    CompactRoundTrip(path, terminating);
  }

  /** The bytes behind it: the nibbles that are left, two to a byte, the first one high. */
  lemma {:induction false} PackAt(nibbles: Key, k: nat)
    requires 2 * k + 1 < |nibbles|
    ensures k < |Pack(nibbles)| && Pack(nibbles)[k] == 16 * (nibbles[2 * k] as int) + nibbles[2 * k + 1]
  {
    if k > 0 {
      PackAt(nibbles[2..], k - 1);
    }
  }

  lemma CompactIs(path: Key, terminating: bool)
    ensures |CompactEncode(path, terminating)| == |path| / 2 + 1
    ensures CompactEncode(path, terminating)[1..] == Pack(path[|path| % 2..])
  {
    hide Pack, Packed, CompactDecode;
    CompactRoundTrip(path, terminating);
  }

  lemma CompactByte(path: Key, terminating: bool, k: nat)
    requires 1 <= k <= |path| / 2
    ensures var b, at := CompactEncode(path, terminating), 2 * (k - 1) + |path| % 2;
            |b| == |path| / 2 + 1 && b[k] == 16 * (path[at] as int) + path[at + 1]
  {
    CompactIs(path, terminating);
    hide Pack, CompactEncode;
    PackAt(path[|path| % 2..], k - 1);
  }

  /** The four kinds of paths. */
  lemma CompactVectors()
    ensures CompactEncode([1, 2], true) == [0x20, 0x12] && CompactEncode([1, 2, 3], true) == [0x31, 0x23]
    ensures CompactEncode([1, 2], false) == [0x00, 0x12] && CompactEncode([1, 2, 3], false) == [0x11, 0x23]
    ensures CompactEncode([], true) == [0x20]
  {
    assert [1, 2, 3][1..] == [2, 3] && [1, 2][0..] == [1, 2];
    assert Pack([1, 2]) == [0x12] && Pack([2, 3]) == [0x23];
  }

  lemma StringVectors()
    ensures EncodeString([]) == [128] && EncodeString([1]) == [1] && EncodeString([128]) == [129, 128]
    ensures EncodeString([1, 2]) == [130, 1, 2]
    ensures EncodeString(seq(55, i => 1)) == [183] + seq(55, i => 1)
    ensures EncodeString(seq(56, i => 1)) == [184, 56] + seq(56, i => 1)
  {
    assert BigEndian(56) == [56] && LengthLength(56) == 1;
  }

  lemma ListVectors()
    ensures EncodeList([]) == [192] && EncodeList([1]) == [193, 1] && EncodeList([1, 2]) == [194, 1, 2]
    ensures EncodeList(seq(55, i => 1)) == [247] + seq(55, i => 1)
    ensures EncodeList(seq(56, i => 1)) == [248, 56] + seq(56, i => 1)
  {
    assert BigEndian(56) == [56] && LengthLength(56) == 1;
  }

  lemma LengthVectors()
    ensures LengthLength(0) == 0 && LengthLength(1) == LengthLength(255) == 1 && LengthLength(256) == LengthLength(65535) == 2
    ensures LengthLength(65536) == 3 && BigEndian(255) == [255] && BigEndian(256) == [1, 0] && BigEndian(258) == [1, 2]
    ensures LengthLength(SIZE_MAX - 1) == 8
  {
    SizeFits(SIZE_MAX - 1);
    LengthOf(SIZE_MAX - 1, 7);
    assert Pow256(7) == 0x100_0000_0000_0000;
  }

  lemma {:induction false} LengthOf(n: nat, k: nat)
    requires Pow256(k) <= n
    ensures LengthLength(n) > k
  {
    if k > 0 {
      LengthOf(n / 256, k - 1);
    }
  }
}
