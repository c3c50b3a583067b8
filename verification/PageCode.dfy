/** The 15 bits that tell a reader how many disk pages to load for a node: a rounded-up floating page count. */
module PageCode {
  import opened Arithmetic
  import opened Trie
  import opened NodeLayout

  const MAX_COUNT := 1023
  const MAX_SHIFT := 31
  const UNSIGNED_LIMIT := 0x1_0000_0000
  const DISK_PAGE_SIZE := 512

  datatype Code = Code(count: nat, shift: nat)

  /** How many bits it takes to write `n`: 32 less its leading zeros. */
  function BitLength(n: nat): (b: nat)
    ensures n < Pow2(b)
    ensures n > 0 ==> b > 0 && Pow2(b - 1) <= n
  {
    if n == 0 then 0 else BitLength(n / 2) + 1
  }

  /** The decoded page count, with the 32-bit wrap-around of the shift. */
  function ToPages(c: Code): nat {
    c.count * Pow2(c.shift) % UNSIGNED_LIMIT
  }

  /** The packed bits: the count below, the shift above. */
  function Pack(c: Code): nat {
    c.count + c.shift * (MAX_COUNT + 1)
  }

  function Unpack(bits: nat): Code {
    Code(bits % (MAX_COUNT + 1), bits / (MAX_COUNT + 1) % (MAX_SHIFT + 1))
  }

  lemma PackFits(c: Code)
    requires c.count <= MAX_COUNT && c.shift <= MAX_SHIFT
    ensures Pack(c) < 0x8000 && Unpack(Pack(c)) == c
  {
  }

  /** Rounding up to a multiple of a power of two. */
  lemma CeilBounds(pages: nat, p: nat)
    requires p > 0
    ensures var c := pages / p + if pages % p != 0 then 1 else 0;
      c * p >= pages && (c * p - pages) < p && (pages % p == 0 ==> c * p == pages)
  {
    var q, r := pages / p, pages % p;
    assert pages == p * q + r && (q + 1) * p == p * q + p && q * p == p * q;
  }

  /** The pages that a code stands for are enough. */
  predicate Covers(c: Code, pages: nat) {
    c.count <= MAX_COUNT && c.count * Pow2(c.shift) >= pages
  }

  lemma FinerIsTooSmall(pages: nat, shift: nat, c: Code)
    requires shift == BitLength(pages / 1024) && c.shift < shift && c.count <= MAX_COUNT
    ensures c.count * Pow2(c.shift) < pages
  {
    assert BitLength(0) == 0;
    hide Pow2, BitLength;
    PowMono(c.shift, shift - 1);
    var p := Pow2(shift - 1);
    Times(c.count, MAX_COUNT, Pow2(c.shift), p);
    assert p <= pages / 1024 && 1024 * (pages / 1024) <= pages;
    assert MAX_COUNT * p < 1024 * p;
  }

  /** No code that stands for enough pages stands for fewer than the rounded count does. */
  lemma Tightest(pages: nat, shift: nat, p: nat, count: nat, c: Code)
    requires shift == BitLength(pages / 1024) && p == Pow2(shift) && count == pages / p + if pages % p != 0 then 1 else 0
    ensures Covers(c, pages) ==> count * p <= c.count * Pow2(c.shift)
  {
    hide Pow2, BitLength;
    if Covers(c, pages) {
      if c.shift < shift {
        FinerIsTooSmall(pages, shift, c);
      } else {
        var k := Pow2(c.shift - shift);
        PowAdd(shift, c.shift - shift);
        Grouped(c.count, p, k);
        MultiplesOf(pages, p, count, c.count * k);
      }
    }
  }

  lemma NoneTighter(pages: nat, shift: nat, p: nat, count: nat)
    requires shift == BitLength(pages / 1024) && p == Pow2(shift) && count == pages / p + if pages % p != 0 then 1 else 0
    ensures forall c: Code | Covers(c, pages) :: count * p <= c.count * Pow2(c.shift)
  {
    hide Pow2, BitLength, Covers;
    forall c: Code | Covers(c, pages) ensures count * p <= c.count * Pow2(c.shift) {
      Tightest(pages, shift, p, count, c);
    }
  }

  lemma Grouped(a: nat, p: nat, k: nat)
    ensures a * (p * k) == (a * k) * p
  {
  }

  lemma MultiplesOf(pages: nat, p: nat, count: nat, n: nat)
    requires p > 0 && count == pages / p + (if pages % p != 0 then 1 else 0) && n * p >= pages
    ensures count * p <= n * p
  {
    CeilBounds(pages, p);
    assert (count - 1) * p == count * p - p;
    assert n >= count by {
      if n < count {
        Times(n, count - 1, p, p);
      }
    }
    Times(count, n, p, p);
  }

  /** Packs a page count; none when it is too large for the code. */
  method Encode(pages: nat) returns (r: Option<Code>)
    requires pages < UNSIGNED_LIMIT
    ensures r.Some? <==> pages <= MAX_COUNT * Pow2(22)
    ensures r.Some? ==> r.value.count <= MAX_COUNT && r.value.shift <= MAX_SHIFT && ToPages(r.value) >= pages
    ensures r.Some? && pages <= MAX_COUNT ==> ToPages(r.value) == pages
    ensures r.Some? && pages > MAX_COUNT ==> (ToPages(r.value) - pages) * 512 < pages
    ensures r.Some? ==> forall c: Code | Covers(c, pages) :: ToPages(r.value) <= c.count * Pow2(c.shift)
  {
    hide Pow2, BitLength, ToPages, Covers;
    var exp := pages / 1024;
    var shift := BitLength(exp);
    var p := Pow2(shift);
    var count := pages / p + if pages % p != 0 then 1 else 0;
    Counted(pages, shift, p, count);
    if count > MAX_COUNT {
      count, shift := count / 2, shift + 1;
    }
    var c := Code(count, shift);
    NoneTighter(pages, BitLength(exp), p, pages / p + if pages % p != 0 then 1 else 0);
    if count > MAX_COUNT || shift > MAX_SHIFT || ToPages(c) < pages {
      return None;
    }
    r := Some(c);
  }

  /** The count before it is halved, and what both forms decode to. */
  lemma Counted(pages: nat, shift: nat, p: nat, count: nat)
    requires pages < UNSIGNED_LIMIT && shift == BitLength(pages / 1024) && p == Pow2(shift)
    requires count == pages / p + if pages % p != 0 then 1 else 0
    ensures shift <= 22 && count <= 1024 && pages <= count * p < pages + p
    ensures pages <= MAX_COUNT ==> count == pages == count * p
    ensures pages > MAX_COUNT ==> 512 * p <= pages
    ensures count <= MAX_COUNT ==> pages <= MAX_COUNT * Pow2(22) && ToPages(Code(count, shift)) == count * p
    ensures count == 1024 && shift < 22 ==> pages <= MAX_COUNT * Pow2(22) && ToPages(Code(512, shift + 1)) == count * p
    ensures count == 1024 && shift == 22 ==> pages > MAX_COUNT * Pow2(22) && ToPages(Code(512, shift + 1)) == 0
  {
    hide Pow2, BitLength;
    var e := pages / 1024;
    ShiftRange(e, shift);
    CeilBounds(pages, p);
    CountRange(pages, p, count);
    Powers(shift);
    if count <= MAX_COUNT {
      Times(count, MAX_COUNT, p, Pow2(22));
      Decodes(count, shift, count * p);
    } else if shift < 22 {
      Times(1024, 1024, p, Pow2(21));
      Halved(shift, p);
      Decodes(512, shift + 1, count * p);
    } else {
      Halved(shift, p);
    }
  }

  lemma Decodes(count: nat, shift: nat, pages: nat)
    requires pages == count * Pow2(shift) < UNSIGNED_LIMIT
    ensures ToPages(Code(count, shift)) == pages
  {
  }

  lemma Halved(shift: nat, p: nat)
    requires p == Pow2(shift)
    ensures 512 * Pow2(shift + 1) == 1024 * p
  {
  }

  lemma ShiftRange(e: nat, shift: nat)
    requires e < 0x40_0000 && shift == BitLength(e)
    ensures shift <= 22 && e < Pow2(shift) && (e == 0 ==> shift == 0) && (e > 0 ==> Pow2(shift) <= 2 * e)
  {
    if shift > 22 {
      PowMono(22, shift - 1);
      Powers(22);
    }
  }

  lemma Powers(shift: nat)
    requires shift <= 22
    ensures Pow2(22) == 0x40_0000 && Pow2(21) == 0x20_0000 && Pow2(shift) <= Pow2(22)
    ensures shift < 22 ==> Pow2(shift) <= Pow2(21)
    ensures Pow2(shift + 1) == 2 * Pow2(shift) && (shift == 0 ==> Pow2(shift) == 1)
  {
    PowMono(shift, 22);
    if shift < 22 {
      PowMono(shift, 21);
    }
    assert Pow2(5) == 32;
    PowAdd(5, 5);
    PowAdd(10, 10);
    assert Pow2(10) == 1024 && Pow2(20) == 0x10_0000;
  }

  lemma CountRange(pages: nat, p: nat, count: nat)
    requires p > 0 && pages / 1024 < p && count * p < pages + p
    ensures count <= 1024
  {
    assert pages < 1024 * p;
    if count >= 1025 {
      Times(1025, count, p, p);
    }
  }

  /** How many pages a node of `bytes` bytes at `offset` touches. */
  function NumPages(offset: nat, bytes: nat): (n: nat)
    ensures offset + bytes <= (offset / DISK_PAGE_SIZE + n) * DISK_PAGE_SIZE
    ensures bytes > 0 ==> n > 0 && (offset / DISK_PAGE_SIZE + n - 1) * DISK_PAGE_SIZE < offset + bytes
  {
    var inPage := offset % DISK_PAGE_SIZE;
    (bytes + inPage + DISK_PAGE_SIZE - 1) / DISK_PAGE_SIZE
  }

  /** A read of the decoded pages from the page the node starts in gets the whole node. */
  method ReadSpan(offset: nat, bytes: nat) returns (from: nat, length: nat, skip: nat)
    requires 0 < bytes <= MAX_DISK_SIZE
    ensures from % DISK_PAGE_SIZE == 0 && skip < DISK_PAGE_SIZE && from + skip == offset
    ensures offset + bytes <= from + length && length % DISK_PAGE_SIZE == 0
    ensures NumPages(offset, bytes) <= MAX_COUNT ==> length == NumPages(offset, bytes) * 512 && length < bytes + 2 * DISK_PAGE_SIZE
  {
    hide Pow2;
    var pages := NumPages(offset, bytes);
    Powers(22);
    var code := Encode(pages);
    from := offset / DISK_PAGE_SIZE * DISK_PAGE_SIZE;
    length := ToPages(code.value) * DISK_PAGE_SIZE;
    skip := offset - from;
  }
}
