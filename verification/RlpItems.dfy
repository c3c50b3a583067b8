/** What a list shows when it is read back: how many items it has, which tells a branch from a leaf or an extension, and
    whether its first item marks a leaf (Ethereum Yellow Paper, Appendices C and D). */
module RlpItems {
  import opened Trie
  import opened Rlp
  import opened MerkleSpec

  /** Reads one item, a string or a list, off the front. */
  function SkipItem(b: Bytes): Option<Bytes> {
    match ReadString(b)
    case Some((_, rest)) => Some(rest)
    case None =>
      match ReadList(b)
      case Some((_, rest)) => Some(rest)
      case None => None
  }

  /** How many items follow one another. */
  function Items(b: Bytes): Option<nat> {
    if b == [] then Some(0)
    else
      match SkipItem(b)
      case None => None
      case Some(rest) => if |rest| < |b| then More(Items(rest), 1) else None
  }

  function More(n: Option<nat>, k: nat): Option<nat> {
    if n.Some? then Some(n.value + k) else None
  }

  lemma ItemsOfString(s: Bytes, rest: Bytes)
    requires |s| < SIZE_MAX
    ensures Items(EncodeString(s) + rest) == More(Items(rest), 1)
  {
    hide EncodeString, ReadString, ReadList;
    StringRoundTrip(s, rest);
    EncodedLengths(s);
    StartsNonEmpty(s);
  }

  lemma StartsNonEmpty(s: Bytes)
    ensures StringLength(s) > 0 && ListLength(|s|) > 0
  {
  }

  lemma ItemsOfList(content: Bytes, rest: Bytes)
    requires |content| < SIZE_MAX
    ensures Items(EncodeList(content) + rest) == More(Items(rest), 1)
  {
    ListIsNoString(content, rest);
    hide EncodeList, ReadString, ReadList;
    ListRoundTrip(content, rest);
    EncodedLengths(content);
    StartsNonEmpty(content);
  }

  lemma ListIsNoString(content: Bytes, rest: Bytes)
    requires |content| < SIZE_MAX
    ensures ReadString(EncodeList(content) + rest) == None
  {
    hide BigEndian, LengthLength;
    SizeFits(|content|);
    assert (EncodeList(content) + rest)[0] == EncodeList(content)[0] >= 0xC0;
  }

  /** What stands for a node in its parent is one item. */
  lemma ItemsOfReference(h: Scheme, content: Bytes, rest: Bytes)
    ensures Items(Item(Reference(h, EncodeList(content))) + rest) == More(Items(rest), 1)
    ensures |Item(Reference(h, EncodeList(content)))| <= KECCAK256_SIZE + 1
  {
    hide Items, EncodeList;
    EncodedLengths(content);
    var r := Reference(h, EncodeList(content));
    if |r| < KECCAK256_SIZE {
      ItemsOfList(content, rest);
    } else {
      EncodedLengths(r);
      hide EncodeString;
      ItemsOfString(r, rest);
    }
  }

  lemma ItemsOfNothing(rest: Bytes)
    ensures Items(NO_ITEM + rest) == More(Items(rest), 1)
  {
    hide Items;
    assert EncodeString([]) == NO_ITEM;
    ItemsOfString([], rest);
  }

  ghost predicate IsList(rlp: Bytes) {
    exists content: Bytes :: rlp == EncodeList(content)
  }

  lemma PiecesAreList(path: Key, second: Bytes, terminating: bool)
    ensures IsList(TwoPieces(path, second, terminating))
  {
    hide EncodeList, EncodeString, CompactEncode, Item;
  }

  lemma BranchIsList(h: Scheme, m: Pairs, len: nat)
    requires Lengths(m, len) && len > 0
    ensures IsList(CompositionBranch(h, m, len))
  {
    hide EncodeList, EncodeString, CompositionSlots, Lengths;
  }

  /** A composition is a list. */
  lemma CompositionIsList(h: Scheme, m: Pairs, len: nat)
    requires Lengths(m, len) && m != map[]
    ensures IsList(Composition(h, m, len))
  {
    hide IsList, TwoPieces, Reference, CompositionBranch, Lead, Strip, Lengths;
    if !Many(m) {
      var k :| k in m && Composition(h, m, len) == TwoPieces(k, m[k], true);
      PiecesAreList(k, m[k], true);
    } else {
      LeadShort(m, len);
      var p := Lead(m, len);
      StripLengths(m, p, len);
      if p == [] {
        BranchIsList(h, m, len);
      } else {
        PiecesAreList(p, Reference(h, CompositionBranch(h, Strip(m, p), len - |p|)), false);
      }
    }
  }

  /** What stands at a branch is one item. */
  lemma ItemsOfSlot(h: Scheme, m: Pairs, len: nat, rest: Bytes)
    requires Lengths(m, len)
    ensures var x := if m == map[] then NO_ITEM else Item(Reference(h, Composition(h, m, len)));
            Items(x + rest) == More(Items(rest), 1) && |x| <= KECCAK256_SIZE + 1
  {
    hide Items, Composition, Reference, Item, EncodeList, Lengths;
    if m == map[] {
      ItemsOfNothing(rest);
    } else {
      CompositionIsList(h, m, len);
      var content :| Composition(h, m, len) == EncodeList(content);
      ItemsOfReference(h, content, rest);
    }
  }

  lemma {:induction false} ItemsOfSlots(h: Scheme, m: Pairs, len: nat, n: nat, rest: Bytes)
    requires Lengths(m, len) && len > 0 && n <= BRANCHES
    ensures Items(CompositionSlots(h, m, len, n) + rest) == More(Items(rest), n)
    ensures |CompositionSlots(h, m, len, n)| <= n * (KECCAK256_SIZE + 1)
  {
    hide Items, Strip, Composition, Reference, Item, Lengths, CompositionSlots;
    if n == 0 {
      NoSlots(h, m, len);
      assert [] + rest == rest;
    } else {
      var m', front := Strip(m, [n - 1]), CompositionSlots(h, m, len, n - 1);
      StripLengths(m, [n - 1], len);
      var x := OneMoreSlot(h, m, len, n);
      ItemsOfSlot(h, m', len - 1, rest);
      ItemsOfSlots(h, m, len, n - 1, x + rest);
      assert front + x + rest == front + (x + rest);
    }
  }

  lemma NoSlots(h: Scheme, m: Pairs, len: nat)
    requires Lengths(m, len) && len > 0
    ensures CompositionSlots(h, m, len, 0) == []
  {
  }

  lemma OneMoreSlot(h: Scheme, m: Pairs, len: nat, n: nat) returns (x: Bytes)
    requires Lengths(m, len) && len > 0 && 0 < n <= BRANCHES
    ensures Lengths(Strip(m, [n - 1]), len - 1)
    ensures x == if Strip(m, [n - 1]) == map[] then NO_ITEM else Item(Reference(h, Composition(h, Strip(m, [n - 1]), len - 1)))
    ensures CompositionSlots(h, m, len, n) == CompositionSlots(h, m, len, n - 1) + x
  {
    hide Strip, Composition, Reference, Item, Lengths;
    StripLengths(m, [n - 1], len);
    x := if Strip(m, [n - 1]) == map[] then NO_ITEM else Item(Reference(h, Composition(h, Strip(m, [n - 1]), len - 1)));
  }

  /** A branch is a list of seventeen items. */
  lemma SeventeenItems(h: Scheme, m: Pairs, len: nat) returns (content: Bytes)
    requires Lengths(m, len) && len > 0 && ([] in m ==> |m[[]]| < LEAF_LIMIT)
    ensures CompositionBranch(h, m, len) == EncodeList(content) && |content| < SIZE_MAX && Items(content) == Some(17)
  {
    hide Items, EncodeList, EncodeString, CompositionSlots, StringLength;
    var own := if [] in m then EncodeString(m[[]]) else NO_ITEM;
    ItemsOfSlots(h, m, len, BRANCHES, own);
    assert own + [] == own;
    NoItems();
    if [] in m {
      ItemsOfString(m[[]], []);
      EncodedLengths(m[[]]);
      ShortString(m[[]]);
    } else {
      ItemsOfNothing([]);
    }
    content := CompositionSlots(h, m, len, BRANCHES) + own;
  }

  lemma NoItems()
    ensures Items([]) == Some(0)
  {
  }

  lemma ShortString(s: Bytes)
    requires |s| < LEAF_LIMIT
    ensures StringLength(s) <= |s| + 9
  {
    SizeFits(|s|);
  }

  /** A leaf or an extension is a list of two. */
  lemma PiecesItems(path: Key, second: Bytes, terminating: bool, inner: Bytes) returns (content: Bytes)
    requires |path| < LEAF_LIMIT && |second| < LEAF_LIMIT
    requires terminating || |second| == KECCAK256_SIZE || (second == EncodeList(inner) && |second| < KECCAK256_SIZE)
    ensures TwoPieces(path, second, terminating) == EncodeList(content) && |content| < SIZE_MAX && Items(content) == Some(2)
  {
    hide Items, EncodeList, EncodeString, CompactEncode, StringLength;
    var first := CompactEncode(path, terminating);
    CompactRoundTrip(path, terminating);
    var rest := if terminating then EncodeString(second) else Item(second);
    assert rest + [] == rest;
    NoItems();
    EncodedLengths(first);
    EncodedLengths(second);
    ShortString(first);
    ShortString(second);
    if terminating || |second| == KECCAK256_SIZE {
      ItemsOfString(second, []);
    } else {
      EncodedLengths(inner);
      InnerIsShort(inner);
      ItemsOfList(inner, []);
    }
    ItemsOfString(first, rest);
    content := EncodeString(first) + rest;
  }

  lemma InnerIsShort(inner: Bytes)
    ensures |inner| < ListLength(|inner|)
  {
  }

  /** Lists of different numbers of items differ. */
  lemma ListsDiffer(a: Bytes, b: Bytes)
    requires |a| < SIZE_MAX && |b| < SIZE_MAX && Items(a) != Items(b)
    ensures EncodeList(a) != EncodeList(b)
  {
    hide Items, EncodeList, ReadList;
    ListRoundTrip(a, []);
    ListRoundTrip(b, []);
    assert EncodeList(a) + [] == EncodeList(a) && EncodeList(b) + [] == EncodeList(b);
  }

  /** Reads a leaf or an extension: its path, whether it is a leaf, and the second piece. */
  function ReadPieces(rlp: Bytes): Option<(Key, bool, Bytes)> {
    match ReadList(rlp)
    case None => None
    case Some((content, _)) =>
      match ReadString(content)
      case None => None
      case Some((first, rest)) =>
        if first == [] then None
        else
          var (path, terminating) := CompactDecode(first);
          if !terminating && |rest| < KECCAK256_SIZE then Some((path, false, rest))
          else
            match ReadString(rest)
            case None => None
            case Some((second, _)) => Some((path, terminating, second))
  }

  /** Leaves and extensions give back what they are made of. */
  lemma PiecesRoundTrip(path: Key, second: Bytes, t: bool)
    requires |path| < LEAF_LIMIT && |second| < LEAF_LIMIT && (!t ==> |second| <= KECCAK256_SIZE)
    ensures ReadPieces(TwoPieces(path, second, t)) == Some((path, t, second))
  {
    hide EncodeString, EncodeList, CompactEncode, CompactDecode, ReadString, ReadList, StringLength;
    var first := CompactEncode(path, t);
    var rest := if t then EncodeString(second) else Item(second);
    CompactRoundTrip(path, t);
    EncodedLengths(first);
    EncodedLengths(second);
    ShortString(first);
    ShortString(second);
    HashLength(second);
    StringRoundTrip(first, rest);
    StringRoundTrip(second, []);
    ListRoundTrip(EncodeString(first) + rest, []);
    assert EncodeList(EncodeString(first) + rest) + [] == EncodeList(EncodeString(first) + rest);
    assert EncodeString(second) + [] == EncodeString(second);
  }

  lemma HashLength(s: Bytes)
    ensures |s| == KECCAK256_SIZE ==> StringLength(s) == KECCAK256_SIZE + 1
  {
  }

  /** Whether the second piece is marked as a leaf's shows. */
  lemma PiecesTellKind(path: Key, second: Bytes)
    requires |path| < LEAF_LIMIT && |second| <= KECCAK256_SIZE
    ensures TwoPieces(path, second, true) != TwoPieces(path, second, false)
  {
    hide ReadPieces, TwoPieces;
    PiecesRoundTrip(path, second, true);
    PiecesRoundTrip(path, second, false);
  }
}
