/** The ring of root offsets: one slot per recent version, a next version and a lazily raised lower bound. */
module RootOffsets {
  import opened Trie
  import opened TrieHeap

  const VERSION_LIMIT := 0x1_0000_0000_0000_0000

  /** What the "no version" result of the 64-bit subtraction next - 1 is when next is 0. */
  const INVALID_BLOCK_NUM := VERSION_LIMIT - 1

  /** What the ring stands for: the live versions and their offsets. */
  datatype History = History(lower: nat, next: nat, live: map<nat, Offset>)

  /** The first live version from `from` on, or the last version there is. */
  function Advance(live: map<nat, Offset>, from: nat, next: nat): (r: nat)
    ensures from <= r
    ensures from < next ==> r < next && (r in live || r == next - 1)
    ensures from >= next ==> r == from
    ensures forall v | from <= v < r :: v !in live
    decreases next - from
  {
    if from + 1 >= next || from in live then from else Advance(live, from + 1, next)
  }

  function Raised(h: History, from: nat): History {
    if h.next == 0 then h else h.(lower := Advance(h.live, if from < h.lower then from else h.lower, h.next))
  }

  function Pushed(h: History, o: Option<Offset>): History {
    if o.None? then h.(next := h.next + 1)
    else var h' := h.(next := h.next + 1, live := h.live[h.next := o.value]); Raised(h', h'.lower)
  }

  function Assigned(h: History, i: nat, o: Option<Offset>): History {
    if o.Some? then Raised(h.(live := h.live[i := o.value]), i)
    else Raised(h.(live := h.live - {i}), h.lower)
  }

  function UpTo(live: map<nat, Offset>, version: nat): map<nat, Offset> {
    map v | v in live && v <= version :: live[v]
  }

  function Rewound(h: History, version: nat): History {
    var live := UpTo(h.live, version);
    History(Advance(live, if version < h.lower then version else h.lower, version + 1), version + 1, live)
  }

  /** All live versions are between the lower bound and the next version, at most `cap` apart. */
  predicate Bounded(h: History, cap: nat) {
    && h.lower <= h.next <= h.lower + cap && h.next < VERSION_LIMIT
    && forall v | v in h.live :: h.lower <= v < h.next
  }

  /** The slot of a version. The capacity is a power of two, so masking with capacity - 1 is this remainder. */
  function SlotOf(v: int, cap: nat): (i: nat)
    requires cap > 0
    ensures i < cap
  {
    v % cap
  }

  /** Versions closer than `cap` never share a slot. */
  lemma SameSlot(a: int, b: int, cap: nat)
    requires cap > 0 && a < b < a + cap
    ensures SlotOf(a, cap) != SlotOf(b, cap)
  {
    var qa, qb := a / cap, b / cap;
    assert a == cap * qa + a % cap && b == cap * qb + b % cap;
    Multiple(qb - qa, cap);
    assert cap * (qb - qa) == cap * qb - cap * qa;
  }

  lemma SameRemainder(v: int, cap: nat)
    requires cap > 0
    ensures SlotOf(v, cap) == SlotOf(v + cap, cap)
  {
    assert v + cap == cap * (v / cap + 1) + v % cap by {
      assert cap * (v / cap + 1) == cap * (v / cap) + cap;
    }
    UniqueRemainder(v + cap, cap, v / cap + 1, v % cap);
  }

  /** Every version shares its slot with one of the window below 0. */
  lemma SameRemainderAs(v: int, cap: nat)
    requires cap > 0
    ensures SlotOf(SlotOf(v, cap) - cap, cap) == SlotOf(v, cap)
  {
    UniqueRemainder(SlotOf(v, cap) - cap, cap, -1, SlotOf(v, cap));
  }

  lemma UniqueRemainder(x: int, cap: nat, q: int, r: int)
    requires cap > 0 && 0 <= r < cap && x == cap * q + r
    ensures x % cap == r
  {
    var d := x / cap - q;
    assert x == cap * (x / cap) + x % cap;
    assert cap * d == cap * (x / cap) - cap * q;
    Multiple(d, cap);
    Multiple(-d, cap);
    assert cap * -d == -(cap * d);
  }

  /** Raising from a later start gives the same when nothing live lies between. */
  lemma {:induction false} AdvanceSkip(live: map<nat, Offset>, a: nat, b: nat, next: nat)
    requires a <= b < next && forall v | a <= v < b :: v !in live
    ensures Advance(live, a, next) == Advance(live, b, next)
    decreases b - a
  {
    if a < b {
      AdvanceSkip(live, a + 1, b, next);
    }
  }

  lemma Multiple(k: int, cap: nat)
    ensures k >= 1 ==> cap * k >= cap
    ensures k <= 0 ==> cap * k <= 0
  {
  }

  class Ring {
    const slots: array<Option<Offset>>
    var lower: nat
    var next: nat

    constructor (capacity: nat)
      requires capacity > 0
      ensures Valid() && slots.Length == capacity && fresh(slots) && State() == History(0, 0, map[])
    {
      slots := new Option<Offset>[capacity](_ => None);
      lower, next := 0, 0;
    }

    /** INVALID_BLOCK_NUM when nothing has been pushed. */
    function MaxVersion(): (v: nat)
      reads this`next
    {
      if next == 0 then INVALID_BLOCK_NUM else next - 1
    }

    function Slot(v: int): Option<Offset>
      requires slots.Length > 0
      reads slots
    {
      slots[SlotOf(v, slots.Length)]
    }

    /** Slots of the window below the lower bound are empty. */
    ghost predicate Valid()
      reads this, slots
    {
      && slots.Length > 0
      && lower <= next <= lower + slots.Length && next < VERSION_LIMIT
      && forall v: int | next - slots.Length <= v < lower :: Slot(v) == None
    }

    ghost function Live(): map<nat, Offset>
      requires slots.Length > 0
      reads this, slots
    {
      map v: nat | next - slots.Length <= v < next && Slot(v).Some? :: Slot(v).value
    }

    ghost function State(): (h: History)
      requires slots.Length > 0
      reads this, slots
    {
      History(lower, next, Live())
    }

    lemma StateIsBounded()
      requires Valid()
      ensures slots.Length > 0 && Bounded(State(), slots.Length)
    {
    }

    /** An empty ring has nothing for any version. */
    lemma AllEmpty(v: int)
      requires Valid() && next == 0
      ensures Slot(v) == None
    {
      SameRemainderAs(v, slots.Length);
      assert Slot(SlotOf(v, slots.Length) - slots.Length) == None;
    }

    /** Writing one slot changes one version of the window. */
    lemma SlotWritten(was: seq<Option<Offset>>, i: int, lo: int)
      requires slots.Length > 0 && |was| == slots.Length && lo <= i < lo + slots.Length
      requires forall j | 0 <= j < slots.Length && j != SlotOf(i, slots.Length) :: slots[j] == was[j]
      ensures forall v: int | lo <= v < lo + slots.Length && v != i :: Slot(v) == was[SlotOf(v, slots.Length)]
    {
      forall v: int | lo <= v < lo + slots.Length && v != i ensures Slot(v) == was[SlotOf(v, slots.Length)] {
        if v < i { SameSlot(v, i, slots.Length); } else { SameSlot(i, v, slots.Length); }
      }
    }

    /** Raises the lower bound, from `lowerBound` if that is lower, over the versions that are not live. */
    method UpdateLowerBound(lowerBound: nat)
      requires slots.Length > 0 && lower <= next && next < VERSION_LIMIT
      requires next <= (if lowerBound < lower then lowerBound else lower) + slots.Length
      requires forall v: int | next - slots.Length <= v < lower && v < lowerBound :: Slot(v) == None
      modifies `lower
      ensures Valid() && State() == Raised(old(State()), lowerBound)
    {
      hide SlotOf;
      var idx := if lowerBound < lower then lowerBound else lower;
      if next == 0 {
        return;
      }
      var maxVersion := next - 1;
      ghost var start, live := idx, Live();
      while idx < maxVersion && Slot(idx) == None
        invariant start <= idx && (idx > start ==> idx <= maxVersion)
        invariant forall v: int | next - slots.Length <= v < idx :: Slot(v) == None
        invariant Advance(live, start, next) == Advance(live, idx, next)
      {
        idx := idx + 1;
      }
      if idx != lower {
        lower := idx;
      }
    }

    method Push(o: Option<Offset>)
      requires Valid() && next - lower < slots.Length && next + 1 < VERSION_LIMIT
      modifies this, slots
      ensures Valid() && State() == Pushed(old(State()), o)
    {
      hide SlotOf, Advance;
      var wp := next;
      Store(wp, o, wp - slots.Length + 1);
      next := wp + 1;
      assert Live() == if o.Some? then old(Live())[wp := o.value] else old(Live());
      if o != None {
        UpdateLowerBound(INVALID_BLOCK_NUM);
      }
    }

    /** Writes the slot of version `i`; the other versions of a window keep theirs. */
    method Store(i: nat, o: Option<Offset>, ghost from: int)
      requires slots.Length > 0 && from <= i < from + slots.Length
      modifies slots
      ensures Slot(i) == o
      ensures forall v: int | from <= v < from + slots.Length && v != i :: Slot(v) == old(Slot(v))
    {
      hide SlotOf;
      ghost var was := slots[..];
      slots[SlotOf(i, slots.Length)] := o;
      SlotWritten(was, i, from);
    }

    method Assign(i: nat, o: Option<Offset>)
      requires Valid() && next - slots.Length <= i < next
      modifies `lower, slots
      ensures Valid() && State() == Assigned(old(State()), i, o)
    {
      hide SlotOf, Advance;
      Store(i, o, next - slots.Length);
      assert Live() == if o.Some? then old(Live())[i := o.value] else old(Live()) - {i};
      UpdateLowerBound(if o != None then i else INVALID_BLOCK_NUM);
    }

    /** Forgets everything and starts at `version`. */
    method ResetAll(version: nat)
      requires slots.Length > 0 && version < VERSION_LIMIT
      modifies this, slots
      ensures Valid() && State() == History(version, version, map[])
    {
      lower, next := 0, 0;
      forall i | 0 <= i < slots.Length {
        slots[i] := None;
      }
      lower, next := version, version;
    }

    lemma SlotShift(v: int)
      requires slots.Length > 0
      ensures Slot(v) == Slot(v + slots.Length)
    {
      SameRemainder(v, slots.Length);
    }

    /** Clears the versions after `version`. */
    method ClearAfter(version: nat)
      requires Valid() && version + 1 < next && next - 1 - version <= slots.Length
      modifies `lower, slots
      ensures Valid() && Live() == UpTo(old(Live()), version) && old(lower) <= lower
      ensures forall v: nat | version < v < next :: Slot(v) == None
      ensures forall v | old(lower) <= v < lower :: v !in Live()
    {
      hide SlotOf, Advance, Slot;
      for i := version + 1 to next
        invariant Valid() && old(lower) <= lower
        invariant Live() == map v | v in old(Live()) && !(version < v < i) :: old(Live())[v]
        invariant forall v | old(lower) <= v < lower :: v !in Live()
      {
        Assign(i, None);
      }
      assert Live() == UpTo(old(Live()), version);
      forall v: nat | version < v < next ensures Slot(v) == None {
        assert v !in Live();
      }
    }

    method RewindToVersion(version: nat)
      requires Valid() && version + 1 < next && next - 1 - version <= slots.Length
      modifies this, slots
      ensures Valid() && State() == Rewound(old(State()), version)
    {
      hide SlotOf, Advance, Slot;
      ClearAfter(version);
      ghost var high, live, next0 := lower, Live(), next;
      if version < lower {
        lower := version;
      }
      next := version + 1;
      forall v: int | next - slots.Length <= v < next && (v < next0 - slots.Length || v < lower) ensures Slot(v) == None {
        if v < next0 - slots.Length {
          SlotShift(v);
        }
      }
      assert Live() == live;
      AdvanceSkip(live, if version < old(lower) then version else old(lower), lower, next);
      UpdateLowerBound(INVALID_BLOCK_NUM);
    }
  }

  datatype Op = Push(o: Option<Offset>) | Assign(i: nat, o: Option<Offset>) | ResetAll(version: nat) | Rewind(to: nat)

  /** What the ring demands of its caller. */
  predicate Enabled(h: History, cap: nat, op: Op) {
    match op
    case Push(_) => h.next - h.lower < cap && h.next + 1 < VERSION_LIMIT
    case Assign(i, _) => h.next - cap <= i < h.next
    case ResetAll(version) => version < VERSION_LIMIT
    case Rewind(to) => to + 1 < h.next && h.next - 1 - to <= cap
  }

  function After(h: History, op: Op): History {
    match op
    case Push(o) => Pushed(h, o)
    case Assign(i, o) => Assigned(h, i, o)
    case ResetAll(version) => History(version, version, map[])
    case Rewind(to) => Rewound(h, to)
  }

  predicate IsFirst(v: nat, live: map<nat, Offset>) {
    v in live && forall w | w in live :: v <= w
  }

  /** Where the lower bound is after an operation: at the first live version, and with none left at the last version,
      except that a reset or a version without an offset leaves it where it was put. */
  lemma LowerBoundAfter(h: History, cap: nat, op: Op)
    requires Bounded(h, cap) && Enabled(h, cap, op)
    ensures var r := After(h, op);
      match op
      case ResetAll(version) => r.lower == r.next == version
      case Push(None) => r.lower == h.lower
      case Push(_) => IsFirst(r.lower, r.live)
      case Rewind(to) => if r.live != map[] then IsFirst(r.lower, r.live) else r.lower == to
      case Assign(_, _) =>
        if r.live != map[] then IsFirst(r.lower, r.live) else r.lower == if h.lower < h.next then h.next - 1 else h.next
  {
    hide Advance;
    match op {
      case ResetAll(_) =>
      case Push(None) =>
      case Push(Some(o)) => FirstFrom(h.live[h.next := o], h.lower, h.next + 1);
      case Rewind(to) => FirstFrom(UpTo(h.live, to), if to < h.lower then to else h.lower, to + 1);
      case Assign(i, Some(o)) =>
        FirstFrom(h.live[i := o], if i < h.lower then i else h.lower, h.next);
        assert i in h.live[i := o];
      case Assign(i, None) => ErasedLower(h, cap, i);
    }
  }

  lemma ErasedLower(h: History, cap: nat, i: nat)
    requires Bounded(h, cap) && h.next - cap <= i < h.next
    ensures var r := Assigned(h, i, None);
      if r.live != map[] then IsFirst(r.lower, r.live) else r.lower == if h.lower < h.next then h.next - 1 else h.next
  {
    hide Advance;
    var live := h.live - {i};
    if h.lower < h.next {
      FirstFrom(live, h.lower, h.next);
    } else {
      assert live.Keys == {};
    }
  }

  lemma FirstFrom(live: map<nat, Offset>, from: nat, next: nat)
    requires from < next && forall v | v in live :: from <= v < next
    ensures var r := Advance(live, from, next); if live != map[] then IsFirst(r, live) else r == next - 1
  {
    hide Advance;
    if live != map[] {
      var v :| v in live;
    }
  }

  function Run(h: History, ops: seq<Op>): History {
    if ops == [] then h else After(Run(h, ops[..|ops| - 1]), ops[|ops| - 1])
  }

  predicate RunEnabled(h: History, cap: nat, ops: seq<Op>) {
    ops != [] ==> RunEnabled(h, cap, ops[..|ops| - 1]) && Enabled(Run(h, ops[..|ops| - 1]), cap, ops[|ops| - 1])
  }

  /** A plain map from versions to offsets, without slots and bounds. */
  datatype Plain = Plain(next: nat, live: map<nat, Offset>)

  function PlainAfter(p: Plain, op: Op): Plain {
    match op
    case Push(o) => Plain(p.next + 1, if o.Some? then p.live[p.next := o.value] else p.live)
    case Assign(i, o) => p.(live := if o.Some? then p.live[i := o.value] else p.live - {i})
    case ResetAll(version) => Plain(version, map[])
    case Rewind(to) => Plain(to + 1, UpTo(p.live, to))
  }

  function PlainRun(p: Plain, ops: seq<Op>): Plain {
    if ops == [] then p else PlainAfter(PlainRun(p, ops[..|ops| - 1]), ops[|ops| - 1])
  }

  /** Whatever is done to it, the ring holds what the plain map holds. */
  method Replay(r: Ring, ops: seq<Op>)
    requires r.Valid() && RunEnabled(r.State(), r.slots.Length, ops)
    modifies r, r.slots
    ensures r.Valid() && r.State() == Run(old(r.State()), ops)
    ensures Plain(r.next, r.Live()) == PlainRun(old(Plain(r.next, r.Live())), ops)
  {
    hide Ring.Valid, Ring.Live, Pushed, Assigned, Rewound;
    r.StateIsBounded();
    assert ops[..0] == [];
    for n := 0 to |ops|
      invariant r.Valid() && r.slots.Length > 0 && r.State() == Run(old(r.State()), ops[..n])
      invariant RunEnabled(old(r.State()), r.slots.Length, ops[..n])
    {
      assert ops[..n + 1][..n] == ops[..n];
      RunPrefix(old(r.State()), r.slots.Length, ops, n + 1);
      match ops[n] {
        case Push(o) => r.Push(o);
        case Assign(i, o) => r.Assign(i, o);
        case ResetAll(version) => r.ResetAll(version);
        case Rewind(to) => r.RewindToVersion(to);
      }
    }
    assert ops[..|ops|] == ops;
    PlainAgrees(old(r.State()), ops);
  }

  lemma {:induction false} RunPrefix(h: History, cap: nat, ops: seq<Op>, n: nat)
    requires n <= |ops| && RunEnabled(h, cap, ops)
    ensures RunEnabled(h, cap, ops[..n])
    decreases |ops|
  {
    if n == |ops| {
      assert ops[..n] == ops;
    } else {
      var m := |ops| - 1;
      RunPrefix(h, cap, ops[..m], n);
      assert ops[..m][..n] == ops[..n];
    }
  }

  lemma {:induction false} PlainAgrees(h: History, ops: seq<Op>)
    ensures Plain(Run(h, ops).next, Run(h, ops).live) == PlainRun(Plain(h.next, h.live), ops)
  {
    hide Advance;
    if ops != [] {
      PlainAgrees(h, ops[..|ops| - 1]);
    }
  }

  /** The live versions never leave the bounds, so no slot ever holds two of them. */
  lemma {:induction false} AlwaysBounded(h: History, cap: nat, ops: seq<Op>)
    requires cap > 0 && Bounded(h, cap) && RunEnabled(h, cap, ops)
    ensures Bounded(Run(h, ops), cap)
  {
    if ops != [] {
      AlwaysBounded(h, cap, ops[..|ops| - 1]);
    }
  }
}
