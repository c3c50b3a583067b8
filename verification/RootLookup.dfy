/** Looking a root up while the writer moves on: every interleaving of the reader's loads with the writer's stores. */
module RootLookup {
  import opened Trie
  import opened TrieHeap
  import opened RootOffsets

  /** The reader of version `v`, by the loads it has made. The first and third look at the next version. */
  datatype Reader =
    | Starting(v: nat)
    | SawMax(v: nat, max: nat)
    | SawSlot(v: nat, max: nat, slot: Option<Offset>)
    | SawMaxAgain(v: nat, max: nat, slot: Option<Offset>, again: nat)
    | Finished(v: nat, max: nat, result: Option<Offset>)

  /** `pending`: the slot of the next version is written, its number is not published yet. */
  datatype System = System(slots: seq<Option<Offset>>, lower: nat, next: nat, pending: bool,
                           given: set<(nat, Offset)>, reader: Reader)

  datatype Action =
    | StoreSlot(o: Option<Offset>)
    | StoreNext
    | StoreLower(l: nat)
    | Overwrite(i: nat, o: Option<Offset>)
    | LoadMax
    | LoadSlot
    | LoadMaxAgain
    | LoadLower

  function Max(s: System): nat {
    if s.next == 0 then INVALID_BLOCK_NUM else s.next - 1
  }

  function SlotAt(s: System, v: int): Option<Offset>
    requires s.slots != []
  {
    s.slots[SlotOf(v, |s.slots|)]
  }

  function Given(s: System, v: nat, o: Option<Offset>): set<(nat, Offset)> {
    if o.Some? then s.given + {(v, o.value)} else s.given
  }

  /** The writer raises the lower bound before it reuses a slot, and never lowers it. */
  predicate CanDo(s: System, a: Action) {
    s.slots != [] && s.next < INVALID_BLOCK_NUM &&
    match a
    case StoreSlot(_) => !s.pending && s.next < s.lower + |s.slots|
    case StoreNext => s.pending
    case StoreLower(l) => s.lower < l < s.next
    case Overwrite(i, _) => s.lower <= i < s.next
    case LoadMax => s.reader.Starting?
    case LoadSlot => s.reader.SawMax?
    case LoadMaxAgain => s.reader.SawSlot?
    case LoadLower => s.reader.SawMaxAgain?
  }

  function Do(s: System, a: Action): System
    requires CanDo(s, a)
  {
    var r := s.reader;
    match a
    case StoreSlot(o) =>
      s.(slots := s.slots[SlotOf(s.next, |s.slots|) := o], pending := true, given := Given(s, s.next, o))
    case StoreNext => s.(next := s.next + 1, pending := false)
    case StoreLower(l) => s.(lower := l)
    case Overwrite(i, o) => s.(slots := s.slots[SlotOf(i, |s.slots|) := o], given := Given(s, i, o))
    case LoadMax => s.(reader := if r.v <= Max(s) then SawMax(r.v, Max(s)) else Finished(r.v, Max(s), None))
    case LoadSlot => s.(reader := SawSlot(r.v, r.max, SlotAt(s, r.v)))
    case LoadMaxAgain => s.(reader := SawMaxAgain(r.v, r.max, r.slot, Max(s)))
    case LoadLower =>
      var bound := if r.again == INVALID_BLOCK_NUM then INVALID_BLOCK_NUM else s.lower;
      s.(reader := Finished(r.v, r.max, if r.v >= bound then r.slot else None))
  }

  predicate IsRun(run: seq<System>, actions: seq<Action>) {
    && |run| == |actions| + 1
    && forall k | 0 <= k < |actions| :: IsStep(run, actions, k)
  }

  predicate IsStep(run: seq<System>, actions: seq<Action>, k: nat)
    requires k < |actions| && |run| == |actions| + 1
  {
    CanDo(run[k], actions[k]) && run[k + 1] == Do(run[k], actions[k])
  }

  /** The versions whose slots are theirs alone: `cap` of them, the pending one included. */
  function Top(s: System): nat {
    if s.pending then s.next + 1 else s.next
  }

  ghost predicate Inv(s: System) {
    && s.slots != [] && s.lower <= s.next && Top(s) <= s.lower + |s.slots|
    && (forall w: int | Top(s) - |s.slots| <= w < Top(s) :: Owned(s, w))
    && ReaderInv(s)
  }

  ghost predicate Owned(s: System, w: int)
    requires s.slots != []
  {
    SlotAt(s, w).Some? ==> w >= 0 && (w as nat, SlotAt(s, w).value) in s.given
  }

  /** What the reader holds was given to its version, or the lower bound has passed that version. */
  predicate Trusted(s: System, v: nat, max: nat, o: Option<Offset>) {
    o.Some? ==> (max == INVALID_BLOCK_NUM && v >= |s.slots|) || (v, o.value) in s.given || v < s.lower
  }

  ghost predicate ReaderInv(s: System) {
    match s.reader
    case Starting(_) => true
    case SawMax(v, max) => v <= max && (max == INVALID_BLOCK_NUM || max < s.next)
    case SawSlot(v, max, o) => Trusted(s, v, max, o)
    case SawMaxAgain(v, max, o, again) => Trusted(s, v, max, o) && (again == INVALID_BLOCK_NUM || again < s.next)
    case Finished(v, max, o) => o.Some? ==> (max == INVALID_BLOCK_NUM && v >= |s.slots|) || (v, o.value) in s.given
  }

  /** Writing the slot of `i` leaves the other versions of the window alone. */
  lemma SlotStored(s: System, s': System, i: nat, w: int)
    requires s.slots != [] && |s'.slots| == |s.slots| && s'.slots == s.slots[SlotOf(i, |s.slots|) := s'.slots[SlotOf(i, |s.slots|)]]
    requires w != i && w < i + |s.slots| && i < w + |s.slots|
    ensures SlotAt(s', w) == SlotAt(s, w)
  {
    if w < i { SameSlot(w, i, |s.slots|); } else { SameSlot(i, w, |s.slots|); }
  }

  lemma WriterKeepsWindow(s: System, a: Action)
    requires Inv(s) && CanDo(s, a) && (a.StoreSlot? || a.Overwrite?)
    ensures var s' := Do(s, a); forall w: int | Top(s') - |s'.slots| <= w < Top(s') :: Owned(s', w)
  {
    hide SlotOf;
    var s' := Do(s, a);
    var i := if a.StoreSlot? then s.next else a.i;
    forall w: int | Top(s') - |s'.slots| <= w < Top(s') ensures Owned(s', w) {
      if w != i {
        SlotStored(s, s', i, w);
        assert Owned(s, w);
      }
    }
  }

  /** What the reader gets from the slot can be trusted. */
  lemma SlotLoaded(s: System, v: nat, max: nat)
    requires Inv(s) && v <= max && (max == INVALID_BLOCK_NUM || max < s.next)
    ensures Trusted(s, v, max, SlotAt(s, v))
  {
    hide SlotOf;
    if Top(s) - |s.slots| <= v < Top(s) {
      assert Owned(s, v);
    } else if v >= Top(s) && v < |s.slots| {
      SameRemainder(v - |s.slots|, |s.slots|);
      assert Owned(s, v - |s.slots|);
    }
  }

  lemma InvKept(s: System, a: Action)
    requires Inv(s) && CanDo(s, a)
    ensures Inv(Do(s, a))
  {
    hide SlotOf;
    var s' := Do(s, a);
    match a {
      case StoreSlot(_) => WriterKeepsWindow(s, a);
      case Overwrite(_, _) => WriterKeepsWindow(s, a);
      case LoadSlot => SlotLoaded(s, s.reader.v, s.reader.max);
      case _ =>
    }
    if !a.StoreSlot? && !a.Overwrite? {
      forall w: int | Top(s') - |s'.slots| <= w < Top(s') ensures Owned(s', w) {
        assert Owned(s, w);
      }
    }
  }

  lemma {:induction false} InvOverRun(run: seq<System>, actions: seq<Action>, k: nat)
    requires IsRun(run, actions) && k < |run| && Inv(run[0])
    ensures Inv(run[k]) && |run[k].slots| == |run[0].slots|
  {
    if k > 0 {
      InvOverRun(run, actions, k - 1);
      assert IsStep(run, actions, k - 1);
      InvKept(run[k - 1], actions[k - 1]);
    }
  }

  /** In every interleaving a reader that found the database in use, or asks for a version below the
      capacity, gets nothing or an offset that was given to its own version. */
  lemma LookupIsSafe(run: seq<System>, actions: seq<Action>, k: nat)
    requires IsRun(run, actions) && k < |run| && Inv(run[0])
    requires run[k].reader.Finished? && run[k].reader.result.Some?
    requires run[k].reader.max != INVALID_BLOCK_NUM || run[k].reader.v < |run[k].slots|
    ensures (run[k].reader.v, run[k].reader.result.value) in run[k].given
  {
    InvOverRun(run, actions, k);
  }

  /** The version can be looked up: it is published, above the lower bound, and has an offset. */
  predicate Live(s: System, v: nat) {
    s.slots != [] && s.lower <= v < s.next && SlotAt(s, v).Some?
  }

  /** How far a reader of `v` has come while `v` was live: what it holds stood in the slot of `v`. */
  ghost predicate Finds(run: seq<System>, k: nat, v: nat)
    requires k < |run|
  {
    match run[k].reader
    case Starting(w) => w == v
    case SawMax(w, _) => w == v
    case SawSlot(w, _, o) => w == v && StoodThere(run, k, v, o)
    case SawMaxAgain(w, _, o, again) => w == v && again != INVALID_BLOCK_NUM && StoodThere(run, k, v, o)
    case Finished(w, _, o) => w == v && StoodThere(run, k, v, o)
  }

  ghost predicate StoodThere(run: seq<System>, k: nat, v: nat, o: Option<Offset>)
    requires k < |run|
  {
    o.Some? && exists j | 0 <= j <= k :: run[j].slots != [] && SlotAt(run[j], v) == o
  }

  lemma {:induction false} FindsOverRun(run: seq<System>, actions: seq<Action>, k: nat, v: nat)
    requires IsRun(run, actions) && k < |run| && run[0].reader == Starting(v)
    requires forall j | 0 <= j <= k :: Live(run[j], v)
    ensures Finds(run, k, v)
  {
    hide SlotOf;
    if k > 0 {
      FindsOverRun(run, actions, k - 1, v);
      assert IsStep(run, actions, k - 1) && Live(run[k - 1], v);
    }
  }

  /** A lookup during which the version stays live finds an offset that stood in its slot meanwhile. */
  lemma LookupFinds(run: seq<System>, actions: seq<Action>, k: nat, v: nat)
    requires IsRun(run, actions) && k < |run| && run[0].reader == Starting(v)
    requires forall j | 0 <= j <= k :: Live(run[j], v)
    requires run[k].reader.Finished?
    ensures StoodThere(run, k, v, run[k].reader.result)
  {
    hide SlotOf;
    FindsOverRun(run, actions, k, v);
  }

  /** Nothing else the writer does takes the slot of a live version away. */
  lemma StaysLive(s: System, a: Action, v: nat)
    requires Inv(s) && CanDo(s, a) && Live(s, v) && Spares(a, v)
    ensures Live(Do(s, a), v) && SlotAt(Do(s, a), v) == SlotAt(s, v)
  {
    hide SlotOf;
    if a.StoreSlot? || a.Overwrite? {
      SlotStored(s, Do(s, a), if a.StoreSlot? then s.next else a.i, v);
    }
  }

  /** Leaves `v` where it is. */
  predicate Spares(a: Action, v: nat) {
    !(a.Overwrite? && a.i == v) && !(a.StoreLower? && a.l > v)
  }

  lemma {:induction false} LiveOverRun(run: seq<System>, actions: seq<Action>, k: nat, v: nat)
    requires IsRun(run, actions) && k < |run| && Inv(run[0]) && Live(run[0], v)
    requires forall j | 0 <= j < |actions| :: Spares(actions[j], v)
    ensures forall j | 0 <= j <= k :: Live(run[j], v) && SlotAt(run[j], v) == SlotAt(run[0], v)
  {
    hide SlotOf;
    if k > 0 {
      LiveOverRun(run, actions, k - 1, v);
      InvOverRun(run, actions, k - 1);
      assert IsStep(run, actions, k - 1) && Spares(actions[k - 1], v);
      StaysLive(run[k - 1], actions[k - 1], v);
    }
  }

  /** In every interleaving a reader finds the offset of a version that was live when it started, unless the writer
      overwrites that version or raises the lower bound above it. */
  lemma LookupIsComplete(run: seq<System>, actions: seq<Action>, k: nat, v: nat)
    requires IsRun(run, actions) && k < |run| && Inv(run[0]) && run[0].reader == Starting(v) && Live(run[0], v)
    requires forall j | 0 <= j < |actions| :: Spares(actions[j], v)
    requires run[k].reader.Finished?
    ensures run[k].reader.result == SlotAt(run[0], v)
  {
    hide SlotOf;
    LiveOverRun(run, actions, k, v);
    LookupFinds(run, actions, k, v);
  }

  /** Not there to be found: below the lower bound, or not published while the database is in use, or the database empty. */
  predicate Away(s: System, v: nat, inUse: bool) {
    v < s.lower || (if inUse then 0 < s.next <= v else s.next == 0)
  }

  ghost predicate FindsNothing(run: seq<System>, k: nat, v: nat, inUse: bool)
    requires k < |run|
  {
    match run[k].reader
    case Starting(w) => w == v
    case SawMax(w, max) => w == v && (v < run[k].lower || (!inUse && max == INVALID_BLOCK_NUM))
    case SawSlot(w, max, _) => w == v && (v < run[k].lower || (!inUse && max == INVALID_BLOCK_NUM))
    case SawMaxAgain(w, _, _, again) => w == v && (v < run[k].lower || again == INVALID_BLOCK_NUM)
    case Finished(w, _, o) => w == v && o == None
  }

  lemma {:induction false} AwayOverRun(run: seq<System>, actions: seq<Action>, k: nat, v: nat, inUse: bool)
    requires IsRun(run, actions) && k < |run| && run[0].reader == Starting(v) && v < INVALID_BLOCK_NUM
    requires forall j | 0 <= j <= k :: Away(run[j], v, inUse)
    ensures FindsNothing(run, k, v, inUse)
  {
    hide SlotOf;
    if k > 0 {
      AwayOverRun(run, actions, k - 1, v, inUse);
      assert IsStep(run, actions, k - 1) && Away(run[k - 1], v, inUse) && Away(run[k], v, inUse);
    }
  }

  /** A lookup of a version that stays below the lower bound or unpublished finds nothing, whatever its slot holds. */
  lemma LookupMisses(run: seq<System>, actions: seq<Action>, k: nat, v: nat, inUse: bool)
    requires IsRun(run, actions) && k < |run| && run[0].reader == Starting(v) && v < INVALID_BLOCK_NUM
    requires forall j | 0 <= j <= k :: Away(run[j], v, inUse)
    requires run[k].reader.Finished?
    ensures run[k].reader.result == None
  {
    AwayOverRun(run, actions, k, v, inUse);
  }

  /** A reader that is not done can always go on, and four loads end the lookup. */
  function Rounds(r: Reader): nat {
    match r
    case Starting(_) => 4
    case SawMax(_, _) => 3
    case SawSlot(_, _, _) => 2
    case SawMaxAgain(_, _, _, _) => 1
    case Finished(_, _, _) => 0
  }

  lemma FourLoads(s: System, a: Action)
    requires s.slots != [] && s.next < INVALID_BLOCK_NUM
    ensures !s.reader.Finished? ==> exists b: Action :: CanDo(s, b) && Rounds(Do(s, b).reader) < Rounds(s.reader)
    ensures CanDo(s, a) ==> Rounds(Do(s, a).reader) <= Rounds(s.reader)
    ensures CanDo(s, a) && a in {LoadMax, LoadSlot, LoadMaxAgain, LoadLower} ==> Rounds(Do(s, a).reader) < Rounds(s.reader)
  {
    hide SlotOf;
    if !s.reader.Finished? {
      var b := match s.reader
        case Starting(_) => LoadMax
        case SawMax(_, _) => LoadSlot
        case SawSlot(_, _, _) => LoadMaxAgain
        case _ => LoadLower;
      assert CanDo(s, b) && Rounds(Do(s, b).reader) < Rounds(s.reader);
    }
  }

  /** A ring nobody has written to, and a reader about to ask for `v`. */
  function Fresh(cap: nat, v: nat): System {
    System(seq(cap, _ => None), 0, 0, false, {}, Starting(v))
  }

  /** The writer gives versions 0 .. n - 1 the offset 7, after the reader saw an empty database. */
  function FirstWrites(cap: nat, v: nat, n: nat): System
    requires n <= cap
  {
    System(seq(cap, i requires 0 <= i < cap => if i < n then Some(7) else None), 0, n, false,
           set i | 0 <= i < n :: (i, 7), SawMax(v, INVALID_BLOCK_NUM))
  }

  lemma {:induction false} WritesGoOn(cap: nat, v: nat, n: nat) returns (run: seq<System>, actions: seq<Action>)
    requires 0 < n <= cap < INVALID_BLOCK_NUM && v <= INVALID_BLOCK_NUM
    ensures IsRun(run, actions) && run[0] == Fresh(cap, v) && run[|run| - 1] == FirstWrites(cap, v, n)
    decreases n
  {
    var before: seq<System>, done: seq<Action>;
    var last: System;
    if n == 1 {
      before, done := [Fresh(cap, v), Do(Fresh(cap, v), LoadMax)], [LoadMax];
    } else {
      before, done := WritesGoOn(cap, v, n - 1);
    }
    last := before[|before| - 1];
    assert last == FirstWrites(cap, v, n - 1);
    var a, b := StoreSlot(Some(7)), StoreNext;
    SmallSlot(n - 1, cap);
    var next := Do(Do(last, a), b);
    assert next.slots == FirstWrites(cap, v, n).slots;
    assert next.given == FirstWrites(cap, v, n).given;
    run, actions := before + [Do(last, a), next], done + [a, b];
    forall k | 0 <= k < |actions| ensures IsStep(run, actions, k) {
      if k < |done| {
        assert IsStep(before, done, k);
      }
    }
  }

  lemma SmallSlot(v: nat, cap: nat)
    requires v < cap
    ensures SlotOf(v, cap) == v
  {
    UniqueRemainder(v, cap, 0, v);
  }

  /** Otherwise it can get an offset of another version: for every version not below the capacity some run does. */
  lemma LookupCanBeWrong(cap: nat, v: nat) returns (run: seq<System>, actions: seq<Action>)
    requires 0 < cap <= v <= INVALID_BLOCK_NUM && cap < INVALID_BLOCK_NUM
    ensures IsRun(run, actions) && Inv(run[0])
    ensures var s := run[|run| - 1]; s.reader == Finished(v, INVALID_BLOCK_NUM, Some(7)) && (v, 7) !in s.given
  {
    hide SlotOf;
    var n := SlotOf(v, cap) + 1;
    var before, done := WritesGoOn(cap, v, n);
    var s0 := FirstWrites(cap, v, n);
    var s1 := Do(s0, LoadSlot);
    var s2 := Do(s1, LoadMaxAgain);
    var s3 := Do(s2, LoadLower);
    run, actions := before + [s1, s2, s3], done + [LoadSlot, LoadMaxAgain, LoadLower];
    forall k | 0 <= k < |actions| ensures IsStep(run, actions, k) {
      if k < |done| {
        assert IsStep(before, done, k);
      }
    }
    assert SlotAt(s0, v) == Some(7);
    assert (v, 7) !in s3.given;
  }
}
