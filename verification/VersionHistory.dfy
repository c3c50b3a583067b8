/** The two metadata copies, each with its ring of root offsets, and the operations that keep the history
    of versions within its length. */
module VersionHistory {
  import opened Trie
  import opened TrieHeap
  import opened RootOffsets

  function MaxVersion(h: History): nat {
    if h.next == 0 then INVALID_BLOCK_NUM else h.next - 1
  }

  function Above(live: map<nat, Offset>, version: int): map<nat, Offset> {
    map v | v in live && v > version :: live[v]
  }

  const EMPTY: History := History(0, 0, map[])

  /** Some version has been pushed since the last reset, and the lower bound is live or the last version. */
  predicate Settled(h: History) {
    h.next == 0 || (h.lower < h.next && (h.lower in h.live || h.lower == h.next - 1))
  }

  /** The last version was cleared and no other is live. */
  predicate Emptied(h: History, i: nat, o: Option<Offset>) {
    o.None? && i == MaxVersion(h) && i == Advance(h.live, h.lower, h.next)
  }

  function Updated(h: History, i: nat, o: Option<Offset>): History {
    var h' := Assigned(h, i, o);
    if Emptied(h', i, o) then EMPTY else h'
  }

  predicate Lags(h: History, c: History) {
    h == EMPTY && c == History(c.lower, c.lower + 1, map[])
  }

  /** What is left after erasing every version up to and including `version`. */
  function Cleared(h: History, version: nat): History {
    if h.next == 0 || version < h.lower then h
    else if version >= h.next - 1 then EMPTY
    else var live := Above(h.live, version); History(Advance(live, h.lower, h.next), h.next, live)
  }

  function ClearedCopy(h: History, version: nat): History {
    if h.next > 0 && version >= h.lower && version >= h.next - 1 then History(h.next - 1, h.next, map[])
    else Cleared(h, version)
  }

  function FastForwarded(h: History, cap: nat, version: nat): History {
    if h.next == 0 || version >= h.next - 1 + cap then History(version, version, map[]) else h.(next := version)
  }

  lemma {:induction false} AdvanceIs(live: map<nat, Offset>, from: nat, next: nat, r: nat)
    requires from <= r < next && (r in live || r == next - 1) && forall v | from <= v < r :: v !in live
    ensures Advance(live, from, next) == r
    decreases r - from
  {
    if from < r {
      AdvanceIs(live, from + 1, next, r);
    }
  }

  method FastForwardRing(r: Ring, version: nat) returns (ok: bool)
    requires r.Valid() && version < INVALID_BLOCK_NUM
    requires r.next > 0 && version < r.next - 1 + r.slots.Length ==> version <= r.lower + r.slots.Length
    modifies r, r.slots
    ensures ok <==> old(r.next) == 0 || version > old(r.next) - 1
    ensures if ok then r.Valid() && r.State() == FastForwarded(old(r.State()), r.slots.Length, version)
            else r.Valid() && r.State() == old(r.State())
  {
    hide Ring.Valid, Ring.Live, Ring.Slot, Advance;
    r.StateIsBounded();
    if r.next != 0 && version <= r.next - 1 {
      return false;
    }
    if r.next == 0 || version - (r.next - 1) >= r.slots.Length {
      r.ResetAll(version);
    } else {
      while r.next < version
        invariant r.Valid() && r.next <= version <= r.lower + r.slots.Length && r.State() == old(r.State()).(next := r.next)
      {
        r.Push(None);
      }
    }
    ok := true;
  }

  class Metadata {
    const main: Ring
    const copy: Ring
    var historyLength: nat

    ghost predicate Valid()
      reads this, main, copy, main.slots, copy.slots
    {
      && main.Valid() && copy.Valid() && main != copy && main.slots != copy.slots
      && main.slots.Length == copy.slots.Length && 1 < historyLength <= main.slots.Length
      && Settled(main.State()) && main.next <= main.lower + historyLength
    }

    ghost predicate Synced()
      requires main.slots.Length > 0 && copy.slots.Length > 0
      reads main, copy, main.slots, copy.slots
    {
      main.State() == copy.State()
    }

    /** The copies agree, or the first is empty and the second still counts the last version cleared. */
    ghost predicate Paired()
      requires main.slots.Length > 0 && copy.slots.Length > 0
      reads main, copy, main.slots, copy.slots
    {
      Synced() || Lags(main.State(), copy.State())
    }

    constructor (capacity: nat, historyLength: nat)
      requires 1 < historyLength <= capacity
      ensures Valid() && Synced() && main.State() == EMPTY && this.historyLength == historyLength
      ensures fresh(main) && fresh(copy) && fresh(main.slots) && fresh(copy.slots)
    {
      main := new Ring(capacity);
      copy := new Ring(capacity);
      this.historyLength := historyLength;
    }

    /** The smallest version a reader may ask for. */
    method RangeLowerBound() returns (v: nat)
      requires Valid()
      ensures v == if main.next == 0 then INVALID_BLOCK_NUM else main.lower
      ensures main.next > 0 ==> v + historyLength >= main.next
    {
      var maxVersion := main.MaxVersion();
      if maxVersion == INVALID_BLOCK_NUM {
        return INVALID_BLOCK_NUM;
      }
      var rangeMin := if maxVersion >= historyLength then maxVersion - historyLength + 1 else 0;
      assert main.lower >= rangeMin;
      v := main.lower;
    }

    /** A version has a root exactly when it is live. */
    method GetRootOffsetAtVersion(version: nat) returns (o: Option<Offset>)
      requires Valid() && version < VERSION_LIMIT
      ensures o == if version in main.Live() then Some(main.Live()[version]) else None
    {
      hide SlotOf;
      var maxVersion := main.MaxVersion();
      if version <= maxVersion {
        var offset := main.Slot(version);
        var bound := RangeLowerBound();
        if version >= bound {
          if main.next == 0 {
            main.AllEmpty(version);
          }
          return offset;
        }
      }
      o := None;
    }

    method MinValidVersion() returns (v: nat)
      requires main.Valid() && main.lower < main.next
      ensures v == Advance(main.Live(), main.lower, main.next)
    {
      hide SlotOf;
      v := main.lower;
      while v != main.next - 1
        invariant main.lower <= v < main.next
        invariant Advance(main.Live(), v, main.next) == Advance(main.Live(), main.lower, main.next)
        decreases main.next - v
      {
        if main.Slot(v) != None {
          break;
        }
        v := v + 1;
      }
    }

    method AppendRootOffset(o: Option<Offset>)
      requires main.Valid() && copy.Valid() && main != copy && main.slots != copy.slots
      requires main.next - main.lower < main.slots.Length && copy.next - copy.lower < copy.slots.Length
      requires main.next + 1 < VERSION_LIMIT && copy.next + 1 < VERSION_LIMIT
      modifies main, copy, main.slots, copy.slots
      ensures main.Valid() && main.State() == Pushed(old(main.State()), o)
      ensures copy.Valid() && copy.State() == Pushed(old(copy.State()), o)
    {
      hide Ring.Slot, Pushed, SlotOf;
      main.Push(o);
      copy.Push(o);
    }

    /** Sets or clears one version in both copies; clearing the only one left empties the first copy alone. */
    method UpdateRootOffset(i: nat, o: Option<Offset>)
      requires Valid() && Synced() && main.next - main.slots.Length <= i < main.next
      requires o.Some? ==> main.next <= i + historyLength
      modifies main, copy, main.slots, copy.slots
      ensures Valid() && copy.Valid()
      ensures main.State() == Updated(old(main.State()), i, o)
      ensures copy.State() == Assigned(old(copy.State()), i, o)
    {
      hide Ring.Slot, SlotOf, Advance, Ring.Live, Ring.Valid;
      AssignedLower(main.State(), i, o);
      UpdateOne(main, i, o);
      UpdateOne(copy, i, o);
    }

    /** One copy. Whether to empty it is decided by looking at the first copy. */
    method UpdateOne(r: Ring, i: nat, o: Option<Offset>)
      requires r == main || r == copy
      requires main.Valid() && copy.Valid() && main != copy && main.slots != copy.slots
      requires r.next - r.slots.Length <= i < r.next && r.lower < r.next && (main.next == 0 || main.lower < main.next)
      modifies r, r.slots
      ensures r.Valid()
      ensures var s := Assigned(old(r.State()), i, o);
              r.State() == if Emptied(if r == main then s else main.State(), i, o) then EMPTY else s
    {
      hide Ring.Slot, SlotOf, Advance, Ring.Live, Ring.Valid;
      r.StateIsBounded();
      AssignedLower(r.State(), i, o);
      r.Assign(i, o);
      if o == None && i == main.MaxVersion() {
        var min := MinValidVersion();
        if i == min {
          r.ResetAll(0);
        }
      }
    }

    /** Erases every version up to and including `version`. */
    method ClearUpTo(version: nat)
      requires Valid() && Paired() && version < INVALID_BLOCK_NUM
      modifies main, copy, main.slots, copy.slots
      ensures Valid() && Paired()
      ensures main.State() == Cleared(old(main.State()), version)
      ensures copy.next == old(copy.next)
    {
      hide Ring.Slot, SlotOf, Advance, Ring.Live, Ring.Valid, Assigned, Above, Cleared, ClearedCopy, Updated;
      ghost var h := main.State();
      main.StateIsBounded();
      ClearingStarts(h, version);
      var v := RangeLowerBound();
      while v != INVALID_BLOCK_NUM && v <= version
        invariant Valid() && main.slots.Length > 0 && copy.slots.Length > 0
        invariant v == if main.next == 0 then INVALID_BLOCK_NUM else main.lower
        invariant Clearing(h, main.State(), version)
        invariant copy.State() == if main.State() == h then old(copy.State()) else if main.State() == EMPTY then ClearedCopy(h, version) else main.State()
        decreases INVALID_BLOCK_NUM - v
      {
        main.StateIsBounded();
        ClearOne(h, main.State(), version);
        UpdateRootOffset(v, None);
        v := RangeLowerBound();
      }
      main.StateIsBounded();
      ClearingEnds(h, main.State(), version);
    }

    /** Leaves out the versions before `version`. It gives up where a copy has reached `version` already. */
    method FastForwardNextVersion(version: nat) returns (ok: bool)
      requires main.Valid() && copy.Valid() && main != copy && main.slots != copy.slots && version < INVALID_BLOCK_NUM
      requires main.next > 0 && version < main.next - 1 + main.slots.Length ==> version <= main.lower + main.slots.Length
      requires copy.next > 0 && version < copy.next - 1 + copy.slots.Length ==> version <= copy.lower + copy.slots.Length
      modifies main, copy, main.slots, copy.slots
      ensures ok <==> old(main.next) <= version && old(copy.next) <= version
      ensures ok ==> main.Valid() && main.State() == FastForwarded(old(main.State()), main.slots.Length, version)
      ensures ok ==> copy.Valid() && copy.State() == FastForwarded(old(copy.State()), copy.slots.Length, version)
    {
      hide Ring.Valid, Ring.Live, FastForwarded;
      ok := FastForwardRing(main, version);
      if ok {
        ok := FastForwardRing(copy, version);
      }
    }

    /** Makes `version` the last one, with this root. */
    method StartAt(version: nat, o: Offset) returns (ok: bool)
      requires Valid() && Paired() && version < INVALID_BLOCK_NUM
      requires main.next > 0 ==> version < main.lower + historyLength
      modifies main, copy, main.slots, copy.slots
      ensures ok <==> old(main.next) <= version && old(copy.next) <= version
      ensures ok ==> Valid() && Synced() && main.next == version + 1
      ensures ok ==> main.Live() == old(main.Live())[version := o] && (old(main.next) > 0 ==> main.lower >= old(main.lower))
    {
      hide Ring.Slot, SlotOf, Advance, Ring.Live, Ring.Valid, FastForwarded;
      main.StateIsBounded();
      copy.StateIsBounded();
      StartsTogether(main.State(), copy.State(), main.slots.Length, version, o);
      ok := FastForwardNextVersion(version);
      if ok {
        AppendRootOffset(Some(o));
      }
    }

    /** Gives the root of version `src` to version `dest`, which becomes the last one. */
    method MoveTrieVersionForward(src: nat, dest: nat) returns (ok: bool)
      requires Valid() && Synced() && src in main.Live()
      requires src < dest < INVALID_BLOCK_NUM && main.next - 1 <= dest
      modifies main, copy, main.slots, copy.slots
      ensures ok <==> old(main.next) - 1 < dest
      ensures ok ==> Valid() && Synced() && main.next == dest + 1
      ensures ok ==> main.Live() == Above(old(main.Live()) - {src}, dest - historyLength)[dest := old(main.Live())[src]]
    {
      hide Ring.Slot, SlotOf, Advance, Ring.Live, Ring.Valid, Cleared, ClearedCopy, Updated, Assigned;
      ghost var h := main.State();
      main.StateIsBounded();
      var offset := GetRootOffsetAtVersion(src);
      UpdateRootOffset(src, None);
      ghost var h1 := main.State();
      AfterTaking(h, src);
      main.StateIsBounded();
      if dest >= historyLength {
        ClearUpTo(dest - historyLength);
      }
      main.StateIsBounded();
      AfterErasing(h1, main.State(), dest, historyLength);
      ok := StartAt(dest, offset.value);
    }

    /** The bookkeeping for a root just written: the first version, an existing one again, or the next one. */
    method RecordRoot(version: nat, o: Offset) returns (ok: bool)
      requires Valid() && Paired() && version < INVALID_BLOCK_NUM
      requires main.next > 0 ==> version <= main.next <= version + historyLength
      requires version == main.next ==> version < main.lower + historyLength
      modifies main, copy, main.slots, copy.slots
      ensures ok <==> old(main.next) > 0 || old(copy.next) <= version
      ensures ok ==> Valid() && Synced() && main.Live() == old(main.Live())[version := o]
      ensures ok ==> main.next == if old(main.next) > version then old(main.next) else version + 1
    {
      hide Ring.Slot, SlotOf, Advance, Ring.Live, Ring.Valid, Pushed;
      assert main.next > 0 ==> main.State() == copy.State() && copy.State().next == main.next;
      main.StateIsBounded();
      if main.MaxVersion() == INVALID_BLOCK_NUM || version == main.next {
        ok := StartAt(version, o);
      } else {
        ok := true;
        UpdateRootOffset(version, Some(o));
      }
    }

    /** The bookkeeping of one update of the database: erase what falls out of the history, then record the new root. */
    method UpsertVersion(version: nat, o: Offset) returns (ok: bool)
      requires Valid() && Synced() && version < INVALID_BLOCK_NUM
      requires main.next > 0 ==> version <= main.next <= version + historyLength
      modifies main, copy, main.slots, copy.slots
      ensures ok && Valid() && Synced()
      ensures main.next == if old(main.next) > version then old(main.next) else version + 1
      ensures main.Live() == Above(old(main.Live()), main.next - 1 - historyLength)[version := o]
    {
      hide Ring.Slot, SlotOf, Advance, Ring.Live, Ring.Valid, Cleared;
      main.StateIsBounded();
      ghost var h := main.State();
      if main.MaxVersion() != INVALID_BLOCK_NUM {
        var last := if version > main.next - 1 then version else main.next - 1;
        var min := MinValidVersion();
        if last - min >= historyLength {
          ClearUpTo(last - historyLength);
          AfterErasing(h, main.State(), last, historyLength);
        } else {
          NothingFallsOut(h, last, historyLength);
        }
      }
      ok := RecordRoot(version, o);
    }
  }

  /** Version 5 recorded and erased, then recorded again: the second copy still counts it. */
  method RestartCanFail() returns (ok: bool)
    ensures !ok
  {
    var m := new Metadata(4, 2);
    ok := m.RecordRoot(5, 7);
    m.ClearUpTo(5);
    ok := m.RecordRoot(5, 8);
  }

  /** The last version cannot take over from the one before it. */
  method MoveCanFail() returns (ok: bool)
    ensures !ok
  {
    var m := new Metadata(4, 2);
    ok := m.RecordRoot(5, 7);
    ok := m.RecordRoot(6, 8);
    ok := m.MoveTrieVersionForward(5, 6);
  }

  /** Both copies end up the same, also when the second lagged behind. */
  lemma StartsTogether(h: History, c: History, cap: nat, version: nat, o: Offset)
    requires h == c || Lags(h, c)
    requires cap > 0 && Bounded(h, cap) && Bounded(c, cap) && Settled(h)
    requires h.next > 0 ==> version < h.lower + cap
    ensures h.next <= version && c.next <= version ==>
      var h', c' := FastForwarded(h, cap, version), FastForwarded(c, cap, version);
      && h'.next == c'.next == version && version - h'.lower < cap && version - c'.lower < cap
      && Pushed(h', Some(o)) == Pushed(c', Some(o))
      && Pushed(h', Some(o)).live == h.live[version := o] && Settled(Pushed(h', Some(o)))
      && Pushed(h', Some(o)).next == version + 1
      && Pushed(h', Some(o)).lower >= if h.next > 0 then h.lower else version
  {
    if h.next <= version && c.next <= version && h != c {
      var h', c' := FastForwarded(h, cap, version), FastForwarded(c, cap, version);
      var live := map[version := o];
      AdvanceIs(live, h'.lower, version + 1, version);
      AdvanceIs(live, c'.lower, version + 1, version);
    }
  }

  lemma AfterTaking(h: History, src: nat)
    requires src in h.live && Settled(h) && forall v | v in h.live :: h.lower <= v < h.next
    ensures var h1, c1 := Updated(h, src, None), Assigned(h, src, None);
      && h1.live == c1.live == h.live - {src} && c1.next == h.next && h1.next in {0, h.next}
      && (h1 == c1 || (Lags(h1, c1) && c1.next == h.next && src == h.next - 1))
  {
  }

  /** Erasing what falls out of a history of `length` makes room for version `dest`. */
  lemma AfterErasing(h: History, h': History, dest: nat, length: nat)
    requires h' == if dest >= length then Cleared(h, dest - length) else h
    requires Settled(h) && (forall v | v in h.live :: h.lower <= v < h.next)
    ensures h'.next > 0 ==> h'.next == h.next && dest < h'.lower + length && h'.lower >= h.lower
    ensures h'.live == Above(h.live, dest - length)
    ensures h'.next == 0 ==> h.next == 0 || (dest >= length && h.next - 1 <= dest - length && h.lower <= dest - length)
  {
    if dest >= length && h.next > 0 && h.lower <= dest - length < h.next - 1 {
      var live := Above(h.live, dest - length);
      var from := dest - length + 1;
      if h.lower < from {
        AdvanceSkip(live, h.lower, from, h.next);
      }
    } else {
      assert h'.live == Above(h.live, dest - length);
    }
  }

  lemma NothingFallsOut(h: History, last: nat, length: nat)
    requires Settled(h) && h.next > 0 && (forall v | v in h.live :: h.lower <= v)
    requires last - Advance(h.live, h.lower, h.next) < length
    ensures h.live == Above(h.live, last - length) && last < h.lower + length
  {
  }

  /** Part of the way through erasing: what is left of `h` are the versions from the lower bound on. */
  ghost predicate Clearing(h: History, now: History, version: nat) {
    if now == EMPTY && h != EMPTY then h.next > 0 && version >= h.lower && version >= h.next - 1
    else
      && now.next == h.next && h.lower <= now.lower
      && now.live == Above(h.live, now.lower - 1)
      && (forall v | v in h.live && v < now.lower :: v <= version)
      && (now.lower == h.lower || now.lower in now.live || now.lower == h.next - 1)
      && (if h.next > 0 then now.lower < h.next else now == h)
  }

  lemma ClearingStarts(h: History, version: nat)
    requires Settled(h) && forall v | v in h.live :: h.lower <= v
    ensures Clearing(h, h, version)
  {
    assert Above(h.live, h.lower - 1) == h.live;
  }

  lemma ClearOne(h: History, now: History, version: nat)
    requires Clearing(h, now, version) && now != EMPTY && now.lower <= version && h.next > 0 && Settled(now)
    requires forall v | v in h.live :: h.lower <= v < h.next
    ensures var now' := Updated(now, now.lower, None);
      && Clearing(h, now', version)
      && (now' != EMPTY ==> now'.lower > now.lower && now' == Assigned(now, now.lower, None))
      && (now' == EMPTY ==> Assigned(now, now.lower, None) == ClearedCopy(h, version))
  {
    var s := Assigned(now, now.lower, None);
    var live := now.live - {now.lower};
    assert s.live == live && s.lower == Advance(live, now.lower, now.next);
    assert forall v | v in h.live && now.lower <= v :: v in now.live;
    assert forall v | v in h.live && now.lower < v < s.lower :: v in live;
    assert s.lower > now.lower ==> live == Above(h.live, s.lower - 1);
  }

  lemma ClearingEnds(h: History, now: History, version: nat)
    requires Clearing(h, now, version) && (now.next == 0 || now.lower > version) && Settled(h)
    requires forall v | v in h.live :: h.lower <= v < h.next
    ensures now == Cleared(h, version)
    ensures now != EMPTY || h == EMPTY ==> now == ClearedCopy(h, version)
    ensures now == EMPTY && h != EMPTY ==> Lags(now, ClearedCopy(h, version)) && ClearedCopy(h, version).next == h.next
    ensures now.next == 0 || now.next == h.next
  {
    if now != EMPTY && h.next > 0 && version >= h.lower {
      assert now.live == Above(h.live, version) by {
        assert forall v | v in h.live && v > version :: v >= now.lower;
      }
      AdvanceIs(now.live, h.lower, h.next, now.lower);
    } else if now != EMPTY {
      assert now.live == h.live;
    }
  }

  lemma AssignedLower(h: History, i: nat, o: Option<Offset>)
    requires h.lower < h.next || h.next == 0
    ensures var s := Assigned(h, i, o); s.next == h.next && (h.next > 0 ==> s.lower < s.next)
    ensures var s := Assigned(h, i, o); s.lower >= h.lower || (o.Some? && s.lower >= i)
    ensures var s := Assigned(h, i, o); h.next > 0 ==> s.lower in s.live || s.lower == s.next - 1
  {
  }
}
