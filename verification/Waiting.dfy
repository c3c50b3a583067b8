/** Promises, and the continuations that will fulfil them, stored by the node they wait for. */
module Waiting {
  import opened Trie

  type PromiseId = nat

  /** A request waiting for a node, and what is left of its key below it. */
  datatype Cont<G> = Cont(promise: PromiseId, key: Key, goal: G)

  ghost function Sum(m: map<PromiseId, nat>): nat {
    if m == map[] then 0 else var p :| p in m; m[p] + Sum(m - {p})
  }

  lemma {:induction false} SumWithout(m: map<PromiseId, nat>, p: PromiseId)
    requires p in m
    ensures Sum(m) == m[p] + Sum(m - {p})
    decreases |m|
  {
    var q :| q in m && Sum(m) == m[q] + Sum(m - {q});
    if q != p {
      var a, b := m - {q}, m - {p};
      assert p in a && q in b;
      SumWithout(a, p);
      SumWithout(b, q);
      assert a - {p} == b - {q};
    }
  }

  type Table<G> = map<nat, seq<Cont<G>>>
  type Promises<A> = map<PromiseId, Option<A>>
  type Places = map<PromiseId, (nat, nat)>

  ghost predicate Unset<A>(promises: Promises<A>, p: PromiseId) {
    p in promises && promises[p].None?
  }

  /** The entry knows its place in the table, and how much of its key is left. */
  ghost predicate HeldAt<G>(table: Table<G>, place: Places, left: map<PromiseId, nat>, o: nat, i: nat)
    requires o in table && i < |table[o]|
  {
    var c := table[o][i];
    c.promise in place && place[c.promise] == (o, i) && c.promise in left && left[c.promise] == |c.key| + 1
  }

  ghost predicate PlacedAt<G>(table: Table<G>, p: PromiseId, at: (nat, nat)) {
    at.0 in table && at.1 < |table[at.0]| && table[at.0][at.1].promise == p
  }

  /** Every promise still open is in `hand` or held by exactly one stored continuation. */
  ghost predicate OneContEach<G, A>(table: Table<G>, promises: Promises<A>, place: Places, left: map<PromiseId, nat>, hand: set<PromiseId>) {
    && (forall p :: Unset(promises, p) <==> p in place || p in hand)
    && place.Keys !! hand && left.Keys == place.Keys + hand
    && (forall p | p in place :: PlacedAt(table, p, place[p]))
    && (forall o, i | o in table && 0 <= i < |table[o]| :: HeldAt(table, place, left, o, i))
    && (forall o | o in table :: table[o] != [])
  }

  lemma SetKeeps<G, A>(table: Table<G>, promises: Promises<A>, place: Places, left: map<PromiseId, nat>, hand: set<PromiseId>, p: PromiseId, a: A)
    requires OneContEach(table, promises, place, left, hand) && p in hand
    ensures OneContEach(table, promises[p := Some(a)], place, left - {p}, hand - {p})
  {
    var promises' := promises[p := Some(a)];
    forall q ensures Unset(promises', q) <==> q in place || q in hand - {p} {
      assert q != p ==> (Unset(promises', q) <==> Unset(promises, q));
    }
    forall o, i | o in table && 0 <= i < |table[o]| ensures HeldAt(table, place, left - {p}, o, i) {
      assert HeldAt(table, place, left, o, i);
    }
  }

  /** The table with one more continuation for `o`. */
  function Stored<G>(table: Table<G>, o: nat, c: Cont<G>): Table<G> {
    table[o := (if o in table then table[o] else []) + [c]]
  }

  lemma StoreKeeps<G, A>(table: Table<G>, promises: Promises<A>, place: Places, left: map<PromiseId, nat>, hand: set<PromiseId>, o: nat, c: Cont<G>)
    requires OneContEach(table, promises, place, left, hand) && c.promise in hand
    ensures OneContEach(Stored(table, o, c), promises, place[c.promise := (o, if o in table then |table[o]| else 0)],
                        left[c.promise := |c.key| + 1], hand - {c.promise})
  {
    var table', p := Stored(table, o, c), c.promise;
    var place', left' := place[p := (o, if o in table then |table[o]| else 0)], left[p := |c.key| + 1];
    forall o', i | o' in table' && 0 <= i < |table'[o']| ensures HeldAt(table', place', left', o', i) {
      if o' in table && i < |table[o']| {
        assert HeldAt(table, place, left, o', i);
      }
    }
    forall q | q in place' ensures PlacedAt(table', q, place'[q]) {
      assert q != p ==> PlacedAt(table, q, place[q]);
    }
  }

  /** The promises of the continuations from `i` on. */
  function Promised<G>(conts: seq<Cont<G>>, i: nat): set<PromiseId> {
    set j | i <= j < |conts| :: conts[j].promise
  }

  function Elsewhere(place: Places, o: nat): Places {
    map p | p in place && place[p].0 != o :: place[p]
  }

  lemma TakeKeeps<G, A>(table: Table<G>, promises: Promises<A>, place: Places, left: map<PromiseId, nat>, o: nat)
    requires OneContEach(table, promises, place, left, {}) && o in table
    ensures OneContEach(table - {o}, promises, Elsewhere(place, o), left, Promised(table[o], 0))
    ensures forall i | 0 <= i < |table[o]| :: HeldAt(table, place, left, o, i) && Unset(promises, table[o][i].promise)
  {
    var table', place', hand := table - {o}, Elsewhere(place, o), Promised(table[o], 0);
    forall o', i | o' in table' && 0 <= i < |table'[o']| ensures HeldAt(table', place', left, o', i) {
      assert HeldAt(table, place, left, o', i);
    }
    forall p | p in place' ensures PlacedAt(table', p, place'[p]) {
      assert PlacedAt(table, p, place[p]);
    }
    forall p | p in place ensures p in place' || p in hand {
      assert PlacedAt(table, p, place[p]);
    }
    forall i | 0 <= i < |table[o]| ensures HeldAt(table, place, left, o, i) && table[o][i].promise !in place' {
    }
  }

  lemma TakenKey<G, A>(table: Table<G>, promises: Promises<A>, place: Places, left: map<PromiseId, nat>, o: nat)
    requires OneContEach(table, promises, place, left, {}) && o in table
    ensures table[o] != []
  {
  }

  lemma PromisedStep<G>(conts: seq<Cont<G>>, i: nat)
    requires i <= |conts| && forall j, l | i <= j < l < |conts| :: conts[j].promise != conts[l].promise
    ensures i == |conts| ==> Promised(conts, i) == {}
    ensures i < |conts| ==> conts[i].promise in Promised(conts, i) && Promised(conts, i) - {conts[i].promise} == Promised(conts, i + 1)
  {
    if i < |conts| {
      var p := conts[i].promise;
      forall q | q in Promised(conts, i) - {p} ensures q in Promised(conts, i + 1) {
        var j :| i <= j < |conts| && conts[j].promise == q;
      }
    }
  }

  ghost predicate Lighter(before: map<PromiseId, nat>, after: map<PromiseId, nat>, p: PromiseId) {
    p in before && after - {p} == before - {p} && (p in after ==> after[p] < before[p])
  }

  lemma OthersStay(before: map<PromiseId, nat>, after: map<PromiseId, nat>, p: PromiseId)
    requires Lighter(before, after, p)
    ensures forall q | q in before && q != p :: q in after && after[q] == before[q]
  {
    forall q | q in before && q != p ensures q in after && after[q] == before[q] {
      assert q in before - {p} && (before - {p})[q] == before[q];
    }
  }

  lemma LighterSum(before: map<PromiseId, nat>, after: map<PromiseId, nat>, p: PromiseId)
    requires Lighter(before, after, p) && before[p] > 0
    ensures Sum(after) < Sum(before)
  {
    SumWithout(before, p);
    if p in after {
      SumWithout(after, p);
    } else {
      assert after - {p} == after;
    }
  }

  /** A read under way for the node that continuations are stored by. */
  datatype Read<+P> = Read(key: nat, origin: P)

  function KeysOf<P>(rs: seq<Read<P>>): (keys: seq<nat>)
    ensures |keys| == |rs| && forall i | 0 <= i < |rs| :: keys[i] == rs[i].key
  {
    seq(|rs|, i requires 0 <= i < |rs| => rs[i].key)
  }

  /** Exactly one read is under way for each of these keys. */
  ghost predicate OneReadEach<P>(rs: seq<Read<P>>, keys: set<nat>) {
    multiset(KeysOf(rs)) == multiset(keys)
  }

  lemma ReadAdded<P>(rs: seq<Read<P>>, keys: set<nat>, r: Read<P>)
    requires OneReadEach(rs, keys) && r.key !in keys
    ensures OneReadEach(rs + [r], keys + {r.key})
  {
    assert KeysOf(rs + [r]) == KeysOf(rs) + [r.key];
  }

  lemma ReadTaken<P>(rs: seq<Read<P>>, keys: set<nat>, k: nat)
    requires OneReadEach(rs, keys) && k < |rs|
    ensures rs[k].key in keys && OneReadEach(rs[..k] + rs[k + 1..], keys - {rs[k].key})
  {
    var all := KeysOf(rs);
    assert KeysOf(rs[..k] + rs[k + 1..]) == all[..k] + all[k + 1..];
    OneLess(all, keys, k);
  }

  lemma NoReads<P>(rs: seq<Read<P>>, keys: set<nat>)
    requires OneReadEach(rs, keys) && rs == []
    ensures multiset(keys) == multiset{}
  {
    assert KeysOf(rs) == [];
  }

  lemma OneLess(all: seq<nat>, keys: set<nat>, k: nat)
    requires k < |all| && multiset(all) == multiset(keys)
    ensures all[k] in keys && multiset(all[..k] + all[k + 1..]) == multiset(keys - {all[k]})
  {
    var o, rest := all[k], all[..k] + all[k + 1..];
    assert all == all[..k] + ([o] + all[k + 1..]);
    assert multiset(all) == multiset(rest) + multiset{o};
    assert o in multiset(all);
    assert multiset(keys) == multiset(keys - {o}) + multiset{o};
    forall x ensures multiset(rest)[x] == multiset(keys - {o})[x] {
      assert (multiset(rest) + multiset{o})[x] == (multiset(keys - {o}) + multiset{o})[x];
    }
  }

  /** With nothing stored and nothing in hand every promise has its answer. */
  lemma NobodyWaits<G, A>(table: Table<G>, promises: Promises<A>, place: Places, left: map<PromiseId, nat>)
    requires OneContEach(table, promises, place, left, {}) && multiset(table.Keys) == multiset{}
    ensures forall p | p in promises :: promises[p].Some?
  {
    assert table.Keys == {} by {
      assert forall o | o in table.Keys :: multiset(table.Keys)[o] == 1;
    }
    forall p | p in promises ensures promises[p].Some? {
      assert p in place ==> PlacedAt(table, p, place[p]);
      assert Unset(promises, p) <==> p in place;
    }
  }

  /** One step of the nibble-at-a-time search. */
  lemma FindStep(t: Tree, i: nat, key: Key)
    requires i <= |t.path|
    ensures var f := Find(t, i, key);
      && (key == [] ==> f == Found(t, i, if i == |t.path| then Success else KeyEndsEarlier))
      && (key != [] && i < |t.path| && key[0] != t.path[i] ==> f == Found(t, i, KeyMismatch))
      && (key != [] && i < |t.path| && key[0] == t.path[i] ==> f == Find(t, i + 1, key[1..]))
      && (key != [] && i == |t.path| && Kid(t, key[0]).None? ==> f == Found(t, i, BranchNotExist))
      && (key != [] && i == |t.path| && Kid(t, key[0]).Some? ==> f == Find(Kid(t, key[0]).value, 0, key[1..]))
  {
  }

  /** Follows the path of a node as far as it agrees with the key. */
  method MatchPath(path: Key, start: nat, key: Key, ghost t: Tree) returns (pi: nat, ni: nat)
    requires t.path == path && start <= |path|
    ensures start <= ni <= |path| && pi <= |key| && pi == ni - start && path[start..ni] == key[..pi]
    ensures pi == |key| || ni == |path| || key[pi] != path[ni]
    ensures Find(t, ni, key[pi..]) == Find(t, start, key)
  {
    hide Find;
    pi, ni := 0, start;
    assert key[pi..] == key;
    while ni < |path| && pi < |key| && key[pi] == path[ni]
      invariant start <= ni <= |path| && pi <= |key| && pi == ni - start && path[start..ni] == key[..pi]
      invariant Find(t, ni, key[pi..]) == Find(t, start, key)
    {
      FindStep(t, ni, key[pi..]);
      assert key[pi..][0] == key[pi] && key[pi..][1..] == key[pi + 1..];
      assert path[start..ni + 1] == path[start..ni] + [path[ni]] && key[..pi + 1] == key[..pi] + [key[pi]];
      ni, pi := ni + 1, pi + 1;
    }
  }

  /** What a promise is set to: where the search ended, and how. */
  datatype Answer<+N> = Answer(node: N, index: nat, res: Result)

  /** Promises already set keep their answers, and no new answer sends the caller away. */
  ghost predicate OthersKept<N>(before: Promises<Answer<N>>, after: Promises<Answer<N>>) {
    && after.Keys == before.Keys
    && forall p | p in before && after[p] != before[p] ::
         before[p] == None && after[p].value.res != NeedToContinueInIoThread
  }

  /** At most promise `p` has been set; on the I/O thread its answer does not send the caller away. */
  ghost predicate OnlySet<N>(before: Promises<Answer<N>>, after: Promises<Answer<N>>, p: PromiseId, onIoThread: bool) {
    && after.Keys == before.Keys && p in before && (forall q | q in before && q != p :: after[q] == before[q])
    && (after[p] == before[p] || (after[p].Some? && (onIoThread ==> after[p].value.res != NeedToContinueInIoThread)))
  }
}
