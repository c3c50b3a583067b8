/** Lookups of a reader that shares the disk with a writer: nodes are read into a cache, under names that
    are never reused, while the writer may reuse the places they were read from. */
module OwningFind {
  import opened Trie
  import opened TrieHeap
  import opened Waiting

  /** The number of a write, never used twice. */
  type Virtual = nat

  /** A node in the cache. Children are named by where they were written. */
  datatype CacheNode = CacheNode(mask: Mask, path: Key, value: Option<Bytes>, version: int, fnext: seq<Offset>)

  /** What a look at the metadata shows: which write holds each place, and the roots of the live versions. */
  datatype World = World(holds: map<Offset, Virtual>, roots: map<nat, Offset>)

  /** The writer: every node it ever writes, the same with children named by write, the place of each write,
      the root of each version, and the metadata at every moment. */
  datatype Writer = Writer(store: seq<CacheNode>, shape: Disk, home: seq<Offset>, rootOf: map<nat, Virtual>, worlds: nat -> World)

  /** Write `v` belongs to the trie rooted at write `root`. */
  ghost predicate PartOf(shape: Disk, root: Virtual, v: Virtual)
    requires DiskOk(shape) && root < |shape|
    decreases root
  {
    v == root || exists i :: 0 <= i < |shape[root].fnext| && PartOf(shape, shape[root].fnext[i], v)
  }

  lemma {:induction false} KidIsPart(shape: Disk, root: Virtual, v: Virtual, i: nat)
    requires DiskOk(shape) && root < |shape| && PartOf(shape, root, v)
    ensures v <= root && (i < |shape[v].fnext| ==> PartOf(shape, root, shape[v].fnext[i]))
    decreases root
  {
    if v == root {
      if i < |shape[v].fnext| {
        assert PartOf(shape, shape[v].fnext[i], shape[v].fnext[i]);
      }
    } else {
      var k :| 0 <= k < |shape[root].fnext| && PartOf(shape, shape[root].fnext[k], v);
      assert ImageOk(shape[root], root);
      KidIsPart(shape, shape[root].fnext[k], v, i);
    }
  }

  predicate SameNode(n: CacheNode, im: Image) {
    n.mask == im.mask && n.path == im.path && n.value == im.value && n.version == im.version && |n.fnext| == |im.fnext|
  }

  /** Node `v` names its children by their places. */
  predicate NamesHomes(w: Writer, v: Virtual)
    requires v < |w.store| == |w.shape|
  {
    SameNode(w.store[v], w.shape[v]) &&
    forall i | 0 <= i < |w.store[v].fnext| :: w.shape[v].fnext[i] < |w.home| && w.store[v].fnext[i] == w.home[w.shape[v].fnext[i]]
  }

  /** All that a live version needs is still in its place. */
  ghost predicate Intact(w: Writer, t: nat, version: nat)
    requires DiskOk(w.shape) && |w.store| == |w.shape| == |w.home|
  {
    version in w.worlds(t).roots ==>
      && version in w.rootOf && w.rootOf[version] < |w.shape|
      && w.worlds(t).roots[version] == w.home[w.rootOf[version]]
      && forall v: Virtual | v < |w.home| && PartOf(w.shape, w.rootOf[version], v) :: InPlace(w, t, v)
  }

  predicate InPlace(w: Writer, t: nat, v: Virtual)
    requires v < |w.home|
  {
    w.home[v] in w.worlds(t).holds && w.worlds(t).holds[w.home[v]] == v
  }

  /** The discipline of the writer: versions come and go once, places are reused only when no live version needs
      them, and a write has one place for as long as it is held. */
  ghost predicate Disciplined(w: Writer) {
    && DiskOk(w.shape) && |w.store| == |w.shape| == |w.home|
    && (forall v | 0 <= v < |w.store| :: NamesHomes(w, v))
    && (forall t: nat, version: nat :: Intact(w, t, version))
    && (forall t: nat, o | o in w.worlds(t).holds :: w.worlds(t).holds[o] < |w.home| && w.home[w.worlds(t).holds[o]] == o)
    && (forall a: nat, b: nat, c: nat, version | a <= b <= c && version in w.worlds(a).roots && version in w.worlds(c).roots
          :: version in w.worlds(b).roots)
    && (forall a: nat, b: nat, c: nat, v: Virtual | a <= b <= c && v < |w.home| && InPlace(w, a, v) && InPlace(w, c, v) :: InPlace(w, b, v))
  }

  datatype Goal = TheRoot(version: nat) | TheKey(version: nat)

  datatype Question =
    | AskedRoot(version: nat, since: nat)
    | AskedKey(version: nat, from: Option<Virtual>, start: nat, key: Key, since: nat)

  type Reply = Answer<Option<CacheNode>>

  const GONE: Reply := Answer(None, 0, VersionNoLongerExist)

  /** Where a read takes a write from, and the moment it was decided on. */
  datatype Source = Source(offset: Offset, since: nat)

  /** The version asked for was not live at some moment since it was asked for. */
  ghost predicate Expired(w: Writer, q: Question, now: nat) {
    !AllLive(w, q.version, q.since, now)
  }

  ghost predicate AllLive(w: Writer, version: nat, from: nat, now: nat) {
    forall t: nat | from <= t < now :: version in w.worlds(t).roots
  }

  lemma LiveBetween(w: Writer, version: nat, a: nat, c: nat)
    requires Disciplined(w) && a <= c && version in w.worlds(a).roots && version in w.worlds(c).roots
    ensures AllLive(w, version, a, c + 1)
  {
    forall t: nat | a <= t < c + 1 ensures version in w.worlds(t).roots {
    }
  }

  lemma LiveJoin(w: Writer, version: nat, a: nat, b: nat, c: nat)
    requires a <= b <= c && AllLive(w, version, a, b)
    ensures AllLive(w, version, a, c) <==> AllLive(w, version, b, c)
  {
  }

  lemma NotSince(w: Writer, version: nat, since: nat, from: nat, now: nat)
    requires since <= from && !AllLive(w, version, from, now)
    ensures !AllLive(w, version, since, now)
  {
  }

  lemma NotLive(w: Writer, version: nat, from: nat, t: nat, now: nat)
    requires from <= t < now && version !in w.worlds(t).roots
    ensures !AllLive(w, version, from, now)
  {
  }

  /** The write that the nibbles `p` lead to below write `v`. */
  ghost function WriteAt(shape: Disk, v: Virtual, p: Key): (u: Option<Virtual>)
    requires DiskOk(shape) && v < |shape|
    decreases |p|
  {
    var im := shape[v];
    if p == [] then Some(v)
    else if |im.path| < |p| && im.path <= p && im.mask[p[|im.path|]] then
      RankMono(im.mask, p[|im.path|], BRANCHES);
      WriteAt(shape, im.fnext[Rank(im.mask, p[|im.path|])], p[|im.path| + 1..])
    else None
  }

  /** The way to `key` below `v` comes to a write that is not in the cache. */
  ghost predicate Gap(shape: Disk, have: set<Virtual>, v: Virtual, key: Key)
    requires DiskOk(shape) && v < |shape|
  {
    exists j: nat | j < |key| :: GapAt(shape, have, v, key, j)
  }

  ghost predicate GapAt(shape: Disk, have: set<Virtual>, v: Virtual, key: Key, j: nat)
    requires DiskOk(shape) && v < |shape| && j < |key|
  {
    var u := WriteAt(shape, v, key[..j + 1]);
    u.Some? && u.value !in have
  }

  /** The way ends at this node. */
  lemma NoGap(shape: Disk, have: set<Virtual>, v: Virtual, key: Key, i: nat)
    requires DiskOk(shape) && v < |shape| && i <= |shape[v].path| && i <= |key|
    requires i < |key| ==> if i < |shape[v].path| then key[i] != shape[v].path[i] else !shape[v].mask[key[i]]
    ensures !Gap(shape, have, v, key)
  {
    hide Rank, DiskOk;
    forall j: nat | j < |key| ensures !GapAt(shape, have, v, key, j) {
      var p := key[..j + 1];
      assert i < |p| ==> p[i] == key[i];
    }
  }

  /** The way goes on below branch `key[l - 1]`. */
  lemma GapBelow(shape: Disk, have: set<Virtual>, v: Virtual, key: Key, l: nat)
    requires DiskOk(shape) && v < |shape| && l == |shape[v].path| + 1 <= |key| && shape[v].path <= key && shape[v].mask[key[l - 1]]
    ensures Rank(shape[v].mask, key[l - 1]) < |shape[v].fnext|
    ensures var u := shape[v].fnext[Rank(shape[v].mask, key[l - 1])];
            u < |shape| && (Gap(shape, have, v, key) <==> u !in have || Gap(shape, have, u, key[l..]))
  {
    assert ImageOk(shape[v], v);
    RankMono(shape[v].mask, key[l - 1], BRANCHES);
    var u, rest := shape[v].fnext[Rank(shape[v].mask, key[l - 1])], key[l..];
    hide Rank, DiskOk;
    forall j: nat | j < |key|
      ensures j < l - 1 ==> !GapAt(shape, have, v, key, j)
      ensures j == l - 1 ==> (GapAt(shape, have, v, key, j) <==> u !in have)
      ensures j >= l ==> (GapAt(shape, have, v, key, j) <==> GapAt(shape, have, u, rest, j - l))
    {
      var p := key[..j + 1];
      if j >= l - 1 {
        assert shape[v].path <= p && p[l..] == rest[..j + 1 - l];
        assert WriteAt(shape, v, p) == WriteAt(shape, u, rest[..j + 1 - l]);
      }
    }
    if Gap(shape, have, u, rest) {
      var j: nat :| j < |rest| && GapAt(shape, have, u, rest, j);
      assert GapAt(shape, have, v, key, j + l);
    }
    if Gap(shape, have, v, key) {
      var j: nat :| j < |key| && GapAt(shape, have, v, key, j);
      assert j >= l ==> GapAt(shape, have, u, rest, j - l);
    } else {
      assert !GapAt(shape, have, v, key, l - 1);
    }
  }

  /** What one go at a request comes to while its version is live: over the cache it finds its answer; at a gap it waits
      for the read on the I/O thread, and elsewhere sends the caller there. */
  ghost predicate Settled(a: Option<Reply>, onIoThread: bool, gap: bool) {
    if !gap then a.Some? && a.value.res !in {NeedToContinueInIoThread, VersionNoLongerExist}
    else if onIoThread then a == None
    else a == Some(Answer(None, 0, NeedToContinueInIoThread))
  }

  /** The answer to a question, as far as `now` is concerned. */
  ghost predicate Right(w: Writer, q: Question, a: Reply, now: nat)
    requires DiskOk(w.shape) && |w.store| == |w.shape|
  {
    if a.res == VersionNoLongerExist then Expired(w, q, now)
    else if a.res == NeedToContinueInIoThread then true
    else match q
      case AskedRoot(version, _) => RootAnswer(w, version, a)
      case AskedKey(_, from, _, _, _) =>
        if from.None? then a == Answer(None, 0, RootNodeIsNull)
        else exists v: Virtual :: v < |w.store| && a.node == Some(w.store[v]) && Finds(w, q, v, a.index, a.res)
  }

  predicate RootAnswer(w: Writer, version: nat, a: Reply) {
    version in w.rootOf && w.rootOf[version] < |w.store| && a == Answer(Some(w.store[w.rootOf[version]]), 0, Success)
  }

  ghost predicate Finds(w: Writer, q: Question, v: Virtual, index: nat, res: Result)
    requires DiskOk(w.shape) && v < |w.shape|
  {
    && q.AskedKey? && q.from.Some? && q.from.value < |w.shape| && q.start <= |w.shape[q.from.value].path|
    && Found(DiskTree(w.shape, v), index, res) == Find(DiskTree(w.shape, q.from.value), q.start, q.key)
  }

  /** Searching on from write `v` gives what was asked for. */
  ghost predicate Asks(w: Writer, q: Question, v: Virtual, i: nat, key: Key)
    requires DiskOk(w.shape)
  {
    && q.AskedKey? && q.from.Some? && q.from.value < |w.shape| && q.start <= |w.shape[q.from.value].path|
    && v < |w.shape| && i <= |w.shape[v].path|
    && q.version in w.rootOf && w.rootOf[q.version] < |w.shape| && PartOf(w.shape, w.rootOf[q.version], v)
    && Find(DiskTree(w.shape, v), i, key) == Find(DiskTree(w.shape, q.from.value), q.start, q.key)
  }

  ghost predicate OnTrack(w: Writer, c: Cont<Goal>, v: Virtual, asked: map<PromiseId, Question>)
    requires DiskOk(w.shape)
  {
    && c.promise in asked && v < |w.shape| && asked[c.promise].version == c.goal.version
    && match c.goal
       case TheRoot(version) => asked[c.promise].AskedRoot? && version in w.rootOf && w.rootOf[version] == v
       case TheKey(version) => Asks(w, asked[c.promise], v, 0, c.key)
  }

  ghost predicate AllOnTrack(w: Writer, table: Table<Goal>, asked: map<PromiseId, Question>)
    requires DiskOk(w.shape)
  {
    forall v, i | v in table && 0 <= i < |table[v]| :: OnTrack(w, table[v][i], v, asked)
  }

  ghost predicate AllRight(w: Writer, promises: Promises<Reply>, asked: map<PromiseId, Question>, now: nat)
    requires DiskOk(w.shape) && |w.store| == |w.shape|
  {
    && asked.Keys == promises.Keys && (forall p | p in asked :: asked[p].since <= now)
    && forall p | p in promises && promises[p].Some? :: Right(w, asked[p], promises[p].value, now)
  }

  ghost predicate ReadOk(w: Writer, r: Read<Source>, now: nat) {
    r.key < |w.home| && r.origin.offset == w.home[r.key] && r.origin.since < now && InPlace(w, r.origin.since, r.key)
  }

  ghost predicate ReadsOk(w: Writer, rs: seq<Read<Source>>, keys: set<Virtual>, now: nat) {
    (forall i | 0 <= i < |rs| :: ReadOk(w, rs[i], now)) && OneReadEach(rs, keys)
  }

  /** The cache holds nodes as they were written. */
  ghost predicate CacheOk(w: Writer, cache: map<Virtual, CacheNode>) {
    forall v | v in cache :: v < |w.store| && cache[v] == w.store[v]
  }

  /** Nothing said before becomes wrong later. */
  lemma LaterIsRight(w: Writer, promises: Promises<Reply>, asked: map<PromiseId, Question>, now: nat, later: nat)
    requires DiskOk(w.shape) && |w.store| == |w.shape| && now <= later && AllRight(w, promises, asked, now)
    ensures AllRight(w, promises, asked, later)
  {
    hide Finds;
    forall p | p in promises && promises[p].Some? ensures Right(w, asked[p], promises[p].value, later) {
      assert Right(w, asked[p], promises[p].value, now);
    }
  }

  class Finder {
    const w: Writer
    var now: nat
    var cache: map<Virtual, CacheNode>
    var inflights: Table<Goal>
    var pending: seq<Read<Source>>
    var promises: Promises<Reply>
    ghost var asked: map<PromiseId, Question>
    ghost var place: Places
    ghost var left: map<PromiseId, nat>
    ghost var refused: set<PromiseId>

    ghost predicate Valid(hand: set<PromiseId>)
      reads this`now, this`cache, this`inflights, this`pending, this`promises, this`asked, this`place, this`left
    {
      && Disciplined(w)
      && ReadsOk(w, pending, inflights.Keys, now)
      && CacheOk(w, cache) && cache.Keys !! inflights.Keys
      && OneContEach(inflights, promises, place, left, hand)
      && AllOnTrack(w, inflights, asked) && AllRight(w, promises, asked, now)
    }

    constructor (w: Writer)
      requires Disciplined(w)
      ensures this.w == w && Valid({}) && promises == map[] && pending == [] && refused == {}
    {
      this.w := w;
      now, cache, inflights, pending, promises := 0, map[], map[], [], map[];
      asked, place, left, refused := map[], map[], map[], {};
    }

    /** Everybody who waited for a node whose place was reused has been told that the version is gone. */
    ghost predicate Told()
      reads this`promises, this`refused
    {
      forall p | p in refused :: Gone(promises, p)
    }

    /** Time goes on; the writer may do anything its discipline allows. */
    method Tick(ghost hand: set<PromiseId>)
      requires Valid(hand)
      modifies this`now
      ensures Valid(hand) && now == old(now) + 1
    {
      hide Disciplined, OneContEach, CacheOk, AllOnTrack, AllRight;
      ShapeIsOk(w);
      now := now + 1;
      LaterIsRight(w, promises, asked, now - 1, now);
    }

    method VersionIsValid(version: nat, ghost hand: set<PromiseId>) returns (valid: bool)
      requires Valid(hand)
      modifies this`now
      ensures Valid(hand) && now == old(now) + 1 && valid == (version in w.worlds(old(now)).roots)
    {
      hide Disciplined, Valid;
      valid := version in w.worlds(now).roots;
      Tick(hand);
    }

    method PhysicalToVirtual(offset: Offset, ghost hand: set<PromiseId>) returns (v: Option<Virtual>)
      requires Valid(hand)
      modifies this`now
      ensures Valid(hand) && now == old(now) + 1
      ensures v == if offset in w.worlds(old(now)).holds then Some(w.worlds(old(now)).holds[offset]) else None
    {
      hide Disciplined, Valid;
      v := if offset in w.worlds(now).holds then Some(w.worlds(now).holds[offset]) else None;
      Tick(hand);
    }

    method SetPromise(p: PromiseId, a: Reply, ghost hand: set<PromiseId>)
      requires Valid(hand) && p in hand && p in asked && Right(w, asked[p], a, now)
      modifies this`promises, this`left
      ensures Valid(hand - {p}) && promises == old(promises)[p := Some(a)] && left == old(left) - {p}
    {
      hide Disciplined, ReadsOk, CacheOk, AllOnTrack, OneContEach, Right;
      SetKeeps(inflights, promises, place, left, hand, p, a);
      assert DiskOk(w.shape) && |w.store| == |w.shape| by {
        ShapeIsOk(w);
      }
      promises := promises[p := Some(a)];
      left := left - {p};
    }

    /** Stores a continuation with the read of write `v`, starting that read if need be. */
    method AsyncReadWithContinuation(c: Cont<Goal>, offset: Offset, v: Virtual, since: nat, onIoThread: bool, ghost hand: set<PromiseId>)
      requires Valid(hand) && c.promise in hand && c.promise in asked && v !in cache
      requires ReadOk(w, Read(v, Source(offset, since)), now) && OnTrack(w, c, v, asked)
      modifies this`inflights, this`pending, this`place, this`left, this`promises
      ensures Valid(hand - {c.promise})
      ensures if onIoThread then promises == old(promises) && left == old(left)[c.promise := |c.key| + 1]
              else promises == old(promises)[c.promise := Some(Answer(None, 0, NeedToContinueInIoThread))] && left == old(left) - {c.promise}
    {
      hide Disciplined, ReadsOk, CacheOk, AllOnTrack, OneContEach, AllRight, OnTrack, ReadOk, InPlace, Asks, Finds;
      ShapeIsOk(w);
      if !onIoThread {
        SetPromise(c.promise, Answer(None, 0, NeedToContinueInIoThread), hand);
        return;
      }
      StoreKeeps(inflights, promises, place, left, hand, v, c);
      StoreOnTrack(w, inflights, asked, v, c);
      place := place[c.promise := (v, if v in inflights then |inflights[v]| else 0)];
      left := left[c.promise := |c.key| + 1];
      ghost var keys := inflights.Keys;
      if v in inflights {
        inflights := inflights[v := inflights[v] + [c]];
        assert inflights.Keys == keys;
      } else {
        var read := Read(v, Source(offset, since));
        OneMoreOk(w, pending, keys, now, read);
        inflights := inflights[v := [] + [c]];
        assert inflights.Keys == keys + {v};
        pending := pending + [read];
      }
    }

    /** Goes on with a request at node `node`, which is write `v`. */
    method FindFrom(p: PromiseId, node: CacheNode, ghost v: Virtual, start: nat, key: Key, version: nat, onIoThread: bool,
                    ghost hand: set<PromiseId>)
      requires Valid(hand) && p in hand && p in asked && p in promises && promises[p] == None && p in left && left[p] > |key|
      requires DiskOk(w.shape) && Asks(w, asked[p], v, start, key) && asked[p].version == version && start <= |node.path|
      requires v < |w.store| && node == w.store[v]
      modifies this`now, this`inflights, this`pending, this`promises, this`place, this`left
      ensures Valid(hand - {p}) && Lighter(old(left), left, p) && now >= old(now)
      ensures OnlySet(old(promises), promises, p, onIoThread)
      ensures version !in w.worlds(old(now)).roots ==> promises == old(promises)[p := Some(Answer(Some(node), start, VersionNoLongerExist))]
      ensures if AllLive(w, version, old(now), now) then Settled(promises[p], onIoThread, Gap(w.shape, cache.Keys, v, node.path[..start] + key))
              else promises[p].Some? && promises[p].value.res == VersionNoLongerExist
      decreases |key|, 0
    {
      hide Disciplined, Valid, DiskTree, KidsOf, Find, PartOf, Gap, AllLive;
      ghost var first := now;
      SinceThen(hand);
      var valid := VersionIsValid(version, hand);
      if !valid {
        NotLive(w, version, first, first, now);
        NotLive(w, version, asked[p].since, first, now);
        SetPromise(p, Answer(Some(node), start, VersionNoLongerExist), hand);
        return;
      }
      ghost var t, full := DiskTree(w.shape, v), node.path[..start] + key;
      CacheAndTable(hand);
      StoredTree(w, v);
      LiveBetween(w, version, first, first);
      var pi, ni := MatchPath(node.path, start, key, t);
      FindStep(t, ni, key[pi..]);
      assert pi < |key| ==> key[pi..][0] == key[pi] && key[pi..][1..] == key[pi + 1..];
      GapHere(v, start, key, pi, ni);
      if ni < |node.path| || pi == |key| || !node.mask[key[pi]] {
        var res := if ni < |node.path| then (if pi == |key| then KeyEndsEarlier else KeyMismatch)
                   else if pi == |key| then Success else BranchNotExist;
        assert Finds(w, asked[p], v, ni, res);
        SetPromise(p, Answer(Some(node), ni, res), hand);
        return;
      }
      var nextKey, offset := key[pi + 1..], node.fnext[Rank(node.mask, key[pi])];
      ghost var kid := w.shape[v].fnext[Rank(node.mask, key[pi])];
      KidIsPart(w.shape, w.rootOf[version], v, Rank(node.mask, key[pi]));
      GoDown(p, node, start, offset, kid, nextKey, version, first, onIoThread, hand);
    }

    /** Whether the way goes on below this node, and where. */
    lemma GapHere(v: Virtual, start: nat, key: Key, pi: nat, ni: nat)
      requires Disciplined(w) && v < |w.store| && start <= ni <= |w.store[v].path| && pi <= |key| && pi == ni - start
      requires w.store[v].path[start..ni] == key[..pi] && (pi == |key| || ni == |w.store[v].path| || key[pi] != w.store[v].path[ni])
      ensures DiskOk(w.shape) && |w.store| == |w.shape| && |w.store[v].mask| == BRANCHES
      ensures var n, gap := w.store[v], Gap(w.shape, cache.Keys, v, w.store[v].path[..start] + key);
        if ni < |n.path| || pi == |key| || !n.mask[key[pi]] then !gap
        else
          && Rank(n.mask, key[pi]) < |w.shape[v].fnext|
          && var u := w.shape[v].fnext[Rank(n.mask, key[pi])];
            u < |w.shape| && (gap <==> u !in cache || Gap(w.shape, cache.Keys, u, key[pi + 1..]))
    {
      hide Gap, Rank, KidStored, DiskTree, KidsOf;
      StoredTree(w, v);
      assert NamesHomes(w, v) && ImageOk(w.shape[v], v);
      var n, full := w.store[v], w.store[v].path[..start] + key;
      assert pi < |key| ==> full[ni] == key[pi];
      if ni < |n.path| || pi == |key| || !n.mask[key[pi]] {
        NoGap(w.shape, cache.Keys, v, full, ni);
      } else {
        assert n.path == n.path[..start] + n.path[start..ni];
        assert full[ni + 1..] == key[pi + 1..];
        GapBelow(w.shape, cache.Keys, v, full, ni + 1);
      }
    }

    lemma SinceThen(hand: set<PromiseId>)
      requires Valid(hand)
      ensures forall p | p in asked :: asked[p].since <= now
    {
    }

    /** Goes on at a child: from the cache, or when its read comes back. */
    method GoDown(p: PromiseId, node: CacheNode, start: nat, offset: Offset, ghost kid: Virtual, key: Key, version: nat, ghost first: nat,
                  onIoThread: bool, ghost hand: set<PromiseId>)
      requires Valid(hand) && p in hand && p in asked && p in promises && promises[p] == None && p in left && left[p] > |key| + 1
      requires DiskOk(w.shape) && Asks(w, asked[p], kid, 0, key) && asked[p].version == version
      requires kid < |w.home| == |w.store| == |w.shape| && offset == w.home[kid]
      requires first < now && version in w.worlds(first).roots && asked[p].since <= first
      modifies this`now, this`inflights, this`pending, this`promises, this`place, this`left
      ensures Valid(hand - {p}) && Lighter(old(left), left, p) && now >= old(now)
      ensures if AllLive(w, version, first, now) then Settled(promises[p], onIoThread, kid !in cache || Gap(w.shape, cache.Keys, kid, key))
              else promises[p].Some? && promises[p].value.res == VersionNoLongerExist
      ensures OnlySet(old(promises), promises, p, onIoThread)
      ensures version !in w.worlds(old(now) + 1).roots || offset !in w.worlds(old(now)).holds ==>
                promises == old(promises)[p := Some(Answer(Some(node), start, VersionNoLongerExist))]
      decreases |key|, 1
    {
      hide Disciplined, Valid, DiskTree, KidsOf, Find, PartOf, Gap, AllLive, InPlace;
      var since := now;
      var virt := Translate(offset, kid, version, first, hand);
      CacheAndTable(hand);
      if virt == None {
        NotSince(w, version, asked[p].since, first, now);
        SetPromise(p, Answer(Some(node), start, VersionNoLongerExist), hand);
        return;
      }
      ghost var mid := now;
      if virt.value in cache {
        assert cache[virt.value].path[..0] + key == key;
        FindFrom(p, cache[virt.value], kid, 0, key, version, onIoThread, hand);
        LiveJoin(w, version, first, mid, now);
      } else {
        AsyncReadWithContinuation(Cont(p, key, TheKey(version)), offset, virt.value, since, onIoThread, hand);
      }
    }

    lemma RootHome(hand: set<PromiseId>, version: nat, t: nat)
      requires Valid(hand) && version in w.worlds(t).roots
      ensures DiskOk(w.shape) && |w.home| == |w.shape| && version in w.rootOf && w.rootOf[version] < |w.shape|
      ensures w.worlds(t).roots[version] == w.home[w.rootOf[version]] && PartOf(w.shape, w.rootOf[version], w.rootOf[version])
    {
      assert Intact(w, t, version);
    }

    /** The name of the child at a place, if its version is still live afterwards. */
    method Translate(offset: Offset, ghost kid: Virtual, version: nat, ghost first: nat, ghost hand: set<PromiseId>) returns (v: Option<Virtual>)
      requires Valid(hand) && DiskOk(w.shape) && kid < |w.home| == |w.shape| && offset == w.home[kid]
      requires version in w.rootOf && w.rootOf[version] < |w.shape| && PartOf(w.shape, w.rootOf[version], kid)
      requires first < now && version in w.worlds(first).roots
      modifies this`now
      ensures Valid(hand) && now == old(now) + 2
      ensures v == None <==> version !in w.worlds(old(now) + 1).roots || offset !in w.worlds(old(now)).holds
      ensures if v == None then !AllLive(w, version, first, now)
              else v == Some(kid) && AllLive(w, version, first, now) && InPlace(w, old(now), kid)
    {
      hide Disciplined, Valid, PartOf, AllLive;
      ghost var since := now;
      v := PhysicalToVirtual(offset, hand);
      var valid := VersionIsValid(version, hand);
      assert Disciplined(w) by {
        CacheAndTable(hand);
      }
      if valid {
        StillInPlace(w, version, first, since, now - 1, kid);
        LiveBetween(w, version, first, now - 1);
      } else {
        NotLive(w, version, first, now - 1, now);
        v := None;
      }
    }

    lemma CacheAndTable(hand: set<PromiseId>)
      requires Valid(hand)
      ensures Disciplined(w) && DiskOk(w.shape) && |w.store| == |w.shape| == |w.home|
      ensures forall v | v in cache :: v < |w.store| && cache[v] == w.store[v] && v !in inflights
    {
    }

    /** A request for the root of a version. */
    method LoadRoot(p: PromiseId, version: nat, onIoThread: bool)
      requires Valid({}) && p !in promises
      modifies this`now, this`inflights, this`pending, this`promises, this`asked, this`place, this`left
      ensures Valid({}) && asked == old(asked)[p := AskedRoot(version, old(now))]
      ensures promises.Keys == old(promises).Keys + {p} && forall q | q in old(promises) :: promises[q] == old(promises)[q]
      ensures version !in w.worlds(old(now)).roots || version !in w.worlds(old(now) + 2).roots ==> promises[p] == Some(GONE)
      ensures if AllLive(w, version, old(now), now) then RootSettled(promises[p], onIoThread, version) else promises[p] == Some(GONE)
    {
      hide Disciplined, Valid, DiskTree, KidsOf, Find, PartOf, AllLive;
      assert {p} - {p} == {};
      Ask(p, AskedRoot(version, now), 1);
      ghost var first := now;
      var offset := if version in w.worlds(now).roots then Some(w.worlds(now).roots[version]) else None;
      Tick({p});
      if offset == None {
        var valid := VersionIsValid(version, {p});
        NotLive(w, version, first, first, now);
        SetPromise(p, GONE, {p});
      } else {
        ResolveRoot(p, offset.value, version, first, onIoThread);
      }
    }

    /** What a request for a root comes to while its version is live. */
    ghost predicate RootSettled(a: Option<Reply>, onIoThread: bool, version: nat)
      reads this`cache
    {
      && version in w.rootOf && w.rootOf[version] < |w.store|
      && a == if w.rootOf[version] in cache then Some(Answer(Some(w.store[w.rootOf[version]]), 0, Success))
              else if onIoThread then None
              else Some(Answer(None, 0, NeedToContinueInIoThread))
    }

    /** The root's place is known; take the node from the cache, or wait for its read. */
    method ResolveRoot(p: PromiseId, offset: Offset, version: nat, ghost first: nat, onIoThread: bool)
      requires Valid({p}) && p in asked && p in promises && promises[p] == None && asked[p] == AskedRoot(version, first)
      requires first < now && version in w.worlds(first).roots && offset == w.worlds(first).roots[version]
      modifies this`now, this`inflights, this`pending, this`promises, this`place, this`left
      ensures Valid({}) && OnlySet(old(promises), promises, p, onIoThread)
      ensures version !in w.worlds(old(now) + 1).roots || offset !in w.worlds(old(now)).holds ==> promises[p] == Some(GONE)
      ensures if AllLive(w, version, first, now) then RootSettled(promises[p], onIoThread, version) else promises[p] == Some(GONE)
    {
      hide Disciplined, Valid, DiskTree, KidsOf, Find, PartOf, AllLive, InPlace;
      assert {p} - {p} == {};
      var since := now;
      RootHome({p}, version, first);
      var virt := Translate(offset, w.rootOf[version], version, first, {p});
      CacheAndTable({p});
      if virt == None {
        SetPromise(p, GONE, {p});
      } else if virt.value in cache {
        SetPromise(p, Answer(Some(cache[virt.value]), 0, Success), {p});
      } else {
        AsyncReadWithContinuation(Cont(p, [], TheRoot(version)), offset, virt.value, since, onIoThread, {p});
      }
    }

    /** A request for `key` below a node got before, which is write `from` of the trie of `version`. */
    method Request(p: PromiseId, node: Option<CacheNode>, ghost from: Virtual, start: nat, key: Key, version: nat, onIoThread: bool)
      requires Valid({}) && p !in promises && DiskOk(w.shape) && |w.store| == |w.shape|
      requires node.Some? ==> version in w.rootOf && w.rootOf[version] < |w.shape| && from < |w.shape| &&
                              PartOf(w.shape, w.rootOf[version], from) && node.value == w.store[from] && start <= |node.value.path|
      modifies this`now, this`inflights, this`pending, this`promises, this`asked, this`place, this`left
      ensures Valid({})
      ensures asked == old(asked)[p := AskedKey(version, if node.Some? then Some(from) else None, start, key, old(now))]
      ensures promises.Keys == old(promises).Keys + {p} && forall q | q in old(promises) :: promises[q] == old(promises)[q]
      ensures node.Some? ==>
                if AllLive(w, version, old(now), now) then
                  Settled(promises[p], onIoThread, Gap(w.shape, cache.Keys, from, node.value.path[..start] + key))
                else promises[p].Some? && promises[p].value.res == VersionNoLongerExist
      ensures version !in w.worlds(old(now)).roots ==>
                promises[p] == Some(if node.Some? then Answer(node, start, VersionNoLongerExist) else GONE)
      ensures node.None? && version in w.worlds(old(now)).roots ==> promises[p] == Some(Answer(None, 0, RootNodeIsNull))
    {
      hide Disciplined, Valid, DiskTree, KidsOf, Find, PartOf;
      assert {p} - {p} == {};
      Ask(p, AskedKey(version, if node.Some? then Some(from) else None, start, key, now), |key| + 1);
      if node == None {
        ghost var first := now;
        var valid := VersionIsValid(version, {p});
        if !valid {
          NotLive(w, version, first, first, now);
        }
        SetPromise(p, Answer(None, 0, if valid then RootNodeIsNull else VersionNoLongerExist), {p});
      } else {
        CacheAndTable({p});
        StoredTree(w, from);
        FindFrom(p, node.value, from, start, key, version, onIoThread, {p});
      }
    }

    /** A new promise, in hand. */
    method Ask(p: PromiseId, ghost q: Question, ghost weight: nat)
      requires Valid({}) && p !in promises && weight > 0 && q.since <= now
      modifies this`promises, this`asked, this`left
      ensures Valid({p}) && asked == old(asked)[p := q] && promises == old(promises)[p := None] && left == old(left)[p := weight]
    {
      AskKeeps(p, q, weight);
      hide Disciplined, ReadsOk, CacheOk, AllOnTrack, OneContEach, AllRight;
      promises := promises[p := None];
      asked, left := asked[p := q], left[p := weight];
    }

    lemma AskKeeps(p: PromiseId, q: Question, weight: nat)
      requires Valid({}) && p !in promises && weight > 0 && q.since <= now
      ensures OneContEach(inflights, promises[p := None], place, left[p := weight], {p})
      ensures DiskOk(w.shape) && |w.store| == |w.shape|
      ensures AllOnTrack(w, inflights, asked[p := q]) && AllRight(w, promises[p := None], asked[p := q], now)
    {
      hide ReadsOk, CacheOk, Asks, Right;
      var promises', left' := promises[p := None], left[p := weight];
      forall r ensures Unset(promises', r) <==> r in place || r == p {
        assert r != p ==> (Unset(promises', r) <==> Unset(promises, r));
      }
      forall o, i | o in inflights && 0 <= i < |inflights[o]|
        ensures HeldAt(inflights, place, left', o, i) && OnTrack(w, inflights[o][i], o, asked[p := q])
      {
        assert HeldAt(inflights, place, left, o, i) && OnTrack(w, inflights[o][i], o, asked);
        assert Unset(promises, inflights[o][i].promise);
      }
    }

    /** Read `k` comes back with what its place held at moment `when`. Unless the place has been reused since the
        read was decided on, the node goes into the cache, which may drop others, and everybody waiting goes on. */
    method SetValue(k: nat, when: nat, kept: set<Virtual>)
      requires Valid({}) && k < |pending| && pending[k].origin.since <= when <= now
      modifies this`now, this`cache, this`inflights, this`pending, this`promises, this`place, this`left, this`refused
      ensures Valid({}) && asked == old(asked) && Sum(left) < old(Sum(left)) && OthersKept(old(promises), promises)
      ensures var r := old(pending[k]); var holds := w.worlds(old(now)).holds;
              if r.origin.offset in holds && holds[r.origin.offset] == r.key
              then r.key < |w.store| && cache == Inserted(old(cache), kept, r.key, w.store[r.key]) && refused == old(refused)
              else r.key in old(inflights) && cache == old(cache)
                   && (forall j | 0 <= j < |old(inflights)[r.key]| :: Gone(promises, old(inflights)[r.key][j].promise))
                   && refused == old(refused) + Promised(old(inflights)[r.key], 0)
      ensures old(Told()) ==> Told()
    {
      hide Disciplined, Valid, Sum, Ready, OthersKept, OneContEach, ReadsOk, Stale, Promised;
      var r := pending[k];
      PendingIsOk(k);
      ghost var t := now;
      SinceThen({});
      var after := PhysicalToVirtual(r.origin.offset, {});
      PendingIsOk(k);
      var start: Option<CacheNode> := None;
      if after == Some(r.key) {
        ContentIs(w, r, when, t);
        start := Some(w.store[w.worlds(when).holds[r.origin.offset]]);
      } else {
        StaleForAll(r, t);
      }
      var conts := Arrive(k, start, kept);
      GoOn(conts, r.key, start);
      StillTold(old(promises), promises, refused);
      if start == None {
        AllGone(promises, conts);
        refused := refused + Promised(conts, 0);
      }
    }

    lemma PendingIsOk(k: nat)
      requires Valid({}) && k < |pending|
      ensures Disciplined(w) && ReadOk(w, pending[k], now) && pending[k].key in inflights && inflights[pending[k].key] != []
      ensures pending[k].key !in cache
    {
      OthersOk(w, pending, inflights.Keys, now, k);
    }

    /** The node is cached, the read and its continuations leave the tables. */
    method Arrive(k: nat, start: Option<CacheNode>, kept: set<Virtual>) returns (conts: seq<Cont<Goal>>)
      requires Valid({}) && k < |pending| && pending[k].key in inflights
      requires start.Some? ==> pending[k].key < |w.store| && start == Some(w.store[pending[k].key])
      requires start.None? ==> Stale(w, inflights[pending[k].key], asked, now)
      modifies this`cache, this`inflights, this`pending, this`place
      ensures conts == old(inflights[pending[k].key]) && conts != []
      ensures Valid(Promised(conts, 0)) && DiskOk(w.shape) && Ready(w, conts, 0, old(pending[k].key), left, promises, asked)
      ensures start.None? ==> Stale(w, conts, asked, now) && cache == old(cache)
      ensures start.Some? ==> cache == Inserted(old(cache), kept, old(pending[k].key), start.value)
    {
      hide Disciplined, DiskOk, Stale, AllRight, AllOnTrack, OneContEach, ReadsOk, Ready, CacheOk, Inserted, Elsewhere, Promised,
           HeldAt, Unset;
      ShapeIsOk(w);
      var v := pending[k].key;
      TakenAreReady(w, inflights, promises, place, left, asked, v);
      TakeKeeps(inflights, promises, place, left, v);
      OthersOk(w, pending, inflights.Keys, now, k);
      if start.Some? {
        assert v !in cache;
        InsertKeeps(w, cache, kept, v);
        cache := Inserted(cache, kept, v, start.value);
      }
      conts := inflights[v];
      ghost var keys := inflights.Keys;
      pending := pending[..k] + pending[k + 1..];
      place := Elsewhere(place, v);
      inflights := inflights - {v};
      assert inflights.Keys == keys - {v};
    }

    lemma StaleForAll(r: Read<Source>, t: nat)
      requires Valid({}) && r.key in inflights && r.key < |w.home| && t < now && forall p | p in asked :: asked[p].since <= t
      requires r.origin.offset == w.home[r.key] && !InPlace(w, t, r.key)
      ensures Stale(w, inflights[r.key], asked, now)
    {
      hide AllRight, OneContEach, ReadsOk, Asks, CacheOk, AllLive;
      forall i | 0 <= i < |inflights[r.key]| ensures Overdue(w, inflights[r.key][i], asked, now) {
        var c := inflights[r.key][i];
        assert OnTrack(w, c, r.key, asked) && Intact(w, t, c.goal.version);
        NeedsIt(w, c, r.key, asked);
        NotLive(w, c.goal.version, asked[c.promise].since, t, now);
      }
    }

    /** Runs the continuations one after the other; without a node they learn that their version is gone. */
    method GoOn(conts: seq<Cont<Goal>>, ghost v: Virtual, start: Option<CacheNode>)
      requires conts != [] && Valid(Promised(conts, 0)) && DiskOk(w.shape) && Ready(w, conts, 0, v, left, promises, asked)
      requires if start.Some? then v < |w.store| && start == Some(w.store[v]) else Stale(w, conts, asked, now)
      modifies this`now, this`inflights, this`pending, this`promises, this`place, this`left
      ensures Valid({}) && OthersKept(old(promises), promises) && Sum(left) < old(Sum(left))
      ensures start == None ==> forall j | 0 <= j < |conts| :: Gone(promises, conts[j].promise)
    {
      hide Disciplined, Valid, Sum, Promised, Asks;
      for i := 0 to |conts|
        invariant Valid(Promised(conts, i)) && Ready(w, conts, i, v, left, promises, asked) && now >= old(now)
        invariant OthersKept(old(promises), promises)
        invariant start == None ==> forall j | 0 <= j < i :: Gone(promises, conts[j].promise)
        invariant if i == 0 then Sum(left) == old(Sum(left)) else Sum(left) < old(Sum(left))
      {
        var c := conts[i];
        ghost var before := left;
        PromisedStep(conts, i);
        Resume(c, v, start, Promised(conts, i));
        LighterSum(before, left, c.promise);
        OthersStay(before, left, c.promise);
      }
      PromisedStep(conts, |conts|);
    }

    /** One continuation. */
    method Resume(c: Cont<Goal>, ghost v: Virtual, start: Option<CacheNode>, ghost hand: set<PromiseId>)
      requires Valid(hand) && c.promise in hand && c.promise in promises && promises[c.promise] == None
      requires c.promise in left && left[c.promise] > |c.key|
      requires DiskOk(w.shape) && OnTrack(w, c, v, asked)
      requires if start.Some? then v < |w.store| && start == Some(w.store[v]) else Overdue(w, c, asked, now)
      modifies this`now, this`inflights, this`pending, this`promises, this`place, this`left
      ensures Valid(hand - {c.promise}) && Lighter(old(left), left, c.promise) && now >= old(now)
      ensures OnlySet(old(promises), promises, c.promise, true)
      ensures start == None ==> promises == old(promises)[c.promise := Some(GONE)]
    {
      hide Disciplined, Valid, Asks;
      CacheAndTable(hand);
      if start == None {
        SetPromise(c.promise, GONE, hand);
      } else {
        match c.goal {
          case TheRoot(_) => SetPromise(c.promise, Answer(start, 0, Success), hand);
          case TheKey(version) => FindFrom(c.promise, start.value, v, 0, c.key, version, true, hand);
        }
      }
    }

    /** Lets every read come back: then every promise has its answer. */
    method Drain(pick: nat -> nat, when: nat -> nat, kept: nat -> set<Virtual>)
      requires Valid({})
      modifies this`now, this`cache, this`inflights, this`pending, this`promises, this`place, this`left, this`refused
      ensures Valid({}) && pending == [] && asked == old(asked)
      ensures DiskOk(w.shape) && |w.store| == |w.shape|
      ensures forall p | p in promises :: promises[p].Some? && Right(w, asked[p], promises[p].value, now)
      ensures OthersKept(old(promises), promises)
      ensures old(refused) <= refused && (old(Told()) ==> Told())
    {
      hide Disciplined, OneContEach, AllOnTrack, Right, Sum, CacheOk, ReadOk, OneReadEach, Told, Promised;
      var turn := 0;
      while pending != []
        invariant Valid({}) && asked == old(asked) && OthersKept(old(promises), promises)
        invariant old(refused) <= refused && (old(Told()) ==> Told())
        decreases Sum(left)
      {
        var k := pick(turn) % |pending|;
        PendingIsOk(k);
        var since := pending[k].origin.since;
        SetValue(k, since + when(turn) % (now - since + 1), kept(turn));
        turn := turn + 1;
      }
      ShapeIsOk(w);
      NoReads(pending, inflights.Keys);
      NobodyWaits(inflights, promises, place, left);
    }
  }

  /** The continuations from `i` on are in hand, each for a promise of its own. */
  ghost predicate Ready(w: Writer, conts: seq<Cont<Goal>>, i: nat, v: Virtual, left: map<PromiseId, nat>,
                        promises: Promises<Reply>, asked: map<PromiseId, Question>)
    requires DiskOk(w.shape)
  {
    && (forall j | i <= j < |conts| :: conts[j].promise in left && left[conts[j].promise] == |conts[j].key| + 1
          && Unset(promises, conts[j].promise) && OnTrack(w, conts[j], v, asked))
    && forall j, l | i <= j < l < |conts| :: conts[j].promise != conts[l].promise
  }

  lemma TakenAreReady(w: Writer, table: Table<Goal>, promises: Promises<Reply>, place: Places, left: map<PromiseId, nat>,
                      asked: map<PromiseId, Question>, v: Virtual)
    requires DiskOk(w.shape) && OneContEach(table, promises, place, left, {}) && AllOnTrack(w, table, asked) && v in table
    ensures Ready(w, table[v], 0, v, left, promises, asked) && table[v] != []
    ensures AllOnTrack(w, table - {v}, asked)
  {
    hide OnTrack;
    TakeKeeps(table, promises, place, left, v);
  }

  /** No version that these continuations work for is live any more. */
  ghost predicate Stale(w: Writer, conts: seq<Cont<Goal>>, asked: map<PromiseId, Question>, now: nat) {
    forall i | 0 <= i < |conts| :: Overdue(w, conts[i], asked, now)
  }

  ghost predicate Overdue(w: Writer, c: Cont<Goal>, asked: map<PromiseId, Question>, now: nat) {
    c.promise in asked && Expired(w, asked[c.promise], now)
  }

  predicate Gone(promises: Promises<Reply>, p: PromiseId) {
    p in promises && promises[p] == Some(GONE)
  }

  lemma AllGone(promises: Promises<Reply>, conts: seq<Cont<Goal>>)
    requires forall j | 0 <= j < |conts| :: Gone(promises, conts[j].promise)
    ensures forall p | p in Promised(conts, 0) :: Gone(promises, p)
  {
  }

  /** A promise once set keeps its answer. */
  lemma StillTold(before: Promises<Reply>, after: Promises<Reply>, refused: set<PromiseId>)
    requires OthersKept(before, after)
    ensures forall p | p in refused && Gone(before, p) :: Gone(after, p)
  {
  }

  /** The cache with one more node; others may have been dropped. */
  function Inserted(cache: map<Virtual, CacheNode>, kept: set<Virtual>, v: Virtual, n: CacheNode): map<Virtual, CacheNode> {
    (map u | u in cache && u in kept :: cache[u])[v := n]
  }

  lemma InsertKeeps(w: Writer, cache: map<Virtual, CacheNode>, kept: set<Virtual>, v: Virtual)
    requires CacheOk(w, cache) && v < |w.store|
    ensures CacheOk(w, Inserted(cache, kept, v, w.store[v])) && Inserted(cache, kept, v, w.store[v]).Keys <= cache.Keys + {v}
  {
  }

  /** What a continuation waits for belongs to its version. */
  lemma NeedsIt(w: Writer, c: Cont<Goal>, v: Virtual, asked: map<PromiseId, Question>)
    requires DiskOk(w.shape) && OnTrack(w, c, v, asked)
    ensures c.goal.version in w.rootOf && w.rootOf[c.goal.version] < |w.shape| && PartOf(w.shape, w.rootOf[c.goal.version], v)
  {
  }

  /** A place that held the write when the read was decided on and when it came back held it in between. */
  lemma ContentIs(w: Writer, r: Read<Source>, when: nat, t: nat)
    requires Disciplined(w) && r.key < |w.home| && r.origin.offset == w.home[r.key] && r.origin.since <= when <= t
    requires InPlace(w, r.origin.since, r.key) && InPlace(w, t, r.key)
    ensures |w.store| == |w.home| && r.origin.offset in w.worlds(when).holds && w.worlds(when).holds[r.origin.offset] == r.key
  {
    assert InPlace(w, when, r.key);
  }

  /** A version live before and after needed the write in between. */
  lemma StillInPlace(w: Writer, version: nat, before: nat, t: nat, after: nat, v: Virtual)
    requires Disciplined(w) && before <= t <= after
    requires version in w.worlds(before).roots && version in w.worlds(after).roots
    requires version in w.rootOf && w.rootOf[version] < |w.shape| && v < |w.home| && PartOf(w.shape, w.rootOf[version], v)
    ensures InPlace(w, t, v)
  {
    assert version in w.worlds(t).roots;
    assert Intact(w, t, version);
  }

  /** What a stored node says about its children. */
  lemma StoredTree(w: Writer, v: Virtual)
    requires Disciplined(w) && v < |w.store|
    ensures DiskOk(w.shape) && |w.store| == |w.shape| == |w.home|
    ensures var n, t := w.store[v], DiskTree(w.shape, v);
      && t.path == n.path == w.shape[v].path && |n.mask| == BRANCHES
      && forall b: Nibble :: (n.mask[b] <==> Kid(t, b).Some?) && (n.mask[b] ==> KidStored(w, v, b))
  {
    assert NamesHomes(w, v) && ImageOk(w.shape[v], v);
    forall b: Nibble ensures (w.store[v].mask[b] ==> KidStored(w, v, b)) {
      if w.store[v].mask[b] {
        RankMono(w.store[v].mask, b, BRANCHES);
      }
    }
  }

  ghost predicate KidStored(w: Writer, v: Virtual, b: Nibble)
    requires DiskOk(w.shape) && v < |w.store| && |w.store| == |w.shape| == |w.home| && |w.store[v].mask| == BRANCHES
  {
    var i := Rank(w.store[v].mask, b);
    && i < |w.store[v].fnext| == |w.shape[v].fnext| && w.shape[v].fnext[i] < v
    && w.store[v].fnext[i] == w.home[w.shape[v].fnext[i]]
    && Kid(DiskTree(w.shape, v), b) == Some(DiskTree(w.shape, w.shape[v].fnext[i]))
  }

  lemma ShapeIsOk(w: Writer)
    requires Disciplined(w)
    ensures DiskOk(w.shape) && |w.store| == |w.shape| == |w.home|
  {
  }

  lemma OthersOk(w: Writer, rs: seq<Read<Source>>, keys: set<Virtual>, now: nat, k: nat)
    requires ReadsOk(w, rs, keys, now) && k < |rs|
    ensures rs[k].key in keys && ReadsOk(w, rs[..k] + rs[k + 1..], keys - {rs[k].key}, now)
  {
    hide ReadOk, OneReadEach;
    ReadTaken(rs, keys, k);
  }

  lemma OneMoreOk(w: Writer, rs: seq<Read<Source>>, keys: set<Virtual>, now: nat, r: Read<Source>)
    requires ReadsOk(w, rs, keys, now) && ReadOk(w, r, now) && r.key !in keys
    ensures ReadsOk(w, rs + [r], keys + {r.key}, now)
  {
    hide ReadOk, OneReadEach;
    ReadAdded(rs, keys, r);
  }

  lemma StoreOnTrack(w: Writer, table: Table<Goal>, asked: map<PromiseId, Question>, v: Virtual, c: Cont<Goal>)
    requires DiskOk(w.shape) && AllOnTrack(w, table, asked) && OnTrack(w, c, v, asked)
    ensures AllOnTrack(w, Stored(table, v, c), asked)
  {
    hide Asks;
  }
}
