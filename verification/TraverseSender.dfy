/** The parallel walk: reads complete in any order, at most `max` are in flight, the others wait in
    buckets by priority. */
module TraverseSender {
  import opened Trie
  import opened TrieHeap
  import opened TraverseUtil
  import opened Traverse

  /** How many children of a node get extra priority. */
  const LEFT_SIDE := 3
  const INITIAL_BUCKETS := 20
  const MAX_LEVEL := 256

  /** A read to be made, with the clone of the machine that will go on from it. */
  datatype Receiver = Receiver(branch: Nibble, offset: Offset, level: nat, path: Key)

  /** The waiting reads in the order they will be started: highest bucket first, each bucket in order of arrival. */
  function Queue(buckets: seq<seq<Receiver>>): (q: seq<Receiver>) {
    if buckets == [] then [] else buckets[|buckets| - 1] + Queue(buckets[..|buckets| - 1])
  }

  lemma {:induction false} QueueSplit(buckets: seq<seq<Receiver>>, p: nat)
    requires p <= |buckets|
    ensures Queue(buckets) == Queue(buckets[p..]) + Queue(buckets[..p])
    decreases |buckets|
  {
    var n := |buckets|;
    if p == n {
      assert buckets[..p] == buckets;
    } else {
      QueueSplit(buckets[..n - 1], p);
      assert buckets[..n - 1][p..] == buckets[p..][..n - 1 - p] && buckets[..n - 1][..p] == buckets[..p];
    }
  }

  lemma {:induction false} QueueEmpty(buckets: seq<seq<Receiver>>)
    requires forall j | 0 <= j < |buckets| :: buckets[j] == []
    ensures Queue(buckets) == []
  {
    if buckets != [] {
      QueueEmpty(buckets[..|buckets| - 1]);
    }
  }

  lemma {:induction false} QueueIsEmptyOnly(buckets: seq<seq<Receiver>>, j: nat)
    requires Queue(buckets) == [] && j < |buckets|
    ensures buckets[j] == []
  {
    if j < |buckets| - 1 {
      QueueIsEmptyOnly(buckets[..|buckets| - 1], j);
    }
  }

  /** The front of the highest non-empty bucket is the front of the queue. */
  lemma QueuePop(buckets: seq<seq<Receiver>>, i: nat)
    requires i < |buckets| && buckets[i] != []
    requires forall j | i < j < |buckets| :: buckets[j] == []
    ensures Queue(buckets) == [buckets[i][0]] + Queue(buckets[i := buckets[i][1..]])
  {
    var after := buckets[i := buckets[i][1..]];
    QueueSplit(buckets, i + 1);
    QueueSplit(after, i + 1);
    QueueEmpty(buckets[i + 1..]);
    assert after[i + 1..] == buckets[i + 1..];
    assert buckets[..i + 1][..i] == buckets[..i] == after[..i + 1][..i];
  }

  /** The bucket vector made long enough. */
  function Sized(buckets: seq<seq<Receiver>>, n: nat): (r: seq<seq<Receiver>>)
    ensures |r| >= n && |r| >= |buckets|
    ensures forall j | 0 <= j < |r| :: r[j] == if j < |buckets| then buckets[j] else []
  {
    if n <= |buckets| then buckets else buckets + seq(n - |buckets|, _ => [])
  }

  /** One more read at the end of its bucket. */
  function Pushed(buckets: seq<seq<Receiver>>, priority: nat, r: Receiver): seq<seq<Receiver>> {
    var s := Sized(buckets, priority + 1);
    s[priority := s[priority] + [r]]
  }

  /** What the reads of a node at `level` are queued by: the first few children get more than the others. */
  function Priority(level: nat, childrenRead: nat): nat {
    level + if childrenRead < LEFT_SIDE then LEFT_SIDE - childrenRead else 0
  }

  /** Reads of one node are queued in the order of its children, and before all reads that are four levels up or more. */
  lemma LeftAndDeepFirst(level: nat, k: nat, above: nat, l: nat)
    ensures k < l ==> Priority(level, k) >= Priority(level, l)
    ensures k < l && k < 3 ==> Priority(level, k) > Priority(level, l)
    ensures above + 3 < level ==> Priority(level, k) > Priority(above, l)
    ensures above < level && (k <= l || l >= 3) ==> Priority(level, k) > Priority(above, l)
    ensures Priority(level, 0) == level + 3 && Priority(level, 3) == level
  {
  }

  lemma SizedQueue(buckets: seq<seq<Receiver>>, n: nat)
    ensures Queue(Sized(buckets, n)) == Queue(buckets)
  {
    var r := Sized(buckets, n);
    QueueSplit(r, |buckets|);
    QueueEmpty(r[|buckets|..]);
    assert r[..|buckets|] == buckets;
  }

  lemma QueuePush(buckets: seq<seq<Receiver>>, p: nat, r: Receiver)
    requires p < |buckets|
    ensures Queue(buckets[p := buckets[p] + [r]]) == Queue(buckets[p..]) + [r] + Queue(buckets[..p])
    ensures Queue(buckets) == Queue(buckets[p..]) + Queue(buckets[..p])
  {
    var after := buckets[p := buckets[p] + [r]];
    QueueSplit(after, p);
    QueueSplit(buckets, p);
    assert after[..p] == buckets[..p];
    QueueSplit(after[p..], 1);
    QueueSplit(buckets[p..], 1);
    assert after[p..][1..] == buckets[p..][1..];
    assert after[p..][..1] == [buckets[p] + [r]] && buckets[p..][..1] == [buckets[p]];
    assert Queue([buckets[p]]) == buckets[p] && Queue([buckets[p] + [r]]) == buckets[p] + [r];
  }

  lemma SplitSame(a: seq<Receiver>, q: seq<Receiver>, b: seq<Receiver>, r: seq<Receiver>)
    requires a + q == b + r && |a| <= |b|
    ensures var k := |b| - |a|; k <= |q| && b == a + q[..k] && r == q[k..]
  {
    var k := |b| - |a|;
    assert |a| + |q| == |b| + |r|;
    assert b == (b + r)[..|b|] == (a + q)[..|b|] && r == (b + r)[|b|..] == (a + q)[|b|..];
  }

  class Scheduler {
    const max: nat
    var outstanding: seq<Receiver>
    var outstandingReads: nat
    var buckets: seq<seq<Receiver>>
    var sidx: nat
    var eidx: nat
    var count: nat

    /** Non-empty buckets lie in (sidx, eidx], the counters are right, and the limit is kept. */
    ghost predicate Window()
      reads this
    {
      && outstandingReads == |outstanding| <= max
      && count == |Queue(buckets)|
      && (eidx == 0 <==> count == 0) && (eidx == 0 ==> sidx == 0)
      && (eidx > 0 ==> sidx < eidx < |buckets|)
      && forall j | 0 <= j < |buckets| :: buckets[j] != [] ==> sidx < j <= eidx
    }

    /** Nothing waits while there is room. */
    ghost predicate Busy()
      reads this
    {
      count > 0 ==> outstandingReads == max
    }

    constructor (max: nat)
      ensures this.max == max && Window() && Busy() && outstanding == [] && Queue(buckets) == []
    {
      this.max := max;
      outstanding, outstandingReads := [], 0;
      buckets := Sized([], INITIAL_BUCKETS);
      sidx, eidx, count := 0, 0, 0;
      QueueEmpty(Sized([], INITIAL_BUCKETS));
    }

    /** Starts waiting reads, in order, as far as the limit allows. */
    method InitiatePendingReads()
      requires Window()
      modifies this
      ensures Window() && Busy()
      ensures var q := old(Queue(buckets)); var k := if max - old(|outstanding|) <= |q| then max - old(|outstanding|) else |q|;
              outstanding == old(outstanding) + q[..k] && Queue(buckets) == q[k..]
    {
      hide Queue;
      ghost var out, q := outstanding, Queue(buckets);
      StartWaiting();
      if count == 0 {
        sidx, eidx := 0, 0;
        forall j | 0 <= j < |buckets| ensures buckets[j] == [] {
          QueueIsEmptyOnly(buckets, j);
        }
      } else if eidx <= sidx {
        QueueEmpty(buckets);
      }
      SplitSame(out, q, outstanding, Queue(buckets));
    }

    /** The loop over the buckets, from the highest one down. */
    method StartWaiting()
      requires Window()
      modifies `outstanding, `outstandingReads, `buckets, `count, `eidx
      ensures outstandingReads == |outstanding| <= max && count == |Queue(buckets)| && (eidx == 0 || eidx < |buckets|)
      ensures forall j | 0 <= j < |buckets| :: buckets[j] != [] ==> sidx < j <= eidx
      ensures outstanding + Queue(buckets) == old(outstanding + Queue(buckets)) && |outstanding| >= |old(outstanding)|
      ensures outstandingReads < max ==> Queue(buckets) == []
    {
      hide Queue;
      var idx := eidx;
      while outstandingReads < max && idx > sidx
        invariant sidx <= idx <= eidx && (outstandingReads < max ==> idx == eidx)
        invariant outstandingReads == |outstanding| <= max && count == |Queue(buckets)|
        invariant eidx == 0 || eidx < |buckets|
        invariant forall j | 0 <= j < |buckets| :: buckets[j] != [] ==> sidx < j <= eidx
        invariant outstanding + Queue(buckets) == old(outstanding + Queue(buckets)) && |outstanding| >= |old(outstanding)|
        decreases idx
      {
        DrainBucket(idx);
        if buckets[idx] == [] && idx == eidx {
          eidx := eidx - 1;
        }
        idx := idx - 1;
      }
      if outstandingReads < max {
        QueueEmpty(buckets);
      }
    }

    /** The inner loop of InitiatePendingReads. */
    method DrainBucket(idx: nat)
      requires 0 < idx < |buckets| && outstandingReads == |outstanding| <= max && count == |Queue(buckets)|
      requires forall j | idx < j < |buckets| :: buckets[j] == []
      modifies `outstanding, `outstandingReads, `buckets, `count
      ensures outstandingReads == |outstanding| <= max && count == |Queue(buckets)| && |buckets| == |old(buckets)|
      ensures outstandingReads == max || buckets[idx] == []
      ensures forall j | 0 <= j < |buckets| && j != idx :: buckets[j] == old(buckets)[j]
      ensures outstanding + Queue(buckets) == old(outstanding + Queue(buckets)) && |outstanding| >= |old(outstanding)|
    {
      while outstandingReads < max && buckets[idx] != []
        invariant |buckets| == |old(buckets)| && outstandingReads == |outstanding| <= max && count == |Queue(buckets)|
        invariant forall j | 0 <= j < |buckets| && j != idx :: buckets[j] == old(buckets)[j]
        invariant outstanding + Queue(buckets) == old(outstanding + Queue(buckets)) && |outstanding| >= |old(outstanding)|
        decreases |buckets[idx]|
      {
        QueuePop(buckets, idx);
        outstanding := outstanding + [buckets[idx][0]];
        outstandingReads := outstandingReads + 1;
        buckets := buckets[idx := buckets[idx][1..]];
        count := count - 1;
      }
    }

    /** Puts a read into its bucket: behind everything of at least its priority, before the rest. */
    method Enqueue(priority: nat, r: Receiver)
      requires Window() && priority > 0
      modifies `buckets, `sidx, `eidx, `count
      ensures Window() && buckets == Pushed(old(buckets), priority, r)
      ensures Queue(buckets) == Queue(Sized(old(buckets), priority + 1)[priority..]) + [r] + Queue(Sized(old(buckets), priority + 1)[..priority])
      ensures old(Queue(buckets)) == Queue(Sized(old(buckets), priority + 1)[priority..]) + Queue(Sized(old(buckets), priority + 1)[..priority])
    {
      hide Queue;
      MakeRoom(priority);
      QueuePush(buckets, priority, r);
      buckets := buckets[priority := buckets[priority] + [r]];
      count := count + 1;
    }

    /** Grows the vector and the window so that bucket `priority` is inside. */
    method MakeRoom(priority: nat)
      requires Window() && priority > 0
      modifies `buckets, `sidx, `eidx
      ensures buckets == Sized(old(buckets), priority + 1) && Queue(buckets) == old(Queue(buckets))
      ensures sidx < priority <= eidx < |buckets|
      ensures forall j | 0 <= j < |buckets| :: buckets[j] != [] ==> sidx < j <= eidx
    {
      hide Queue;
      if eidx == 0 {
        forall j | 0 <= j < |buckets| ensures buckets[j] == [] {
          QueueIsEmptyOnly(buckets, j);
        }
      }
      SizedQueue(buckets, priority + 1);
      if priority >= |buckets| {
        buckets := Sized(buckets, priority + 1);
      }
      if priority > eidx {
        if eidx == 0 {
          sidx := priority - 1;
        }
        eidx := priority;
      }
      if priority <= sidx {
        sidx := priority - 1;
      }
    }

    method Start(r: Receiver)
      requires Window() && outstandingReads < max
      modifies `outstanding, `outstandingReads
      ensures Window() && outstanding == old(outstanding) + [r]
    {
      outstanding, outstandingReads := outstanding + [r], outstandingReads + 1;
    }

    /** Forgets every waiting read. */
    method Clear()
      requires Window()
      modifies `buckets, `sidx, `eidx, `count
      ensures Window() && Queue(buckets) == []
    {
      buckets, sidx, eidx, count := [], 0, 0, 0;
    }

    method Complete(k: nat) returns (r: Receiver)
      requires Window() && k < |outstanding|
      modifies `outstanding, `outstandingReads
      ensures Window() && r == old(outstanding)[k]
      ensures outstanding == old(outstanding)[..k] + old(outstanding)[k + 1..]
    {
      r := outstanding[k];
      outstanding, outstandingReads := outstanding[..k] + outstanding[k + 1..], outstandingReads - 1;
    }
  }
}
