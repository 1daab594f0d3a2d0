/** The bounded priority queue of offline messages, one producer at a time (offlinemsgcache.c). */
module OfflineQueue {
  import opened Arith

  datatype Entry = Entry(priority: int, timestamp: int)

  const INT_MAX: int := 0x7fff_ffff

  /** The priorities are C ints. */
  predicate Fits(q: seq<Entry>) {
    forall i :: 0 <= i < |q| ==> q[i].priority <= INT_MAX
  }

  // ----- What one enqueue does to the queue -----

  predicate Admissible(q: seq<Entry>, capacity: int, priority: int) {
    |q| < capacity || exists i :: 0 <= i < |q| && q[i].priority <= priority
  }

  /** Position k holds the oldest entry of the lowest priority. */
  predicate IsVictim(q: seq<Entry>, k: int) {
    && 0 <= k < |q|
    && (forall j :: 0 <= j < |q| ==> q[k].priority <= q[j].priority)
    && (forall j :: 0 <= j < k ==> q[k].priority < q[j].priority)
  }

  function Victim(q: seq<Entry>): (k: nat)
    requires |q| > 0
    ensures k < |q| && IsVictim(q, k)
  {
    var last := |q| - 1;
    if last == 0 then 0 else
      var k := Victim(q[..last]);
      assert forall j :: 0 <= j < last ==> q[..last][j] == q[j];
      if q[last].priority < q[k].priority then last else k
  }

  /** The queue after as many evictions as make room for one entry. */
  function Trimmed(q: seq<Entry>, capacity: int): (r: seq<Entry>)
    requires capacity >= 1
    ensures |r| == Min(|q|, capacity - 1)
    decreases |q|
  {
    if |q| < capacity then q else Trimmed(RemoveAt(q, Victim(q)), capacity)
  }

  /** An attempt to enqueue: the message, its header, and what writing its file reported. */
  datatype Offer = Offer(message: string, entry: Entry, written: nat)

  predicate Acceptable(o: Offer) {
    o.entry.timestamp > 0 && o.message != "" && o.written != 0
  }

  datatype Books = Books(queue: seq<Entry>, discarded: nat)

  function Offered(s: Books, capacity: int, o: Offer): (r: Books)
    requires capacity >= 1
    ensures |r.queue| <= if |s.queue| <= capacity then capacity else |s.queue|
    // Nothing is lost uncounted.
    ensures Acceptable(o) ==> |r.queue| + r.discarded == |s.queue| + s.discarded + 1
  {
    if !Admissible(s.queue, capacity, o.entry.priority) then s.(discarded := s.discarded + 1)
    else if !Acceptable(o) then s
    else
      var room := Trimmed(s.queue, capacity);
      Books(room + [o.entry], s.discarded + |s.queue| - |room|)
  }

  // ----- The queue as the program keeps it -----

  class Cache {
    var queue: seq<Entry>
    var discarded: nat
    var capacity: int

    constructor (capacity: int)
      ensures queue == [] && discarded == 0 && this.capacity == capacity
    {
      queue, discarded, this.capacity := [], 0, capacity;
    }

    function Account(): Books
      reads this
    {
      Books(queue, discarded)
    }

    /** can_message_enter_offine_queue */
    method CanEnter(priority: int) returns (ok: bool)
      ensures ok == Admissible(queue, capacity, priority)
    {
      if |queue| < capacity {
        return true;
      }
      var i := 0;
      while i < |queue|
        invariant 0 <= i <= |queue|
        invariant forall j :: 0 <= j < i ==> priority < queue[j].priority
      {
        if queue[i].priority <= priority {
          return true;
        }
        i := i + 1;
      }
      return false;
    }

    /** remove_one_lowest_priority_message: one pass for the lowest priority, one for its first holder. */
    method RemoveOneLowest()
      requires Fits(queue)
      modifies this`queue, this`discarded
      ensures old(queue) == [] ==> unchanged(this)
      ensures old(queue) != [] ==>
        queue == RemoveAt(old(queue), Victim(old(queue))) && discarded == old(discarded) + 1
    {
      var lowest, i := INT_MAX, 0;
      while i < |queue|
        invariant 0 <= i <= |queue| && lowest <= INT_MAX
        invariant forall j :: 0 <= j < i ==> lowest <= queue[j].priority
        invariant lowest == INT_MAX || exists j :: 0 <= j < i && queue[j].priority == lowest
      {
        if queue[i].priority < lowest {
          lowest := queue[i].priority;
        }
        i := i + 1;
      }
      assert queue != [] ==> exists j :: 0 <= j < |queue| && queue[j].priority == lowest by {
        if queue != [] && lowest == INT_MAX {
          assert queue[0].priority == lowest;
        }
      }
      var k := 0;
      while k < |queue| && queue[k].priority != lowest
        invariant 0 <= k <= |queue|
        invariant forall j :: 0 <= j < k ==> queue[j].priority != lowest
      {
        k := k + 1;
      }
      if k < |queue| {
        VictimUnique(queue, k);
        queue, discarded := RemoveAt(queue, k), discarded + 1;
      }
    }

    /** cache_offline_message; write_file_string's unsigned result is compared with zero only. */
    method Enqueue(o: Offer) returns (ok: bool)
      requires capacity >= 1 && Fits(queue) && o.entry.priority <= INT_MAX
      modifies this`queue, this`discarded
      ensures Account() == Offered(old(Account()), capacity, o)
      ensures ok == (Admissible(old(queue), capacity, o.entry.priority) && Acceptable(o))
      ensures Fits(queue)
    {
      var enters := CanEnter(o.entry.priority);
      if !enters {
        discarded := discarded + 1;
        return false;
      }
      if o.entry.timestamp <= 0 || o.message == "" || o.written == 0 {
        return false;
      }
      while |queue| >= capacity
        invariant Trimmed(queue, capacity) == Trimmed(old(queue), capacity)
        invariant |queue| + discarded == |old(queue)| + old(discarded)
        invariant Fits(queue)
        decreases |queue|
      {
        RemoveOneLowest();
      }
      queue := queue + [o.entry];
      return true;
    }
  }

  lemma VictimUnique(q: seq<Entry>, k: nat)
    requires IsVictim(q, k)
    ensures Victim(q) == k
  {
    var v := Victim(q);
    assert q[v].priority == q[k].priority;
  }

  // ----- The queue is the best of everything that ever arrived -----

  function Run(offers: seq<Offer>, capacity: int): (s: Books)
    requires capacity >= 1
    ensures |s.queue| <= capacity
  {
    if offers == [] then Books([], 0)
    else Offered(Run(offers[..|offers| - 1], capacity), capacity, offers[|offers| - 1])
  }

  /** The headers of the acceptable offers, in order of arrival. */
  function Arrivals(offers: seq<Offer>): seq<Entry> {
    if offers == [] then []
    else
      var before, o := Arrivals(offers[..|offers| - 1]), offers[|offers| - 1];
      if Acceptable(o) then before + [o.entry] else before
  }

  /** Higher priority first, later arrival first among equals. */
  predicate Outranks(all: seq<Entry>, i: nat, j: nat)
    requires i < |all| && j < |all|
  {
    all[i].priority > all[j].priority || (all[i].priority == all[j].priority && i > j)
  }

  predicate Increasing(picks: seq<nat>, n: nat) {
    && (forall i :: 0 <= i < |picks| ==> picks[i] < n)
    && (forall i, j :: 0 <= i < j < |picks| ==> picks[i] < picks[j])
  }

  /** picks names, in order of arrival, the `capacity` arrivals that outrank all others. */
  ghost predicate IsTop(picks: seq<nat>, all: seq<Entry>, capacity: int) {
    && Increasing(picks, |all|)
    && |picks| == Min(capacity, |all|)
    && (forall i, j: nat :: 0 <= i < |picks| && j < |all| && j !in picks ==> Outranks(all, picks[i], j))
  }

  /** The queue holds the picked arrivals. */
  ghost predicate Holds(q: seq<Entry>, picks: seq<nat>, all: seq<Entry>) {
    && |q| == |picks|
    && (forall i :: 0 <= i < |q| ==> picks[i] < |all| && q[i] == all[picks[i]])
  }

  lemma {:induction false} Spread(picks: seq<nat>, n: nat, i: nat, j: nat)
    requires Increasing(picks, n) && i <= j < |picks|
    ensures picks[i] + j - i <= picks[j]
    decreases j
  {
    if i < j {
      Spread(picks, n, i, j - 1);
    }
  }

  /** Strictly increasing and as many as there are: everything is picked. */
  lemma AllPicked(picks: seq<nat>, n: nat, j: nat)
    requires Increasing(picks, n) && |picks| == n && j < n
    ensures j in picks
  {
    Spread(picks, n, 0, j);
    Spread(picks, n, j, n - 1);
    assert picks[j] == j;
  }

  ghost function NextPicks(q: seq<Entry>, picks: seq<nat>, n: nat, capacity: int, e: Entry): seq<nat>
    requires |q| == |picks|
  {
    if |q| < capacity then picks + [n]
    else if q != [] && Admissible(q, capacity, e.priority) then RemoveAt(picks, Victim(q)) + [n]
    else picks
  }

  lemma RemovedAt<T>(q: seq<T>, k: nat, x: T)
    requires k < |q|
    requires forall i, j :: 0 <= i < j < |q| ==> q[i] != q[j]
    ensures x in RemoveAt(q, k) <==> x in q && x != q[k]
  {
    var r := RemoveAt(q, k);
    forall i | 0 <= i < |q| && i != k ensures q[i] in r {
      assert q[i] == r[if i < k then i else i - 1];
    }
  }

  lemma RestIncreasing(picks: seq<nat>, n: nat, k: nat)
    requires Increasing(picks, n) && k < |picks|
    ensures Increasing(RemoveAt(picks, k) + [n], n + 1)
  {
    var next := RemoveAt(picks, k) + [n];
    forall i | 0 <= i < |next| ensures next[i] == if i < k then picks[i] else if i < |next| - 1 then picks[i + 1] else n {}
  }

  /** Dropping the victim from the picks and adding the newcomer keeps the picks on top. */
  lemma Evict(q: seq<Entry>, picks: seq<nat>, all: seq<Entry>, capacity: int, e: Entry)
    requires |q| == capacity >= 1 && Admissible(q, capacity, e.priority)
    requires IsTop(picks, all, capacity) && Holds(q, picks, all)
    ensures IsTop(RemoveAt(picks, Victim(q)) + [|all|], all + [e], capacity)
  {
    var n, k, all' := |all|, Victim(q), all + [e];
    var rest := RemoveAt(picks, k);
    var next := rest + [n];
    RestIncreasing(picks, n, k);
    hide Increasing, IsVictim, Admissible, Holds, Outranks;
    forall i, j: nat | 0 <= i < |next| && j < n + 1 && j !in next ensures Outranks(all', next[i], j) {
      assert j !in rest && next[|rest|] == n;
      RemovedAt(picks, k, j);
      Beaten(q, picks, all, capacity, e, k, if i < k then i else i + 1, j);
    }
  }

  /** Whoever stays, and the newcomer, outranks the victim and everyone dropped before. */
  lemma Beaten(q: seq<Entry>, picks: seq<nat>, all: seq<Entry>, capacity: int, e: Entry, k: nat, i: nat, j: nat)
    requires |q| == capacity && Admissible(q, capacity, e.priority) && IsVictim(q, k)
    requires IsTop(picks, all, capacity) && Holds(q, picks, all)
    requires i != k && i <= |q| && j < |all| && (j !in picks || j == picks[k])
    ensures Outranks(all + [e], if i < |q| then picks[i] else |all|, j)
  {
    assert q[k] == all[picks[k]];
    if j !in picks {
      assert Outranks(all, picks[k], j);
    }
    if i < |q| {
      assert q[i] == all[picks[i]];
      if i < k { assert picks[i] < picks[k]; } else { assert picks[k] < picks[i]; }
    }
  }

  /** While there is room everything is picked. */
  lemma Fill(picks: seq<nat>, all: seq<Entry>, capacity: int, e: Entry)
    requires IsTop(picks, all, capacity) && |picks| < capacity
    ensures IsTop(picks + [|all|], all + [e], capacity)
  {
    forall j: nat | j < |all| ensures j in picks {
      AllPicked(picks, |all|, j);
    }
    assert forall j :: j in picks ==> j in picks + [|all|];
  }

  /** A full queue of higher priorities stays on top. */
  lemma Refuse(q: seq<Entry>, picks: seq<nat>, all: seq<Entry>, capacity: int, e: Entry)
    requires |q| == capacity && !Admissible(q, capacity, e.priority)
    requires IsTop(picks, all, capacity) && Holds(q, picks, all)
    ensures IsTop(picks, all + [e], capacity)
  {
    var all' := all + [e];
    forall i, j: nat | 0 <= i < |picks| && j < |all'| && j !in picks ensures Outranks(all', picks[i], j) {
      assert q[i].priority > e.priority;
      if j < |all| {
        assert Outranks(all, picks[i], j);
      }
    }
  }

  /** One more arrival: admission and eviction keep exactly the best. */
  lemma Arrive(s: Books, picks: seq<nat>, all: seq<Entry>, capacity: int, o: Offer)
    requires capacity >= 1 && Acceptable(o) && |s.queue| <= capacity
    requires IsTop(picks, all, capacity) && Holds(s.queue, picks, all)
    ensures var next := NextPicks(s.queue, picks, |all|, capacity, o.entry);
      IsTop(next, all + [o.entry], capacity) && Holds(Offered(s, capacity, o).queue, next, all + [o.entry])
  {
    var e, q := o.entry, s.queue;
    hide IsTop, Admissible, IsVictim;
    if |q| < capacity {
      Fill(picks, all, capacity, e);
      assert Admissible(q, capacity, e.priority) by { WithRoom(q, capacity, e.priority); }
    } else if Admissible(q, capacity, e.priority) {
      Evict(q, picks, all, capacity, e);
      var k := Victim(q);
      assert Trimmed(q, capacity) == RemoveAt(q, k);
    } else {
      Refuse(q, picks, all, capacity, e);
    }
  }

  lemma WithRoom(q: seq<Entry>, capacity: int, priority: int)
    requires |q| < capacity
    ensures Admissible(q, capacity, priority)
  {}

  ghost function Picks(offers: seq<Offer>, capacity: int): (picks: seq<nat>)
    requires capacity >= 1
    ensures IsTop(picks, Arrivals(offers), capacity) && Holds(Run(offers, capacity).queue, picks, Arrivals(offers))
  {
    if offers == [] then [] else
      var before, o := offers[..|offers| - 1], offers[|offers| - 1];
      var s, picks := Run(before, capacity), Picks(before, capacity);
      if Acceptable(o) then
        Arrive(s, picks, Arrivals(before), capacity, o);
        NextPicks(s.queue, picks, |Arrivals(before)|, capacity, o.entry)
      else picks
  }

  /**
   * From an empty queue any sequence of offers leaves exactly the `capacity` greatest arrivals by
   * (priority, later arrival), in arrival order.
   */
  lemma OnlineIsTop(offers: seq<Offer>, capacity: int, picks: seq<nat>)
    requires capacity >= 1 && IsTop(picks, Arrivals(offers), capacity)
    ensures Holds(Run(offers, capacity).queue, picks, Arrivals(offers))
  {
    TopUnique(picks, Picks(offers, capacity), Arrivals(offers), capacity);
  }

  /** There is only one such selection. */
  lemma TopUnique(a: seq<nat>, b: seq<nat>, all: seq<Entry>, capacity: int)
    requires IsTop(a, all, capacity) && IsTop(b, all, capacity)
    ensures a == b
  {
    forall i | 0 <= i < |a| ensures a[i] in b {
      Picked(a, b, all, capacity, a[i]);
    }
    SameMembers(a, b, |all|);
  }

  lemma Picked(a: seq<nat>, b: seq<nat>, all: seq<Entry>, capacity: int, x: nat)
    requires IsTop(a, all, capacity) && IsTop(b, all, capacity) && x in a
    ensures x in b
  {
    if x !in b {
      Missing(b, a, |all|, x);
    }
  }

  function Members(a: seq<nat>): set<nat> {
    set x | x in a
  }

  lemma {:induction false} MemberCount(a: seq<nat>, n: nat)
    requires Increasing(a, n)
    ensures |Members(a)| == |a|
  {
    if a == [] {
      assert Members(a) == {};
    } else {
      var l := |a| - 1;
      MemberCount(a[..l], n);
      assert a == a[..l] + [a[l]];
      assert Members(a) == Members(a[..l]) + {a[l]};
    }
  }

  lemma Missing(b: seq<nat>, a: seq<nat>, n: nat, x: nat)
    requires Increasing(a, n) && Increasing(b, n) && |a| == |b| && x in a && x !in b
    ensures exists y: nat :: y in b && y !in a
  {
    MemberCount(a, n);
    MemberCount(b, n);
    var A, B := Members(a), Members(b);
    if forall y :: y in B ==> y in A {
      SubsetSize(B, A - {x});
    } else {
      var y :| y in B && y !in A;
      assert y in b && y !in a;
    }
  }

  lemma SameMembers(a: seq<nat>, b: seq<nat>, n: nat)
    requires Increasing(a, n) && Increasing(b, n) && |a| == |b|
    requires forall i :: 0 <= i < |a| ==> a[i] in b
    ensures a == b
  {
    forall k | 0 <= k < |a| ensures a[k] == b[k] {
      PacedAlike(a, b, n, k);
    }
  }

  /** An increasing sequence drawn from b keeps pace with it from below, so equal lengths make them equal. */
  lemma PacedAlike(a: seq<nat>, b: seq<nat>, n: nat, k: nat)
    requires Increasing(a, n) && Increasing(b, n) && |a| == |b| && k < |a|
    requires forall i :: 0 <= i < |a| ==> a[i] in b
    ensures a[k] == b[k]
  {
    var m := KeepsPace(a, b, n, k);
    var l := KeepsAhead(a, b, n, k);
    assert m == l;
  }

  ghost function KeepsPace(a: seq<nat>, b: seq<nat>, n: nat, k: nat): (m: nat)
    requires Increasing(a, n) && Increasing(b, n) && |a| == |b| && k < |a|
    requires forall i :: 0 <= i < |a| ==> a[i] in b
    ensures k <= m < |b| && b[m] == a[k]
  {
    assert a[k] in b;
    var m: nat :| m < |b| && b[m] == a[k];
    assert k > 0 ==> KeepsPace(a, b, n, k - 1) < m by {
      if k > 0 {
        var p := KeepsPace(a, b, n, k - 1);
        assert b[p] < b[m];
      }
    }
    m
  }

  ghost function KeepsAhead(a: seq<nat>, b: seq<nat>, n: nat, k: nat): (m: nat)
    requires Increasing(a, n) && Increasing(b, n) && |a| == |b| && k < |a|
    requires forall i :: 0 <= i < |a| ==> a[i] in b
    ensures m <= k && b[m] == a[k]
    decreases |a| - k
  {
    assert a[k] in b;
    var m: nat :| m < |b| && b[m] == a[k];
    assert k + 1 < |a| ==> m < KeepsAhead(a, b, n, k + 1) by {
      if k + 1 < |a| {
        var p := KeepsAhead(a, b, n, k + 1);
        assert b[m] < b[p];
      }
    }
    m
  }

  // ----- Counting -----

  /** Of acceptable offers every one is queued or counted as discarded. */
  lemma {:induction false} NothingLost(offers: seq<Offer>, capacity: int)
    requires capacity >= 1 && forall i :: 0 <= i < |offers| ==> Acceptable(offers[i])
    ensures var s := Run(offers, capacity); |s.queue| + s.discarded == |offers|
  {
    if offers != [] {
      NothingLost(offers[..|offers| - 1], capacity);
    }
  }
}
