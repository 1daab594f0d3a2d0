/**
 * The order in which the offline cache keeps and sends its messages, over whole runs without a restart: the
 * queue lists its entries in the order in which they were pushed, whatever interleaves, and a failed send
 * does not change that.
 */
module OfflineOrder {
  import opened Arith
  import opened OfflineQueue
  import opened OfflineProtocol
  import opened OfflineRuns

  // ----- The order of the pushes -----

  /** The place of e in the history of pushes. */
  function Rank(P: seq<Entry>, e: Entry): (r: nat)
    ensures r <= |P| && (r < |P| <==> e in P)
    ensures r < |P| ==> P[r] == e
  {
    if P == [] || P[0] == e then 0 else 1 + Rank(P[1..], e)
  }

  lemma {:induction false} RankExtends(P: seq<Entry>, Q: seq<Entry>, e: Entry)
    ensures e in P ==> Rank(P + Q, e) == Rank(P, e)
    ensures e !in P ==> Rank(P + Q, e) >= |P|
  {
    if P != [] && P[0] != e {
      assert (P + Q)[1..] == P[1..] + Q;
      RankExtends(P[1..], Q, e);
    }
  }

  /** q lists pushed entries in the order of their pushes. */
  ghost predicate Rising(q: seq<Entry>, P: seq<Entry>) {
    (forall e <- q :: e in P) && forall i, j :: 0 <= i < j < |q| ==> Rank(P, q[i]) < Rank(P, q[j])
  }

  lemma RisingRemoved(q: seq<Entry>, k: nat, P: seq<Entry>)
    requires Rising(q, P) && k < |q|
    ensures Rising(RemoveAt(q, k), P)
  {
    var r := RemoveAt(q, k);
    forall i | 0 <= i < |r| ensures r[i] == q[if i < k then i else i + 1] && r[i] in q {}
  }

  lemma RisingAdded(q: seq<Entry>, P: seq<Entry>, e: Entry)
    requires Rising(q, P) && e !in P
    ensures Rising(q + [e], P + [e])
  {
    forall x | x in P ensures Rank(P + [e], x) == Rank(P, x) { RankExtends(P, [e], x); }
    RankExtends(P, [e], e);
    forall i | 0 <= i < |q| ensures q[i] in P {}
  }

  // ----- The line: what the sender has in hand, and the queue -----

  function Front(s: State): seq<Entry> {
    if s.active.Some? && s.active.value in s.senders && Carries(s.senders[s.active.value]) then [s.senders[s.active.value].entry]
    else []
  }

  function Line(s: State): seq<Entry> { Front(s) + s.queue }

  /** Pushed at some time. */
  predicate Past(g: Stage) {
    g.Queued? || g.Doomed? || g.Carried? || g.Evicted? || g.Sent? || g.Spoiled? || g.Discarded? || g.Lost?
  }

  ghost predicate PushedOnce(stage: map<Entry, Stage>, P: seq<Entry>) {
    Distinct(P) && forall e <- P :: e in stage && Past(stage[e])
  }

  ghost predicate Ordered(s: State, P: seq<Entry>) {
    PushedOnce(s.stage, P) && Rising(Line(s), P)
  }

  /** The entry that the action pushes. */
  function PushedBy(a: Action): seq<Entry> { if a.Push? then [a.e] else [] }

  /** P and the pushes of the run after it. */
  function History(P: seq<Entry>, run: seq<Action>): seq<Entry>
    decreases |run|
  {
    if run == [] then P else History(P + PushedBy(run[0]), run[1..])
  }

  function Pushed(run: seq<Action>): seq<Entry> { History([], run) }

  ghost predicate Moved(l: seq<Entry>, l': seq<Entry>) {
    l' == l || exists k: nat :: k < |l| && l' == RemoveAt(l, k)
  }

  /** A call adds its entry at the end of the line, or removes one from it. */
  lemma CallLine(s: State, a: Action)
    requires Inv(s) && Enabled(s, a) && ByCall(a)
    ensures var s' := Apply(s, a);
      && s'.senders == s.senders && s'.active == s.active
      && if a.Push? then Line(s') == Line(s) + [a.e] else Moved(Line(s), Line(s'))
  {
    hide Inv, Apply, RemoveAt, Moved;
    if a.Push? {
      PushLine(s, a.e);
    } else if a.Remove? {
      RemoveLine(s, a.e);
    } else {
      OtherLine(s, a);
      MovedNothing(Line(s));
    }
  }

  lemma PushLine(s: State, e: Entry)
    requires Enabled(s, Push(e))
    ensures var s' := Apply(s, Push(e)); s'.senders == s.senders && s'.active == s.active && Line(s') == Line(s) + [e]
  {
    hide Sending, Reloaded;
  }

  lemma RemoveLine(s: State, e: Entry)
    requires Enabled(s, Remove(e))
    ensures var s' := Apply(s, Remove(e)); s'.senders == s.senders && s'.active == s.active && Moved(Line(s), Line(s'))
  {
    hide Sending, Reloaded, RemoveAt, Moved;
    RemovedBehind(Front(s), s.queue, s.stage[e].victim);
  }

  lemma OtherLine(s: State, a: Action)
    requires Enabled(s, a) && ByCall(a) && !a.Push? && !a.Remove?
    ensures var s' := Apply(s, a); s'.senders == s.senders && s'.active == s.active && Line(s') == Line(s)
  {
    hide Apply, Enabled;
    CallFields(s, a);
  }

  lemma CallFields(s: State, a: Action)
    requires Enabled(s, a) && ByCall(a) && !a.Push? && !a.Remove?
    ensures var s' := Apply(s, a); s'.senders == s.senders && s'.active == s.active && s'.queue == s.queue
  {
    hide Sending, Reloaded, IsVictim, Admissible;
    match a
    case Propose(e, m) => assert Called(s, Propose(e, m)).queue == s.queue;
    case Admit(e) => assert Called(s, Admit(e)).queue == s.queue;
    case Open(e, ok) => assert Called(s, Open(e, ok)).queue == s.queue;
    case Write(e, n) => assert Called(s, Write(e, n)).queue == s.queue;
    case Lock(e) => assert Called(s, Lock(e)).queue == s.queue;
    case Unlink(e) => assert Called(s, Unlink(e)).queue == s.queue;
  }

  lemma MovedNothing(l: seq<Entry>)
    ensures Moved(l, l)
  {}

  lemma RemovedBehind(f: seq<Entry>, q: seq<Entry>, k: nat)
    requires k < |q|
    ensures Moved(f + q, f + RemoveAt(q, k))
  {
    assert f + RemoveAt(q, k) == RemoveAt(f + q, |f| + k);
  }

  lemma FrontLeaves(e: Entry, q: seq<Entry>)
    ensures Moved([e] + q, q)
  {
    assert q == RemoveAt([e] + q, 0);
  }

  /** The only thread past the guard is the active one. */
  lemma ActiveOnly(s: State, t: nat)
    requires Inv(s) && t in s.senders
    ensures PastGuard(s.senders[t]) <==> s.active == Some(t)
  {
    hide SendersInv, QueueInv, LockInv, FilesInv, HandedInv;
  }

  /** A sender takes the first of the queue in hand, puts it back, or is done with it. */
  lemma SenderLine(s: State, a: Action)
    requires Inv(s) && Enabled(s, a) && !ByCall(a) && !a.Restart?
    ensures Moved(Line(s), Line(Apply(s, a)))
  {
    hide Inv, Called, Reloaded, Moved;
    var s' := Apply(s, a);
    if a.t in s.senders { ActiveOnly(s, a.t); }
    ActiveThere(s);
    if a.Pop? || a.Read? || a.Send? || a.Finish? || a.PutBack? {
      HandLine(s, a);
    } else {
      assert Line(s') == Line(s);
      MovedNothing(Line(s));
    }
  }

  lemma ActiveThere(s: State)
    requires Inv(s)
    ensures s.active.Some? ==> s.active.value in s.senders && PastGuard(s.senders[s.active.value])
    ensures s.sending <==> s.active.Some?
  {
    hide SendersInv, QueueInv, LockInv, FilesInv, HandedInv;
  }

  lemma HandLine(s: State, a: Action)
    requires Enabled(s, a) && (a.Pop? || a.Read? || a.Send? || a.Finish? || a.PutBack?) && s.active == Some(a.t)
    ensures Moved(Line(s), Line(Apply(s, a)))
  {
    hide Called, Reloaded, Moved;
    MovedNothing(Line(s));
    if a.Pop? {
      assert Line(Apply(s, a)) == Line(s);
    } else {
      FrontLeaves(s.senders[a.t].entry, s.queue);
      if a.PutBack? { PutBackLine(s, a.t); } else { EndLine(s, a); }
    }
  }

  lemma PutBackLine(s: State, t: nat)
    requires Enabled(s, PutBack(t)) && s.active == Some(t)
    ensures Line(Apply(s, PutBack(t))) == if |s.queue| < s.capacity then Line(s) else s.queue
  {
    hide Called, Reloaded;
  }

  lemma EndLine(s: State, a: Action)
    requires Enabled(s, a) && (a.Read? || a.Send? || a.Finish?) && s.active == Some(a.t)
    ensures Line(Apply(s, a)) == Line(s) || Line(Apply(s, a)) == s.queue
  {
    hide Called, Reloaded;
  }

  /** Entries that were pushed stay so, and only a push adds one. */
  lemma PushesKept(s: State, a: Action, P: seq<Entry>)
    requires Inv(s) && Enabled(s, a) && !a.Restart? && PushedOnce(s.stage, P)
    ensures PushedOnce(Apply(s, a).stage, P + PushedBy(a)) && (a.Push? ==> a.e !in P)
  {
    hide Inv, Enabled, Apply, PushedOnce;
    if ByCall(a) {
      PastByCall(s, a, P);
    } else {
      assert P + PushedBy(a) == P;
      PastBySender(s, a, P);
    }
  }

  lemma PastKept(stage: map<Entry, Stage>, P: seq<Entry>, e: Entry, g: Stage)
    requires PushedOnce(stage, P) && (Past(g) || e !in stage || !Past(stage[e]))
    ensures PushedOnce(stage[e := g], P)
    ensures e !in stage || !Past(stage[e]) ==> e !in P && (Past(g) ==> PushedOnce(stage[e := g], P + [e]))
  {}

  lemma PastByCall(s: State, a: Action, P: seq<Entry>)
    requires Enabled(s, a) && ByCall(a) && PushedOnce(s.stage, P)
    ensures PushedOnce(Apply(s, a).stage, P + PushedBy(a)) && (a.Push? ==> a.e !in P)
  {
    if a.Unlink? || a.Remove? {
      PastByEviction(s, a, P);
    } else {
      OwnStage(s, a);
      hide Called, Sending, Reloaded, PushedOnce;
      PastKept(s.stage, P, a.e, Apply(s, a).stage[a.e]);
      if a.Push? { PushIsPast(s, a); }
    }
    assert P + [] == P;
  }

  lemma PushIsPast(s: State, a: Action)
    requires Enabled(s, a) && a.Push?
    ensures Apply(s, a).stage[a.e].Queued?
  {}

  lemma PastByEviction(s: State, a: Action, P: seq<Entry>)
    requires Enabled(s, a) && (a.Unlink? || a.Remove?) && PushedOnce(s.stage, P)
    ensures PushedOnce(Apply(s, a).stage, P)
  {
    hide IsVictim, RemoveAt, Sending, Reloaded, PushedOnce;
    if a.Unlink? {
      var k := Victim(s.queue);
      PastKept(s.stage, P, a.e, Evicting(s.stage[a.e].backed, k));
      PastKept(s.stage[a.e := Evicting(s.stage[a.e].backed, k)], P, s.queue[k], Doomed);
    } else {
      PastKept(s.stage, P, a.e, Locked(s.stage[a.e].backed));
      PastKept(s.stage[a.e := Locked(s.stage[a.e].backed)], P, s.queue[s.stage[a.e].victim], Evicted);
    }
  }

  lemma PastBySender(s: State, a: Action, P: seq<Entry>)
    requires Enabled(s, a) && !ByCall(a) && !a.Restart? && PushedOnce(s.stage, P)
    ensures PushedOnce(Apply(s, a).stage, P)
  {
    hide Apply, PushedOnce, Past;
    var s' := Apply(s, a);
    if (a.Pop? && s.queue != []) || a.Read? || a.Send? || a.Finish? || a.PutBack? {
      var e := HandStage(s, a);
      if s'.stage != s.stage { PastKept(s.stage, P, e, s'.stage[e]); }
    } else {
      SameStage(s, a);
    }
  }

  lemma SameStage(s: State, a: Action)
    requires Enabled(s, a) && (a.Spawn? || a.Guard? || a.Count? || a.Leave? || (a.Pop? && s.queue == []))
    ensures Apply(s, a).stage == s.stage
  {
    hide Called, Reloaded;
  }

  lemma HandStage(s: State, a: Action) returns (e: Entry)
    requires Enabled(s, a) && ((a.Pop? && s.queue != []) || a.Read? || a.Send? || a.Finish? || a.PutBack?)
    ensures var g := Apply(s, a).stage; g == s.stage || (e in g && Past(g[e]) && g == s.stage[e := g[e]])
  {
    if a.Pop? {
      e := s.queue[0];
      PopStage(s, a.t);
    } else {
      e := s.senders[a.t].entry;
      EndStage(s, a);
    }
    hide *;
  }

  lemma PopStage(s: State, t: nat)
    requires Enabled(s, Pop(t)) && s.queue != []
    ensures var e, g := s.queue[0], Apply(s, Pop(t)).stage; e in g && Past(g[e]) && g == s.stage[e := g[e]]
  {
    hide Called, Reloaded;
  }

  /** g is the stage of e in an otherwise unchanged map. */
  lemma OneStage(stage: map<Entry, Stage>, e: Entry, g: Stage)
    ensures stage[e := g][e] == g && stage[e := g] == stage[e := stage[e := g][e]]
  {}

  lemma EndStage(s: State, a: Action)
    requires Enabled(s, a) && (a.Read? || a.Send? || a.Finish? || a.PutBack?)
    ensures var e, g := s.senders[a.t].entry, Apply(s, a).stage; g == s.stage || (e in g && Past(g[e]) && g == s.stage[e := g[e]])
  {
    hide Called, Reloaded, Sending;
    var e := s.senders[a.t].entry;
    var g := EndsAt(s, a);
    OneStage(s.stage, e, g);
  }

  lemma EndsAt(s: State, a: Action) returns (g: Stage)
    requires Enabled(s, a) && (a.Read? || a.Send? || a.Finish? || a.PutBack?)
    ensures Apply(s, a).stage == s.stage || (Past(g) && Apply(s, a).stage == s.stage[s.senders[a.t].entry := g])
  {
    hide Called, Reloaded;
    var e := s.senders[a.t].entry;
    match a
    case Read(t, ok) => g := if e !in s.files then Lost else Spoiled;
    case Send(t, _, _) => g := Spoiled;
    case Finish(t) => g := Sent;
    case PutBack(t) => g := if |s.queue| < s.capacity then Queued(true) else Discarded;
  }

  lemma OrderStep(s: State, a: Action, P: seq<Entry>)
    requires Inv(s) && Enabled(s, a) && !a.Restart? && Ordered(s, P)
    ensures Ordered(Apply(s, a), P + PushedBy(a))
  {
    PushesKept(s, a, P);
    hide Inv, Enabled, Apply, PushedOnce, Rising, RemoveAt, Line;
    if ByCall(a) { CallLine(s, a); } else { SenderLine(s, a); }
    var l, l' := Line(s), Line(Apply(s, a));
    if a.Push? {
      RisingAdded(l, P, a.e);
    } else {
      assert P + PushedBy(a) == P;
      if l' != l {
        var k: nat :| k < |l| && l' == RemoveAt(l, k);
        RisingRemoved(l, k, P);
      }
    }
  }

  ghost predicate NoRestart(run: seq<Action>) {
    forall a <- run :: !a.Restart?
  }

  lemma {:induction false} OrderRun(s: State, run: seq<Action>, P: seq<Entry>)
    requires Inv(s) && Runs(s, run) && NoRestart(run) && Ordered(s, P)
    ensures Ordered(After(s, run), History(P, run))
    decreases |run|
  {
    hide Inv, Enabled, Apply, Ordered;
    if run != [] {
      var a := run[0];
      assert a in run;
      OrderStep(s, a, P);
      StepInv(s, a);
      OrderRun(Apply(s, a), run[1..], P + PushedBy(a));
    }
  }

  lemma OrderInit(capacity: int)
    ensures Ordered(Init(capacity), [])
  {}

  /**
   * After every run without a restart the queue lists its entries in the order in which they were pushed, and
   * what a sender has in hand was pushed before all of them.
   */
  lemma QueueInPushOrder(capacity: int, run: seq<Action>)
    requires capacity >= 1 && Runs(Init(capacity), run) && NoRestart(run)
    ensures var s := After(Init(capacity), run);
      && Distinct(Pushed(run)) && Rising(s.queue, Pushed(run))
      && forall t, e :: t in s.senders && Carries(s.senders[t]) && s.senders[t].entry == e ==> Rising([e] + s.queue, Pushed(run))
  {
    InitInv(capacity);
    OrderInit(capacity);
    OrderRun(Init(capacity), run, []);
    RunInv(Init(capacity), run);
    hide Inv, Enabled, Apply, Runs, After, Rising, Line, Pushed;
    var s := After(Init(capacity), run);
    LineParts(s, Pushed(run));
    forall t, e | t in s.senders && Carries(s.senders[t]) && s.senders[t].entry == e ensures Rising([e] + s.queue, Pushed(run)) {
      LineOf(s, t);
    }
  }

  lemma LineOf(s: State, t: nat)
    requires Inv(s) && t in s.senders && Carries(s.senders[t])
    ensures Line(s) == [s.senders[t].entry] + s.queue
  {
    hide Inv;
    ActiveOnly(s, t);
  }

  lemma LineParts(s: State, P: seq<Entry>)
    requires Rising(Line(s), P)
    ensures Rising(s.queue, P)
  {
    assert forall i :: 0 <= i < |s.queue| ==> s.queue[i] == Line(s)[|Front(s)| + i];
  }

  // ----- The order of taking and of sending -----

  /** The entry that a sender takes in hand. */
  function TakenBy(s: State, a: Action): seq<Entry>
    requires Enabled(s, a)
  {
    var s' := Apply(s, a);
    if a.Pop? && a.t in s'.senders && s'.senders[a.t].Holding? then [s'.senders[a.t].entry] else []
  }

  /** The entry that is handed over. */
  function HandedBy(s: State, a: Action): seq<Entry>
    requires Enabled(s, a)
  {
    var s' := Apply(s, a);
    if a.Send? && a.t in s'.senders && s'.senders[a.t].Delivered? then [s'.senders[a.t].entry] else []
  }

  /** T and what is taken in the run after it. */
  function Taken(T: seq<Entry>, s: State, run: seq<Action>): seq<Entry>
    requires Runs(s, run)
    decreases |run|
  {
    if run == [] then T else Taken(T + TakenBy(s, run[0]), Apply(s, run[0]), run[1..])
  }

  function Handed(H: seq<Entry>, s: State, run: seq<Action>): seq<Entry>
    requires Runs(s, run)
    decreases |run|
  {
    if run == [] then H else Handed(H + HandedBy(s, run[0]), Apply(s, run[0]), run[1..])
  }

  /** As Rising, but an entry may be there several times. */
  ghost predicate NeverBack(q: seq<Entry>, P: seq<Entry>) {
    (forall e <- q :: e in P) && forall i, j :: 0 <= i < j < |q| ==> Rank(P, q[i]) <= Rank(P, q[j])
  }

  ghost predicate TakenInv(s: State, P: seq<Entry>, T: seq<Entry>) {
    NeverBack(T, P) && Floor(T, Line(s), P)
  }

  /** In hand of the active sender and just handed over. */
  predicate AtHand(s: State, e: Entry) {
    s.active.Some? && s.active.value in s.senders && s.senders[s.active.value] == Delivered(e)
  }

  ghost predicate HandedInOrder(s: State, P: seq<Entry>, H: seq<Entry>) {
    Rising(H, P) && Passed(s, Line(s), P, H)
  }

  /** The last one handed over comes before the rest of the line. */
  ghost predicate Passed(s: State, l: seq<Entry>, P: seq<Entry>, H: seq<Entry>) {
    H != [] ==> forall e <- l :: Rank(P, H[|H| - 1]) < Rank(P, e) || (e == H[|H| - 1] && AtHand(s, e))
  }

  /** What is in the line after an action was there before, or is pushed by it. */
  lemma LineShrinks(s: State, a: Action, e: Entry)
    requires Inv(s) && Enabled(s, a) && !a.Restart? && e in Line(Apply(s, a))
    ensures e in Line(s) || (a.Push? && e == a.e)
  {
    hide Inv, Enabled, Apply, Line, RemoveAt;
    if ByCall(a) { CallLine(s, a); } else { SenderLine(s, a); }
    var l, l' := Line(s), Line(Apply(s, a));
    if !a.Push? && l' != l {
      var k: nat :| k < |l| && l' == RemoveAt(l, k);
      RemovedFrom(l, k, e);
    }
  }

  lemma RemovedFrom(l: seq<Entry>, k: nat, e: Entry)
    requires k < |l| && e in RemoveAt(l, k)
    ensures e in l
  {
    var r := RemoveAt(l, k);
    var i :| 0 <= i < |r| && r[i] == e;
    assert r[i] == l[if i < k then i else i + 1];
  }

  /** Pushes do not change the order of what was pushed before, and come after it. */
  lemma RanksKept(P: seq<Entry>, a: Action)
    ensures forall e <- P :: e in P + PushedBy(a) && Rank(P + PushedBy(a), e) == Rank(P, e) < |P|
    ensures a.Push? && a.e !in P ==> Rank(P + PushedBy(a), a.e) == |P|
  {
    forall e | e in P ensures Rank(P + PushedBy(a), e) == Rank(P, e) { RankExtends(P, PushedBy(a), e); }
    if a.Push? { RankExtends(P, [a.e], a.e); }
  }

  /** A taken entry stands first in the line. */
  lemma TakenIsFirst(s: State, a: Action)
    requires Inv(s) && Enabled(s, a) && TakenBy(s, a) != []
    ensures Line(Apply(s, a)) != [] && TakenBy(s, a) == [Line(Apply(s, a))[0]]
  {
    hide Inv, Called, Reloaded;
    ActiveOnly(s, a.t);
  }

  lemma TakenStep(s: State, a: Action, P: seq<Entry>, T: seq<Entry>)
    requires Inv(s) && Enabled(s, a) && !a.Restart? && Ordered(s, P) && TakenInv(s, P, T)
    ensures TakenInv(Apply(s, a), P + PushedBy(a), T + TakenBy(s, a))
  {
    PushesKept(s, a, P);
    OrderStep(s, a, P);
    var l' := Line(Apply(s, a));
    if TakenBy(s, a) != [] { TakenIsFirst(s, a); }
    forall e | e in l' ensures e in Line(s) || (a.Push? && e == a.e) { LineShrinks(s, a, e); }
    hide Inv, Enabled, Apply, PushedOnce, Line, TakenBy, Rising, NeverBack;
    FloorKept(Line(s), l', P, a, T);
    Appended(T, TakenBy(s, a), l', P + PushedBy(a));
  }

  /** The last taken comes before all that is in the line. */
  ghost predicate Floor(T: seq<Entry>, l: seq<Entry>, P: seq<Entry>) {
    T != [] ==> forall e <- l :: Rank(P, T[|T| - 1]) <= Rank(P, e)
  }

  lemma FloorKept(l: seq<Entry>, l': seq<Entry>, P: seq<Entry>, a: Action, T: seq<Entry>)
    requires NeverBack(T, P) && Floor(T, l, P) && Rising(l, P) && (a.Push? ==> a.e !in P)
    requires forall e <- l' :: e in l || (a.Push? && e == a.e)
    ensures NeverBack(T, P + PushedBy(a)) && Floor(T, l', P + PushedBy(a))
  {
    RanksKept(P, a);
    hide PushedBy;
    forall i | 0 <= i < |T| ensures T[i] in P {}
  }

  /** One that stands first in the line may be added. */
  lemma Appended(T: seq<Entry>, x: seq<Entry>, l: seq<Entry>, P: seq<Entry>)
    requires NeverBack(T, P) && Rising(l, P) && Floor(T, l, P) && (x == [] || (l != [] && x == [l[0]]))
    ensures NeverBack(T + x, P) && Floor(T + x, l, P)
  {
    if x == [] {
      assert T + x == T;
    } else {
      assert l[0] in l;
      hide Rank;
    }
  }

  lemma {:induction false} TakenRun(s: State, run: seq<Action>, P: seq<Entry>, T: seq<Entry>)
    requires Inv(s) && Runs(s, run) && NoRestart(run) && Ordered(s, P) && TakenInv(s, P, T)
    ensures NeverBack(Taken(T, s, run), History(P, run))
    decreases |run|
  {
    hide Inv, Enabled, Apply, Ordered, TakenBy, PushedBy;
    if run != [] {
      var a := run[0];
      assert a in run;
      TakenStep(s, a, P, T);
      hide TakenInv;
      OrderStep(s, a, P);
      StepInv(s, a);
      TakenRun(Apply(s, a), run[1..], P + PushedBy(a), T + TakenBy(s, a));
    }
  }

  lemma HandedStep(s: State, a: Action, P: seq<Entry>, H: seq<Entry>)
    requires Inv(s) && Enabled(s, a) && !a.Restart? && Ordered(s, P) && HandedInOrder(s, P, H)
    ensures HandedInOrder(Apply(s, a), P + PushedBy(a), H + HandedBy(s, a))
  {
    hide Inv, Enabled, Apply, Ordered, HandedInOrder, HandedBy, PushedBy;
    if HandedBy(s, a) != [] {
      HandingStep(s, a, P, H);
    } else {
      QuietStep(s, a, P, H);
      assert H + HandedBy(s, a) == H;
    }
  }

  lemma HandingStep(s: State, a: Action, P: seq<Entry>, H: seq<Entry>)
    requires Inv(s) && Enabled(s, a) && Ordered(s, P) && HandedInOrder(s, P, H) && HandedBy(s, a) != []
    ensures HandedInOrder(Apply(s, a), P + PushedBy(a), H + HandedBy(s, a))
  {
    hide Inv, Enabled, Apply, Line, HandedBy, AtHand, PushedOnce, Rising, Passed;
    HandedIsFirst(s, a);
    assert P + PushedBy(a) == P;
    HandedNext(s, Apply(s, a), Line(s), P, H, Line(s)[0]);
  }

  lemma QuietStep(s: State, a: Action, P: seq<Entry>, H: seq<Entry>)
    requires Inv(s) && Enabled(s, a) && !a.Restart? && Ordered(s, P) && HandedInOrder(s, P, H)
    ensures HandedInOrder(Apply(s, a), P + PushedBy(a), H)
  {
    PushesKept(s, a, P);
    var s' := Apply(s, a);
    hide Inv, Enabled, Apply, Line, AtHand, PushedOnce, PushedBy, Rising;
    forall e | e in Line(s') ensures e in Line(s) || (a.Push? && e == a.e) { LineShrinks(s, a, e); }
    if H != [] && AtHand(s, H[|H| - 1]) && H[|H| - 1] in Line(s') { StaysAtHand(s, a, H[|H| - 1], P); }
    PassedKept(s, s', Line(s), Line(s'), P, a, H);
  }

  /** A handed entry stands first in the line. */
  lemma HandedIsFirst(s: State, a: Action)
    requires Inv(s) && Enabled(s, a) && HandedBy(s, a) != []
    ensures a.Send? && Line(Apply(s, a)) == Line(s) != []
    ensures var e := Line(s)[0]; HandedBy(s, a) == [e] && AtHand(Apply(s, a), e) && !AtHand(s, e)
  {
    hide Inv, Called, Reloaded;
    ActiveOnly(s, a.t);
  }

  lemma HandedNext(s: State, s': State, l: seq<Entry>, P: seq<Entry>, H: seq<Entry>, e: Entry)
    requires Rising(H, P) && Rising(l, P) && Passed(s, l, P, H) && l != [] && e == l[0] && AtHand(s', e) && !AtHand(s, e)
    ensures Rising(H + [e], P) && Passed(s', l, P, H + [e])
  {
    hide Rank, AtHand;
    assert l[0] in l;
    if H != [] {
      var last := H[|H| - 1];
      assert Rank(P, last) < Rank(P, e);
      forall i | 0 <= i < |H| ensures Rank(P, H[i]) < Rank(P, e) {}
    }
  }

  lemma PassedKept(s: State, s': State, l: seq<Entry>, l': seq<Entry>, P: seq<Entry>, a: Action, H: seq<Entry>)
    requires Rising(H, P) && Rising(l, P) && Passed(s, l, P, H) && (a.Push? ==> a.e !in P)
    requires forall e <- l' :: e in l || (a.Push? && e == a.e)
    requires H != [] && AtHand(s, H[|H| - 1]) && H[|H| - 1] in l' ==> AtHand(s', H[|H| - 1])
    ensures Rising(H, P + PushedBy(a)) && Passed(s', l', P + PushedBy(a), H)
  {
    RanksKept(P, a);
    hide PushedBy, Rank, AtHand;
    forall i | 0 <= i < |H| ensures H[i] in P {}
  }

  /** Handed over, it stays in hand until it is dropped from the line. */
  lemma StaysAtHand(s: State, a: Action, e: Entry, P: seq<Entry>)
    requires Inv(s) && Enabled(s, a) && !a.Restart? && AtHand(s, e) && e in Line(Apply(s, a)) && Rising(Line(s), P)
    ensures AtHand(Apply(s, a), e)
  {
    hide Inv, Enabled, Called, Reloaded, Sending;
    if ByCall(a) {
      CallLine(s, a);
    } else {
      SenderAtHand(s, a, e);
      hide Apply;
      if a.Finish? && s.active == Some(a.t) {
        FirstNotLater(e, s.queue, P);
      }
    }
  }

  lemma SenderAtHand(s: State, a: Action, e: Entry)
    requires Inv(s) && Enabled(s, a) && !ByCall(a) && !a.Restart? && AtHand(s, e)
    ensures Line(s) == [e] + s.queue
    ensures if a.Finish? && s.active == Some(a.t) then Line(Apply(s, a)) == s.queue else AtHand(Apply(s, a), e)
  {
    hide Inv, Called, Reloaded;
    if a.t in s.senders { ActiveOnly(s, a.t); }
    ActiveThere(s);
  }

  lemma FirstNotLater(e: Entry, q: seq<Entry>, P: seq<Entry>)
    requires Rising([e] + q, P)
    ensures e !in q
  {
    var l := [e] + q;
    assert l[0] == e;
    forall i | 0 <= i < |q| ensures q[i] != e {
      assert l[i + 1] == q[i] && Rank(P, l[0]) < Rank(P, l[i + 1]);
    }
  }

  lemma {:induction false} HandedRun(s: State, run: seq<Action>, P: seq<Entry>, H: seq<Entry>)
    requires Inv(s) && Runs(s, run) && NoRestart(run) && Ordered(s, P) && HandedInOrder(s, P, H)
    ensures Rising(Handed(H, s, run), History(P, run))
    decreases |run|
  {
    hide Inv, Enabled, Apply, Ordered, HandedBy, PushedBy;
    if run != [] {
      var a := run[0];
      assert a in run;
      HandedStep(s, a, P, H);
      hide HandedInOrder;
      OrderStep(s, a, P);
      StepInv(s, a);
      HandedRun(Apply(s, a), run[1..], P + PushedBy(a), H + HandedBy(s, a));
    }
  }

  /**
   * Without a restart, entries are taken off the queue in the order of their pushes, each perhaps several
   * times in succession, and handed over in that order, each once.
   */
  lemma SentInPushOrder(capacity: int, run: seq<Action>)
    requires capacity >= 1 && Runs(Init(capacity), run) && NoRestart(run)
    ensures NeverBack(Taken([], Init(capacity), run), Pushed(run))
    ensures Rising(Handed([], Init(capacity), run), Pushed(run))
  {
    InitInv(capacity);
    OrderInit(capacity);
    hide Inv, Enabled, Apply, Runs, Ordered;
    TakenRun(Init(capacity), run, [], []);
    HandedRun(Init(capacity), run, [], []);
  }

  // ----- A failed send -----

  /** A pop, a failed send and a put-back with nothing between them. */
  function FailedSend(t: nat): seq<Action> { [Pop(t), Read(t, true), Send(t, true, false), PutBack(t)] }

  /** They restore the queue exactly if it was within its capacity; over it, the entry is dropped. */
  lemma FailedSendRestores(s: State, t: nat)
    requires t in s.senders && s.senders[t].Popping? && s.lock.None? && s.queue != []
    requires s.queue[0] in s.files && s.files[s.queue[0]] != ""
    ensures Runs(s, FailedSend(t))
    ensures After(s, FailedSend(t)).queue == if |s.queue| <= s.capacity then s.queue else s.queue[1..]
    ensures After(s, FailedSend(t)).files == s.files
  {
    hide Enabled, Apply, Runs, After, HandedBy, Leads;
    var e, q := s.queue[0], s.queue[1..];
    var s1 := PopStep(s, t);
    var s2 := ReadStep(s1, t, e);
    var s3 := SendStep(s2, t, e, false);
    var s4 := BackStep(s3, t, e);
    LeadsNowhere(s4);
    LeadsNext(s3, PutBack(t), s4, [], s4, []);
    LeadsNext(s2, Send(t, true, false), s3, [PutBack(t)] + [], s4, []);
    LeadsNext(s1, Read(t, true), s2, [Send(t, true, false)] + ([PutBack(t)] + []), s4, []);
    LeadsNext(s, Pop(t), s1, [Read(t, true)] + ([Send(t, true, false)] + ([PutBack(t)] + [])), s4, []);
    assert FailedSend(t) == [Pop(t)] + ([Read(t, true)] + ([Send(t, true, false)] + ([PutBack(t)] + [])));
    LedTo(s, FailedSend(t), s4, [], []);
    assert [e] + q == s.queue;
  }

  /** The run leads from s to s', and hands over just h. */
  ghost predicate Leads(s: State, run: seq<Action>, s': State, h: seq<Entry>) {
    Runs(s, run) && After(s, run) == s' && forall H :: Handed(H, s, run) == H + h
  }

  lemma LeadsNowhere(s: State)
    ensures Leads(s, [], s, [])
  {
    forall H ensures Handed(H, s, []) == H + [] { assert H + [] == H; }
  }

  lemma LeadsNext(s: State, a: Action, s1: State, rest: seq<Action>, s': State, h: seq<Entry>)
    requires Enabled(s, a) && s1 == Apply(s, a) && Leads(s1, rest, s', h)
    ensures Leads(s, [a] + rest, s', HandedBy(s, a) + h)
  {
    hide Enabled, Apply, HandedBy;
    assert ([a] + rest)[1..] == rest;
    forall H ensures Handed(H, s, [a] + rest) == H + (HandedBy(s, a) + h) {
      assert (H + HandedBy(s, a)) + h == H + (HandedBy(s, a) + h);
    }
  }

  lemma LedTo(s: State, run: seq<Action>, s': State, h: seq<Entry>, H: seq<Entry>)
    requires Leads(s, run, s', h)
    ensures Runs(s, run) && After(s, run) == s' && Handed(H, s, run) == H + h
  {}

  /** What these steps leave as it was. */
  predicate SameBut(s: State, s': State, t: nat, b: Sender) {
    s'.lock == s.lock && s'.capacity == s.capacity && s'.senders == s.senders[t := b] && s'.sending == s.sending && s'.active == s.active
  }

  lemma PopStep(s: State, t: nat) returns (s': State)
    requires t in s.senders && s.senders[t].Popping? && s.lock.None? && s.queue != []
    ensures Enabled(s, Pop(t)) && s' == Apply(s, Pop(t)) && SameBut(s, s', t, Holding(s.queue[0]))
    ensures s'.queue == s.queue[1..] && s'.files == s.files && HandedBy(s, Pop(t)) == []
  {
    hide Called, Reloaded;
    s' := Apply(s, Pop(t));
  }

  lemma ReadStep(s: State, t: nat, e: Entry) returns (s': State)
    requires t in s.senders && s.senders[t] == Holding(e) && e in s.files && s.files[e] != ""
    ensures Enabled(s, Read(t, true)) && s' == Apply(s, Read(t, true)) && SameBut(s, s', t, Loaded(e, s.files[e]))
    ensures s'.queue == s.queue && s'.files == s.files && HandedBy(s, Read(t, true)) == []
  {
    hide Called, Reloaded;
    s' := Apply(s, Read(t, true));
  }

  lemma SendStep(s: State, t: nat, e: Entry, sends: bool) returns (s': State)
    requires t in s.senders && s.senders[t].Loaded? && s.senders[t].entry == e
    ensures Enabled(s, Send(t, true, sends)) && s' == Apply(s, Send(t, true, sends))
    ensures SameBut(s, s', t, if sends then Delivered(e) else Unsent(e)) && s'.queue == s.queue && s'.files == s.files
    ensures HandedBy(s, Send(t, true, sends)) == if sends then [e] else []
  {
    hide Called, Reloaded;
    s' := Apply(s, Send(t, true, sends));
  }

  lemma BackStep(s: State, t: nat, e: Entry) returns (s': State)
    requires t in s.senders && s.senders[t] == Unsent(e) && s.lock.None?
    ensures Enabled(s, PutBack(t)) && s' == Apply(s, PutBack(t)) && SameBut(s, s', t, Counting)
    ensures s'.queue == (if |s.queue| < s.capacity then [e] + s.queue else s.queue) && s'.files == s.files && HandedBy(s, PutBack(t)) == []
  {
    hide Called, Reloaded;
    s' := Apply(s, PutBack(t));
  }

  lemma FinishStep(s: State, t: nat, e: Entry) returns (s': State)
    requires t in s.senders && s.senders[t] == Delivered(e)
    ensures Enabled(s, Finish(t)) && s' == Apply(s, Finish(t)) && SameBut(s, s', t, Counting)
    ensures s'.queue == s.queue && s'.files == s.files - {e} && HandedBy(s, Finish(t)) == []
  {
    hide Called, Reloaded;
    s' := Apply(s, Finish(t));
  }

  lemma CountStep(s: State, t: nat) returns (s': State)
    requires t in s.senders && s.senders[t].Counting? && s.lock.None?
    ensures Enabled(s, Count(t, true)) && s' == Apply(s, Count(t, true))
    ensures SameBut(s, s', t, if s.queue != [] then Popping else Leaving)
    ensures s'.queue == s.queue && s'.files == s.files && HandedBy(s, Count(t, true)) == []
  {
    hide Called, Reloaded;
    s' := Apply(s, Count(t, true));
  }

  /** In particular an entry that is put back is not overtaken by those that wait. */
  lemma NotOvertaken(s: State, t: nat)
    requires t in s.senders && s.senders[t].Unsent? && s.lock.None? && |s.queue| < s.capacity
    ensures Enabled(s, PutBack(t)) && Apply(s, PutBack(t)).queue == [s.senders[t].entry] + s.queue
  {
    var s' := BackStep(s, t, s.senders[t].entry);
    hide *;
  }

  // ----- A connection that holds -----

  /** Count, pop, read, send and unlink, once for each of n entries; then count and leave. */
  function Rounds(t: nat, n: nat): (run: seq<Action>) {
    if n == 0 then [Count(t, true)] + [Leave(t)]
    else [Count(t, true)] + ([Pop(t)] + ([Read(t, true)] + ([Send(t, true, true)] + ([Finish(t)] + Rounds(t, n - 1)))))
  }

  /** A thread that is past the guard and meets no failure sends the whole queue in its order, and leaves. */
  lemma DrainsInOrder(s: State, t: nat)
    requires t in s.senders && s.senders[t].Counting? && s.lock.None? && s.sending
    requires Distinct(s.queue) && forall e <- s.queue :: e in s.files && s.files[e] != ""
    ensures Runs(s, Rounds(t, |s.queue|)) && Handed([], s, Rounds(t, |s.queue|)) == s.queue
    ensures Drained(s, After(s, Rounds(t, |s.queue|)), t)
  {
    hide Enabled, Apply, Runs, After, HandedBy, Leads;
    var s' := Drain(s, t);
    LedTo(s, Rounds(t, |s.queue|), s', s.queue, []);
  }

  ghost predicate Drained(s: State, s': State, t: nat) {
    && s'.queue == [] && !s'.sending && t in s'.senders && s'.senders[t].Exited?
    && forall e :: e in s'.files <==> e in s.files && e !in s.queue
  }

  lemma {:induction false} Drain(s: State, t: nat) returns (s': State)
    requires t in s.senders && s.senders[t].Counting? && s.lock.None? && s.sending
    requires Distinct(s.queue) && forall e <- s.queue :: e in s.files && s.files[e] != ""
    ensures Leads(s, Rounds(t, |s.queue|), s', s.queue) && Drained(s, s', t)
    decreases |s.queue|
  {
    hide Enabled, Apply, Runs, After, HandedBy, Leads;
    var s1 := CountStep(s, t);
    if s.queue == [] {
      s' := LeaveStep(s1, t);
      LeadsNowhere(s');
      LeadsNext(s1, Leave(t), s', [], s', []);
      assert [Leave(t)] + [] == [Leave(t)];
      LeadsNext(s, Count(t, true), s1, [Leave(t)], s', []);
    } else {
      var e := s.queue[0];
      var s2 := PopStep(s1, t);
      var s3 := ReadStep(s2, t, e);
      var s4 := SendStep(s3, t, e, true);
      var s5 := FinishStep(s4, t, e);
      RestDistinct(s.queue);
      s' := Drain(s5, t);
      RoundLeads(s, s1, s2, s3, s4, s5, s', t, e);
    }
  }

  lemma RoundLeads(s: State, s1: State, s2: State, s3: State, s4: State, s5: State, s': State, t: nat, e: Entry)
    requires s.queue != [] && e == s.queue[0] && s5.queue == s.queue[1..]
    requires Enabled(s, Count(t, true)) && s1 == Apply(s, Count(t, true)) && HandedBy(s, Count(t, true)) == []
    requires Enabled(s1, Pop(t)) && s2 == Apply(s1, Pop(t)) && HandedBy(s1, Pop(t)) == []
    requires Enabled(s2, Read(t, true)) && s3 == Apply(s2, Read(t, true)) && HandedBy(s2, Read(t, true)) == []
    requires Enabled(s3, Send(t, true, true)) && s4 == Apply(s3, Send(t, true, true)) && HandedBy(s3, Send(t, true, true)) == [e]
    requires Enabled(s4, Finish(t)) && s5 == Apply(s4, Finish(t)) && HandedBy(s4, Finish(t)) == []
    requires Leads(s5, Rounds(t, |s5.queue|), s', s5.queue)
    ensures Leads(s, Rounds(t, |s.queue|), s', s.queue)
  {
    hide Enabled, Apply, Runs, After, HandedBy, Leads;
    var q, r0 := s5.queue, Rounds(t, |s5.queue|);
    var r1 := [Finish(t)] + r0;
    var r2 := [Send(t, true, true)] + r1;
    var r3 := [Read(t, true)] + r2;
    var r4 := [Pop(t)] + r3;
    assert [] + q == q && [] + s.queue == s.queue && [e] + q == s.queue;
    LeadsNext(s4, Finish(t), s5, r0, s', q);
    LeadsNext(s3, Send(t, true, true), s4, r1, s', q);
    LeadsNext(s2, Read(t, true), s3, r2, s', s.queue);
    LeadsNext(s1, Pop(t), s2, r3, s', s.queue);
    LeadsNext(s, Count(t, true), s1, r4, s', s.queue);
  }

  lemma RestDistinct(q: seq<Entry>)
    requires Distinct(q) && q != []
    ensures Distinct(q[1..]) && q[0] !in q[1..] && (set e | e in q) == {q[0]} + (set e | e in q[1..])
  {
    assert q == [q[0]] + q[1..];
  }

  lemma LeaveStep(s: State, t: nat) returns (s': State)
    requires t in s.senders && s.senders[t].Leaving?
    ensures Enabled(s, Leave(t)) && s' == Apply(s, Leave(t)) && s'.queue == s.queue && s'.files == s.files
    ensures !s'.sending && t in s'.senders && s'.senders[t].Exited? && HandedBy(s, Leave(t)) == []
  {
    hide Called, Reloaded;
    s' := Apply(s, Leave(t));
  }
}
