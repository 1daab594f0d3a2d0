/**
 * Whole runs of the offline cache: what holds after every run from an empty or a reloaded queue, in every
 * interleaving, and the runs that show where the cache falls short.
 */
module OfflineRuns {
  import opened Arith
  import opened OfflineQueue
  import opened OfflineProtocol

  // ----- Whole runs -----

  predicate Runs(s: State, run: seq<Action>)
    decreases |run|
  {
    run == [] || (Enabled(s, run[0]) && Runs(Apply(s, run[0]), run[1..]))
  }

  function After(s: State, run: seq<Action>): State
    requires Runs(s, run)
    decreases |run|
  {
    if run == [] then s else After(Apply(s, run[0]), run[1..])
  }

  /** The invariant holds after every run, in every interleaving. */
  lemma {:induction false} RunInv(s: State, run: seq<Action>)
    requires Inv(s) && Runs(s, run)
    ensures Inv(After(s, run))
    decreases |run|
  {
    hide Inv, Enabled, Apply;
    if run != [] {
      StepInv(s, run[0]);
      RunInv(Apply(s, run[0]), run[1..]);
    }
  }

  /** Restarts in the run put back no more entries than the capacity. */
  ghost predicate ModestRestarts(run: seq<Action>, capacity: int) {
    forall a <- run :: a.Restart? ==> |a.order| <= capacity
  }

  /** A queue that starts within the capacity stays within it, whatever interleaves. */
  lemma {:induction false} CapacityKept(s: State, run: seq<Action>)
    requires |s.queue| <= s.capacity && Runs(s, run) && ModestRestarts(run, s.capacity)
    ensures |After(s, run).queue| <= s.capacity
    decreases |run|
  {
    if run != [] {
      CapacityStep(s, run[0]);
      hide Enabled, Apply;
      assert run[0] in run;
      CapacityKept(Apply(s, run[0]), run[1..]);
    }
  }

  lemma CapacityStep(s: State, a: Action)
    requires Enabled(s, a) && |s.queue| <= s.capacity
    ensures !a.Restart? || |a.order| <= s.capacity ==> |Apply(s, a).queue| <= s.capacity
  {
    if a.Restart? {
      TimedLength(a.order);
    }
    hide Timed, Kept, CutShort, AfterRestart, Admissible, IsVictim;
  }

  lemma {:induction false} TimedLength(order: seq<Entry>)
    ensures |Timed(order)| <= |order|
  {
    if order != [] { TimedLength(order[1..]); }
  }

  /** One action takes a queue over its capacity exactly if it is a restart with more files than that. */
  lemma OnlyRestartsOverfill(s: State, a: Action)
    requires Inv(s) && Enabled(s, a) && |s.queue| <= s.capacity
    ensures |Apply(s, a).queue| > s.capacity <==> a.Restart? && |s.files| > s.capacity
  {
    hide Timed, Kept, CutShort, AfterRestart, Inv, Called, Sending;
    CapacityStep(s, a);
    if a.Restart? {
      ReloadKeepsAll(s, a.order);
      EachFileOnce(a.order, s.files);
    }
  }

  lemma EachFileOnce(order: seq<Entry>, files: map<Entry, string>)
    requires Distinct(order) && (forall e <- order :: e in files) && (forall e <- files :: e in order)
    ensures |order| == |files|
  {
    DistinctCount(order);
    assert (set e | e in order) == files.Keys;
  }

  lemma {:induction false} DistinctCount(order: seq<Entry>)
    requires Distinct(order)
    ensures |set e | e in order| == |order|
  {
    if order != [] {
      var l := |order| - 1;
      DistinctCount(order[..l]);
      assert order == order[..l] + [order[l]];
      assert (set e | e in order) == (set e | e in order[..l]) + {order[l]};
    }
  }

  /** At most one thread is past the guard. */
  lemma OneSender(s: State, t: nat, u: nat)
    requires Inv(s) && t in s.senders && u in s.senders && PastGuard(s.senders[t]) && PastGuard(s.senders[u])
    ensures t == u && s.sending
  {
  }

  /**
   * A queued entry has its file, holding its message or a beginning of it, unless the file could not
   * be opened for writing or the holder of the lock has just unlinked it to remove the entry.
   */
  lemma QueuedHasFile(s: State, e: Entry)
    requires Inv(s) && e in s.queue
    ensures e in s.stage && e in s.message
    ensures e in s.files <==> s.stage[e] == Queued(true)
    ensures e in s.files ==> s.files[e] <= s.message[e]
    ensures e !in s.files ==> s.stage[e] == Queued(false) || (s.lock.Some? && s.stage[e].Doomed?)
  {
    hide SendersInv, LockInv, GuardInv, HandedInv;
    assert e in s.stage;
    FilesAt(s, e);
  }

  /** What the stage of e tells of whether its file was opened. */
  ghost predicate Traced(s: State, e: Entry, had: bool) {
    if e in s.stage then Tells(s.stage[e], had) else !had
  }

  predicate Tells(g: Stage, had: bool) {
    match g
    case Offering => !had
    case Admitted => !had
    case Opened => had
    case Stored(b) => b == had
    case Locked(b) => b == had
    case Evicting(b, _) => b == had
    case Queued(b) => b == had
    case Carried(b, _) => b == had
    case Discarded => had
    case _ => true
  }

  lemma TracedStep(s: State, a: Action, e: Entry, had: bool)
    requires Inv(s) && Enabled(s, a) && Traced(s, e, had)
    ensures Traced(Apply(s, a), e, had || a == Open(e, true))
  {
    if ByCall(a) {
      TracedCall(s, a, e, had);
    } else if a.Restart? {
      TracedRestart(s, a.order, e, had);
    } else {
      TracedSender(s, a, e, had);
    }
    hide *;
  }

  lemma TracedCall(s: State, a: Action, e: Entry, had: bool)
    requires Enabled(s, a) && ByCall(a) && Traced(s, e, had)
    ensures Traced(Apply(s, a), e, had || a == Open(e, true))
  {
    if a.Unlink? || a.Remove? {
      TracedEviction(s, a, e, had);
    } else {
      TracedOwn(s, a, e, had);
    }
    hide *;
  }

  lemma TracedEviction(s: State, a: Action, e: Entry, had: bool)
    requires Enabled(s, a) && (a.Unlink? || a.Remove?) && Traced(s, e, had)
    ensures Traced(Apply(s, a), e, had)
  {
    hide IsVictim, RemoveAt, Sending, Reloaded;
  }

  lemma TracedOwn(s: State, a: Action, e: Entry, had: bool)
    requires Enabled(s, a) && ByCall(a) && !a.Unlink? && !a.Remove? && Traced(s, e, had)
    ensures Traced(Apply(s, a), e, had || a == Open(e, true))
  {
    if a.e == e {
      OwnTells(s, a, had);
    }
    OwnStage(s, a);
    hide Enabled, Apply, Traced, Tells;
    TracedChange(s, Apply(s, a), a.e, e, had, had || a == Open(e, true));
  }

  /** Outside evictions a call changes its own stage only. */
  lemma OwnStage(s: State, a: Action)
    requires Enabled(s, a) && ByCall(a) && !a.Unlink? && !a.Remove?
    ensures a.e in Apply(s, a).stage && Apply(s, a).stage == s.stage[a.e := Apply(s, a).stage[a.e]]
  {
    hide Admissible, Sending, Reloaded;
    var g := Apply(s, a).stage[a.e];
    match a
    case Propose(e, m) => assert Called(s, Propose(e, m)).stage == s.stage[e := g];
    case Admit(e) => assert Called(s, Admit(e)).stage == s.stage[e := g];
    case Open(e, ok) => assert Called(s, Open(e, ok)).stage == s.stage[e := g];
    case Write(e, n) => assert Called(s, Write(e, n)).stage == s.stage[e := g];
    case Lock(e) => assert Called(s, Lock(e)).stage == s.stage[e := g];
    case Push(e) => assert Called(s, Push(e)).stage == s.stage[e := g];
  }

  lemma OwnTells(s: State, a: Action, had: bool)
    requires Enabled(s, a) && ByCall(a) && !a.Unlink? && !a.Remove? && Traced(s, a.e, had)
    ensures a.e in Apply(s, a).stage && Tells(Apply(s, a).stage[a.e], had || a == Open(a.e, true))
  {
    if a.Lock? || a.Push? {
      LockTells(s, a, had);
    } else if a.Open? {
      OpenTells(s, a.e, a.opens, had);
    } else if a.Write? {
      WriteTells(s, a.e, a.size, had);
    } else {
      AdmitTells(s, a, had);
    }
    hide *;
  }

  lemma AdmitTells(s: State, a: Action, had: bool)
    requires Enabled(s, a) && (a.Propose? || a.Admit?) && Traced(s, a.e, had)
    ensures a.e in Apply(s, a).stage && Tells(Apply(s, a).stage[a.e], had)
  {
    hide Admissible, Sending, Reloaded;
  }

  lemma OpenTells(s: State, e: Entry, ok: bool, had: bool)
    requires Enabled(s, Open(e, ok)) && Traced(s, e, had)
    ensures e in Apply(s, Open(e, ok)).stage && Tells(Apply(s, Open(e, ok)).stage[e], had || ok)
  {
    hide Sending, Reloaded;
  }

  lemma WriteTells(s: State, e: Entry, n: nat, had: bool)
    requires Enabled(s, Write(e, n)) && Traced(s, e, had)
    ensures e in Apply(s, Write(e, n)).stage && Tells(Apply(s, Write(e, n)).stage[e], had)
  {
    hide Sending, Reloaded;
  }

  lemma LockTells(s: State, a: Action, had: bool)
    requires Enabled(s, a) && (a.Lock? || a.Push?) && Traced(s, a.e, had)
    ensures a.e in Apply(s, a).stage && Tells(Apply(s, a).stage[a.e], had)
  {
    hide Admissible, Sending, Reloaded;
  }

  /** Only the stage of x changes. */
  lemma TracedChange(s: State, s': State, x: Entry, e: Entry, had: bool, had': bool)
    requires Traced(s, e, had) && x in s'.stage && s'.stage == s.stage[x := s'.stage[x]]
    requires if e == x then Tells(s'.stage[x], had') else had' == had
    ensures Traced(s', e, had')
  {
  }

  lemma TracedRestart(s: State, order: seq<Entry>, e: Entry, had: bool)
    requires Inv(s) && Enabled(s, Restart(order)) && Traced(s, e, had)
    ensures Traced(Apply(s, Restart(order)), e, had)
  {
    hide Inv, Timed, Kept, CutShort, Called, Sending, HasFile, AfterRestart;
    ReloadKeepsAll(s, order);
    assert s.(files := s.files) == s;
    if e in s.stage {
      TracedFile(s, e, had);
      assert Apply(s, Restart(order)).stage[e] == AfterRestart(s, e);
    }
  }

  lemma TracedFile(s: State, e: Entry, had: bool)
    requires Inv(s) && e in s.stage && Traced(s, e, had)
    ensures e in s.files ==> had
    ensures e !in s.files ==> !AfterRestart(s, e).Offering? && !AfterRestart(s, e).Admitted? && !AfterRestart(s, e).Opened? && !AfterRestart(s, e).Discarded?
  {
    FilesAt(s, e);
    hide Inv;
  }

  lemma TracedSender(s: State, a: Action, e: Entry, had: bool)
    requires Inv(s) && Enabled(s, a) && !ByCall(a) && !a.Restart? && Traced(s, e, had)
    ensures Traced(Apply(s, a), e, had)
  {
    hide Inv, Called, Reloaded, HasFile, Traced;
    if a.Pop? && s.queue != [] {
      QueuedAt(s, 0);
      NotDoomed(s, s.queue[0]);
      TracedPop(s, a.t, e, had);
    } else if a.PutBack? {
      PutBackWasBacked(s, a.t);
      TracedPutBack(s, a.t, e, had);
    } else if a.Read? || a.Send? || a.Finish? {
      TracedEnd(s, a, e, had);
    } else {
      TracedSame(s, Apply(s, a), e, had);
    }
  }

  lemma TracedSame(s: State, s': State, e: Entry, had: bool)
    requires Traced(s, e, had) && s'.stage == s.stage
    ensures Traced(s', e, had)
  {
  }

  lemma TracedPop(s: State, t: nat, e: Entry, had: bool)
    requires Enabled(s, Pop(t)) && Traced(s, e, had) && s.queue != []
    requires s.queue[0] in s.stage && s.stage[s.queue[0]].Queued?
    ensures Traced(Apply(s, Pop(t)), e, had)
  {
    hide Called, Reloaded;
  }

  lemma TracedPutBack(s: State, t: nat, e: Entry, had: bool)
    requires Enabled(s, PutBack(t)) && Traced(s, e, had)
    requires var x := s.senders[t].entry; x in s.stage && s.stage[x].Carried? && s.stage[x].backed
    ensures Traced(Apply(s, PutBack(t)), e, had)
  {
    hide Called, Reloaded;
  }

  lemma TracedEnd(s: State, a: Action, e: Entry, had: bool)
    requires Inv(s) && Enabled(s, a) && (a.Read? || a.Send? || a.Finish?) && Traced(s, e, had)
    ensures Traced(Apply(s, a), e, had)
  {
    hide Inv, Called, Reloaded, Traced;
    CarriedAt(s, a.t);
    var x, s' := s.senders[a.t].entry, Apply(s, a);
    if s'.stage == s.stage {
      TracedSame(s, s', e, had);
    } else {
      TracedChange(s, s', x, e, had, had);
    }
  }

  lemma NotDoomed(s: State, e: Entry)
    requires Inv(s) && s.lock.None? && e in s.queue
    ensures e in s.stage && s.stage[e].Queued?
  {
    hide SendersInv, GuardInv, HandedInv, FilesInv;
    assert e in s.stage;
    FilesAt(s, e);
  }

  lemma PutBackWasBacked(s: State, t: nat)
    requires Inv(s) && t in s.senders && s.senders[t].Unsent?
    ensures var e := s.senders[t].entry; e in s.stage && s.stage[e].Carried? && s.stage[e].backed
  {
    CarriedAt(s, t);
    FilesAt(s, s.senders[t].entry);
  }

  lemma {:induction false} TracedRun(s: State, run: seq<Action>, e: Entry, had: bool)
    requires Inv(s) && Runs(s, run) && Traced(s, e, had)
    ensures Traced(After(s, run), e, had || Open(e, true) in run)
    decreases |run|
  {
    hide Inv, Traced, Enabled, Apply;
    if run != [] {
      var a := run[0];
      TracedStep(s, a, e, had);
      StepInv(s, a);
      TracedRun(Apply(s, a), run[1..], e, had || a == Open(e, true));
      assert run == [a] + run[1..];
    }
  }

  /** Between locked sections a queued entry has its file exactly if its own open succeeded. */
  lemma QueueIsOnDisk(capacity: int, run: seq<Action>, e: Entry)
    requires capacity >= 1 && Runs(Init(capacity), run)
    requires After(Init(capacity), run).lock.None? && e in After(Init(capacity), run).queue
    ensures e in After(Init(capacity), run).files <==> Open(e, true) in run
  {
    InitInv(capacity);
    TracedRun(Init(capacity), run, e, false);
    RunInv(Init(capacity), run);
    hide Inv, Enabled, Apply, Runs, After;
    NotDoomed(After(Init(capacity), run), e);
    QueuedHasFile(After(Init(capacity), run), e);
  }

  ghost predicate Reachable(capacity: int, s: State) {
    exists run :: Runs(Init(capacity), run) && After(Init(capacity), run) == s
  }

  lemma ReachInit(capacity: int)
    ensures Reachable(capacity, Init(capacity))
  {
    assert Runs(Init(capacity), []) && After(Init(capacity), []) == Init(capacity);
  }

  lemma ReachNext(capacity: int, s: State, a: Action)
    requires Reachable(capacity, s) && Enabled(s, a)
    ensures Reachable(capacity, Apply(s, a))
  {
    hide Enabled, Apply, Runs, After;
    var run :| Runs(Init(capacity), run) && After(Init(capacity), run) == s;
    Extend(Init(capacity), run, a);
  }

  lemma {:induction false} Extend(s: State, run: seq<Action>, a: Action)
    requires Runs(s, run) && Enabled(After(s, run), a)
    ensures Runs(s, run + [a]) && After(s, run + [a]) == Apply(After(s, run), a)
    decreases |run|
  {
    hide Enabled, Apply;
    if run == [] {
      assert (run + [a])[1..] == [];
    } else {
      Extend(Apply(s, run[0]), run[1..], a);
      assert (run + [a])[1..] == run[1..] + [a];
    }
  }

  /** A failed open is taken for a success: the entry is queued with no file behind it. */
  lemma QueuedWithoutFile(e: Entry)
    requires e.priority >= 0 && e.timestamp > 0
    ensures exists s :: Reachable(1, s) && s.queue == [e] && s.files == map[]
  {
    hide Reachable, Sending, Reloaded;
    ReachInit(1);
    var s0 := Init(1);
    var s1 := Apply(s0, Propose(e, "m"));
    var s2 := Apply(s1, Admit(e));
    var s3 := Apply(s2, Open(e, false));
    var s4 := Apply(s3, Lock(e));
    var s5 := Apply(s4, Push(e));
    ReachNext(1, s0, Propose(e, "m"));
    ReachNext(1, s1, Admit(e));
    ReachNext(1, s2, Open(e, false));
    ReachNext(1, s3, Lock(e));
    ReachNext(1, s4, Push(e));
    assert Reachable(1, s5) && s5.queue == [e] && s5.files == map[];
  }

  lemma DeliveredWasHanded(s: State, t: nat)
    requires Inv(s) && t in s.senders && s.senders[t].Delivered?
    ensures s.senders[t].entry in s.handed
  {
    CarriedAt(s, t);
  }

  /** The action a may unlink the file of e and leave e at stage g. */
  ghost predicate MayUnlink(s: State, a: Action, e: Entry, g: Stage)
    requires Enabled(s, a)
  {
    match g
    case Doomed => a.Unlink? && s.queue != [] && e == s.queue[Victim(s.queue)] && |s.queue| >= s.capacity
    case Sent => a.Finish? && s.senders[a.t] == Delivered(e) && e in s.handed
    case Spoiled => e !in s.queue && ((a.Read? && !a.ok) || (a.Send? && !a.parses))
    case Refused => e !in s.queue && a == Write(e, 0)
    case _ => false
  }

  /**
   * A file disappears only when its entry is evicted, was handed over, could not be read or parsed,
   * or never got a byte and so was never queued.
   */
  lemma UnlinkOnlyAfter(s: State, a: Action, e: Entry)
    requires Inv(s) && Enabled(s, a) && e in s.files && e !in Apply(s, a).files
    ensures e in Apply(s, a).stage && MayUnlink(s, a, e, Apply(s, a).stage[e])
  {
    if ByCall(a) {
      CallUnlinks(s, a, e);
    } else {
      SenderUnlinks(s, a, e);
    }
    hide *;
  }

  lemma CallUnlinks(s: State, a: Action, e: Entry)
    requires Inv(s) && Enabled(s, a) && ByCall(a) && e in s.files && e !in Apply(s, a).files
    ensures e in Apply(s, a).stage && MayUnlink(s, a, e, Apply(s, a).stage[e])
  {
    hide Inv, HasFile, Admissible, IsVictim;
    OnDisk(s, e);
    if a.Write? || a.Unlink? {
      CallStage(s, a.e);
    }
  }

  lemma SenderUnlinks(s: State, a: Action, e: Entry)
    requires Inv(s) && Enabled(s, a) && !ByCall(a) && e in s.files && e !in Apply(s, a).files
    ensures e in Apply(s, a).stage && MayUnlink(s, a, e, Apply(s, a).stage[e])
  {
    hide Inv, HasFile, Reloaded, ByTime, Distinct, Called;
    if a.Restart? {
      RestartUnlinksNothing(s, a.order);
    } else if a.Read? || a.Send? || a.Finish? {
      CarriedAt(s, a.t);
      if a.Finish? { DeliveredWasHanded(s, a.t); }
    }
  }

  lemma RestartUnlinksNothing(s: State, order: seq<Entry>)
    requires Inv(s) && Enabled(s, Restart(order))
    ensures Apply(s, Restart(order)).files == s.files
  {
    hide Inv, AfterRestart, Timed, Kept, CutShort, Called, Sending;
    ReloadKeepsAll(s, order);
  }

  lemma OnDisk(s: State, e: Entry)
    requires Inv(s) && e in s.files
    ensures e in s.stage
  {
    hide SendersInv, LockInv, QueueInv, GuardInv, HandedInv;
  }

  lemma CallStage(s: State, e: Entry)
    requires Inv(s) && e in s.stage
    ensures e in s.queue <==> s.stage[e].Queued? || s.stage[e].Doomed?
  {
    FilesAt(s, e);
  }

  /** How often a restart came between the hand-over of e and the unlinking of its file. */
  ghost function CutsShort(s: State, run: seq<Action>, e: Entry): nat
    requires Runs(s, run)
    decreases |run|
  {
    if run == [] then 0
    else (if run[0].Restart? && Pending(s, e) then 1 else 0) + CutsShort(Apply(s, run[0]), run[1..], e)
  }

  lemma {:induction false} InterruptedCounts(s: State, run: seq<Action>, e: Entry)
    requires Runs(s, run)
    ensures After(s, run).interrupted[e] == s.interrupted[e] + CutsShort(s, run, e)
    decreases |run|
  {
    if run != [] {
      InterruptedStep(s, run[0], e);
      hide Enabled, Apply, Pending;
      InterruptedCounts(Apply(s, run[0]), run[1..], e);
    }
  }

  lemma InterruptedStep(s: State, a: Action, e: Entry)
    requires Enabled(s, a)
    ensures Apply(s, a).interrupted[e] == s.interrupted[e] + if a.Restart? && Pending(s, e) then 1 else 0
  {
    hide Called, Sending, AfterRestart, Timed, Kept;
  }

  /**
   * An entry is handed over once for each restart that came between its hand-over and the unlinking of
   * its file, and once more if it has been handed over since: at most once where there was no such restart.
   */
  lemma HandedOnce(capacity: int, run: seq<Action>, e: Entry)
    requires capacity >= 1 && Runs(Init(capacity), run)
    ensures var s := After(Init(capacity), run);
      s.handed[e] == CutsShort(Init(capacity), run, e) + if e in s.stage && HandedOver(e, s.stage[e], s.senders) then 1 else 0
  {
    InitInv(capacity);
    RunInv(Init(capacity), run);
    InterruptedCounts(Init(capacity), run, e);
    hide Enabled, Apply, Runs, After, CutsShort, SendersInv, QueueInv, LockInv, GuardInv, FilesInv;
  }

  /** What a sender hands over is the enqueued message, or a beginning of it, and not empty. */
  lemma LoadedText(s: State, t: nat)
    requires Inv(s) && t in s.senders && s.senders[t].Loaded?
    ensures var b := s.senders[t]; b.entry in s.message && b.text <= s.message[b.entry] && b.text != ""
  {
    CarriedAt(s, t);
    FilesAt(s, s.senders[t].entry);
    hide QueueInv, LockInv, GuardInv, HandedInv, FilesInv;
  }

  /**
   * A restart queues exactly the entries that had a file, in order of their timestamps: every queued
   * message is there again, and so is one that was dropped because the queue was full; none that was
   * sent, spoiled, evicted or refused is. No file is unlinked.
   */
  lemma RestartReloads(s: State, order: seq<Entry>, e: Entry)
    requires Inv(s) && Enabled(s, Restart(order)) && e in s.stage
    ensures var q := Apply(s, Restart(order)).queue;
      && ByTime(q)
      && (e in q <==> HasFile(s.stage[e]))
      && (s.stage[e] == Queued(true) || s.stage[e].Discarded? ==> e in q)
      && (e in q ==> e in s.message && s.files[e] <= s.message[e] && e.timestamp > 0)
      && Apply(s, Restart(order)).files == s.files
  {
    hide SendersInv, QueueInv, LockInv, GuardInv, HandedInv, FilesInv, Called, Sending, AfterRestart, Timed, Kept, CutShort;
    FilesAt(s, e);
    ReloadKeepsAll(s, order);
  }

  /** At rest, with nothing dropped and timestamps in arrival order, the restart restores the queue itself. */
  lemma RestartRestores(s: State, order: seq<Entry>)
    requires Inv(s) && Enabled(s, Restart(order))
    requires forall e :: e in s.stage && HasFile(s.stage[e]) ==> s.stage[e].Queued?
    requires forall e <- s.queue :: e in s.files
    requires forall i, j :: 0 <= i < j < |s.queue| ==> s.queue[i].timestamp < s.queue[j].timestamp
    ensures Apply(s, Restart(order)).queue == s.queue
  {
    hide AfterRestart, HandedInv, GuardInv, LockInv, SendersInv, Timed, Kept, CutShort;
    ReloadKeepsAll(s, order);
    forall e ensures e in order <==> e in s.queue {
      if e in order { OnDisk(s, e); FilesAt(s, e); }
    }
    SortedAlike(order, s.queue);
  }

  lemma {:induction false} SortedAlike(a: seq<Entry>, b: seq<Entry>)
    requires Distinct(a) && ByTime(a) && forall i, j :: 0 <= i < j < |b| ==> b[i].timestamp < b[j].timestamp
    requires forall e :: e in a <==> e in b
    ensures a == b
    decreases |a|
  {
    assert b != [] ==> b[0] in b;
    if a != [] {
      assert a[0] in a;
      var i :| 0 <= i < |b| && b[i] == a[0];
      var j :| 0 <= j < |a| && a[j] == b[0];
      assert a[0] == b[0];
      TailMembers(a, b);
      SortedAlike(a[1..], b[1..]);
      assert a == [a[0]] + a[1..] && b == [b[0]] + b[1..];
    }
  }

  lemma TailMembers(a: seq<Entry>, b: seq<Entry>)
    requires Distinct(a) && Distinct(b) && a != [] && b != [] && a[0] == b[0] && forall e :: e in a <==> e in b
    ensures forall e :: e in a[1..] <==> e in b[1..]
  {
    forall e ensures (e in a[1..] <==> e in a && e != a[0]) && (e in b[1..] <==> e in b && e != b[0]) {
      assert a == [a[0]] + a[1..] && b == [b[0]] + b[1..];
    }
  }

  /** Whoever holds the lock can go on, so no one waits for ever on a holder that is stuck. */
  lemma HolderMoves(s: State)
    requires Inv(s) && s.lock.Some?
    ensures var e := s.lock.value; Enabled(s, Unlink(e)) || Enabled(s, Remove(e)) || Enabled(s, Push(e))
  {
    hide SendersInv, GuardInv, HandedInv, FilesInv;
  }

  // ----- A call that nothing interrupts -----

  /** The call of e alone leads from s to s'. */
  ghost predicate Alone(s: State, e: Entry, s': State) {
    exists run :: Runs(s, run) && After(s, run) == s' && forall a <- run :: ByCall(a) && a.e == e
  }

  lemma AloneStart(s: State, e: Entry)
    ensures Alone(s, e, s)
  {
    assert Runs(s, []) && After(s, []) == s;
  }

  lemma AloneNext(s: State, e: Entry, s': State, a: Action)
    requires Alone(s, e, s') && Enabled(s', a) && ByCall(a) && a.e == e
    ensures Alone(s, e, Apply(s', a))
  {
    hide Enabled, Apply, Runs, After;
    var run :| Runs(s, run) && After(s, run) == s' && forall a <- run :: ByCall(a) && a.e == e;
    Extend(s, run, a);
    var longer := run + [a];
    assert forall x <- longer :: ByCall(x) && x.e == e;
  }

  lemma {:induction false} EvictAll(s: State, e: Entry, at: State) returns (s': State)
    requires Alone(s, e, at) && e in at.stage && at.stage[e].Locked? && at.capacity >= 1 && e !in at.queue
    ensures Alone(s, e, s') && s'.queue == Trimmed(at.queue, at.capacity) + [e]
    ensures e in s'.stage && s'.stage[e].Queued?
    decreases |at.queue|
  {
    hide Alone, Sending, Reloaded;
    if |at.queue| < at.capacity {
      s' := Apply(at, Push(e));
      AloneNext(s, e, at, Push(e));
    } else {
      var s1 := EvictOne(s, e, at);
      s' := EvictAll(s, e, s1);
    }
  }

  lemma EvictOne(s: State, e: Entry, at: State) returns (s': State)
    requires Alone(s, e, at) && e in at.stage && at.stage[e].Locked? && e !in at.queue && |at.queue| >= at.capacity >= 1
    ensures Alone(s, e, s') && s'.queue == RemoveAt(at.queue, Victim(at.queue)) && s'.capacity == at.capacity
    ensures e in s'.stage && s'.stage[e].Locked? && e !in s'.queue
  {
    hide Alone, Sending, Reloaded, RemoveAt, IsVictim;
    var v := at.queue[Victim(at.queue)];
    assert v in at.queue;
    AloneNext(s, e, at, Unlink(e));
    var s1 := Apply(at, Unlink(e));
    AloneNext(s, e, s1, Remove(e));
    s' := Apply(s1, Remove(e));
    assert e !in s'.queue by {
      forall i | 0 <= i < |s'.queue| ensures s'.queue[i] in at.queue {}
    }
  }

  /**
   * A call whose actions run without a break ends refused or queued, and does to the queue what the
   * sequential specification says.
   */
  lemma Uninterrupted(s: State, e: Entry, m: string, size: nat) returns (s': State)
    requires s.lock.None? && s.capacity >= 1 && e !in s.stage && e !in s.queue && e.priority >= 0 && size <= |m|
    ensures Alone(s, e, s') && e in s'.stage
    ensures s'.queue == Offered(Books(s.queue, 0), s.capacity, Offer(m, e, size)).queue
    ensures if Admissible(s.queue, s.capacity, e.priority) && Acceptable(Offer(m, e, size))
      then s'.stage[e].Queued? else s'.stage[e].Refused?
  {
    hide Alone, Sending, Reloaded, Trimmed;
    AloneStart(s, e);
    AloneNext(s, e, s, Propose(e, m));
    var s1 := Apply(s, Propose(e, m));
    AloneNext(s, e, s1, Admit(e));
    s' := Apply(s1, Admit(e));
    if s'.stage[e].Admitted? {
      s' := Written(s, e, s', m, size);
      if size > 0 {
        AloneNext(s, e, s', Lock(e));
        s' := EvictAll(s, e, Apply(s', Lock(e)));
      }
    }
  }

  lemma Written(s: State, e: Entry, at: State, m: string, size: nat) returns (s': State)
    requires Alone(s, e, at) && e in at.stage && at.stage[e].Admitted? && e in at.message && at.message[e] == m && size <= |m|
    ensures Alone(s, e, s') && e in s'.stage && s'.queue == at.queue && s'.capacity == at.capacity && s'.lock == at.lock
    ensures s'.stage[e] == if size == 0 then Refused else Stored(true)
  {
    hide Alone, Sending, Reloaded;
    AloneNext(s, e, at, Open(e, true));
    var s1 := Apply(at, Open(e, true));
    AloneNext(s, e, s1, Write(e, size));
    s' := Apply(s1, Write(e, size));
  }

  // ----- Admission is tested before the lock is taken -----

  /** Over a full queue an eviction takes an entry of no higher priority exactly if the test still passes. */
  lemma FairEviction(q: seq<Entry>, capacity: int, priority: int)
    requires |q| >= capacity >= 1
    ensures q[Victim(q)].priority <= priority <==> Admissible(q, capacity, priority)
  {
  }

  /** A call up to the point where it has written its file. */
  lemma Store(s: State, e: Entry) returns (s': State)
    requires Reachable(1, s) && e in s.stage && s.stage[e].Admitted? && e in s.message && s.message[e] == "m"
    ensures Reachable(1, s')
    ensures s' == s.(stage := s.stage[e := Stored(true)], files := s.files[e := "m"])
  {
    hide Reachable, Sending, Reloaded;
    ReachNext(1, s, Open(e, true));
    var s1 := Apply(s, Open(e, true));
    ReachNext(1, s1, Write(e, 1));
    s' := Apply(s1, Write(e, 1));
    assert s1.message[e][..1] == "m";
    assert s1.stage[e := Stored(true)] == s.stage[e := Stored(true)];
    assert s1.files[e := "m"] == s.files[e := "m"];
  }

  /** Two calls pass the test on the empty queue. */
  lemma BothAdmitted(low: Entry, high: Entry) returns (s: State)
    requires 0 <= low.priority < high.priority && low.timestamp > 0 && high.timestamp > 0
    ensures Reachable(1, s)
    ensures s == Init(1).(stage := map[low := Admitted, high := Admitted], message := map[low := "m", high := "m"])
  {
    hide Reachable, Sending, Reloaded;
    ReachInit(1);
    var s0 := Init(1);
    var s1 := Apply(s0, Propose(low, "m"));
    var s2 := Apply(s1, Propose(high, "m"));
    var s3 := Apply(s2, Admit(low));
    s := Apply(s3, Admit(high));
    ReachNext(1, s0, Propose(low, "m"));
    ReachNext(1, s1, Propose(high, "m"));
    ReachNext(1, s2, Admit(low));
    ReachNext(1, s3, Admit(high));
    assert s.stage == map[low := Admitted, high := Admitted];
    assert s.message == map[low := "m", high := "m"];
  }

  /** Otherwise a low priority admitted early can push out a higher one that overtook it. */
  lemma StaleAdmission(low: Entry, high: Entry)
    requires 0 <= low.priority < high.priority && low.timestamp > 0 && high.timestamp > 0
    ensures exists s :: Reachable(1, s) && s.queue == [low] && high in s.stage && s.stage[high].Evicted?
  {
    hide Reachable, Sending, Reloaded;
    var s0 := BothAdmitted(low, high);
    var s1 := Store(s0, low);
    var s2 := Store(s1, high);
    var s3 := Apply(s2, Lock(high));
    var s4 := Apply(s3, Push(high));
    ReachNext(1, s2, Lock(high));
    ReachNext(1, s3, Push(high));
    assert s4.queue == [high];
    Overtaken(s4, low, high);
  }

  lemma Overtaken(s: State, low: Entry, high: Entry)
    requires Reachable(1, s) && s.capacity == 1 && s.queue == [high] && s.lock.None? && low != high
    requires low in s.stage && s.stage[low].Stored? && high in s.stage
    ensures exists s' :: Reachable(1, s') && s'.queue == [low] && high in s'.stage && s'.stage[high].Evicted?
  {
    hide Reachable, Sending, Reloaded;
    var s1 := Apply(s, Lock(low));
    ReachNext(1, s, Lock(low));
    var s2 := Apply(s1, Unlink(low));
    ReachNext(1, s1, Unlink(low));
    var s3 := Apply(s2, Remove(low));
    ReachNext(1, s2, Remove(low));
    assert s3.queue == [];
    var s4 := Apply(s3, Push(low));
    ReachNext(1, s3, Push(low));
    assert s4.queue == [low] && s4.stage[high].Evicted?;
  }

  // ----- Restarts -----

  /** A call alone, on an empty queue of capacity 1. */
  lemma Enqueued(s: State, e: Entry) returns (s': State)
    requires Reachable(1, s) && s.capacity == 1 && s.queue == [] && s.lock.None?
    requires e !in s.stage && e.priority >= 0 && e.timestamp > 0
    ensures Reachable(1, s') && s' == s.(queue := [e], stage := s.stage[e := Queued(true)], message := s.message[e := "m"], files := s.files[e := "m"])
  {
    hide Reachable, Sending, Reloaded;
    var s1 := Welcomed(s, e);
    var s2 := Store(s1, e);
    ReachNext(1, s2, Lock(e));
    var s3 := Apply(s2, Lock(e));
    ReachNext(1, s3, Push(e));
    s' := Apply(s3, Push(e));
    assert s'.stage == s.stage[e := Queued(true)];
  }

  lemma Welcomed(s: State, e: Entry) returns (s': State)
    requires Reachable(1, s) && s.capacity == 1 && s.queue == [] && s.lock.None?
    requires e !in s.stage && e.priority >= 0 && e.timestamp > 0
    ensures Reachable(1, s') && s' == s.(stage := s.stage[e := Admitted], message := s.message[e := "m"])
  {
    hide Reachable, Sending, Reloaded;
    ReachNext(1, s, Propose(e, "m"));
    var s1 := Apply(s, Propose(e, "m"));
    ReachNext(1, s1, Admit(e));
    s' := Apply(s1, Admit(e));
    assert s'.stage == s.stage[e := Admitted];
  }

  /** A new sender thread, up to the point where it takes an entry. */
  lemma Started(s: State) returns (s': State)
    requires Reachable(1, s) && s.queue != [] && s.lock.None? && !s.sending && s.senders == map[]
    ensures Reachable(1, s') && s' == s.(senders := map[0 := Popping], sending := true, active := Some(0))
  {
    hide Reachable, Called, Reloaded;
    ReachNext(1, s, Spawn(0));
    var s1 := Apply(s, Spawn(0));
    ReachNext(1, s1, Guard(0));
    var s2 := Apply(s1, Guard(0));
    ReachNext(1, s2, Count(0, true));
    s' := Apply(s2, Count(0, true));
    assert s'.senders == map[0 := Popping];
  }

  /** It takes the only entry and reads its file. */
  lemma Fetched(s: State, e: Entry) returns (s': State)
    requires Reachable(1, s) && s.queue == [e] && s.lock.None? && !s.sending && s.senders == map[]
    requires e in s.stage && s.stage[e] == Queued(true) && e in s.files && s.files[e] == "m"
    ensures Reachable(1, s')
    ensures s' == s.(queue := [], stage := s.stage[e := Carried(true, 0)], senders := map[0 := Loaded(e, "m")], sending := true, active := Some(0))
  {
    hide Reachable, Called, Reloaded;
    var s1 := Started(s);
    ReachNext(1, s1, Pop(0));
    var s2 := Apply(s1, Pop(0));
    assert s2.queue == [];
    ReachNext(1, s2, Read(0, true));
    s' := Apply(s2, Read(0, true));
    assert s'.senders == map[0 := Loaded(e, "m")];
  }

  /** A restart can leave more entries in the queue than its capacity: more files than that were there. */
  lemma Overfilled(a: Entry, b: Entry)
    requires a.priority >= 0 && b.priority >= 0 && 0 < a.timestamp <= b.timestamp && a != b
    ensures exists s :: Reachable(1, s) && s.capacity == 1 && s.queue == [a, b]
  {
    hide Reachable, Called, Sending, Kept, CutShort, AfterRestart;
    ReachInit(1);
    var s1 := Enqueued(Init(1), a);
    var s2 := Fetched(s1, a);
    var s3 := Enqueued(s2, b);
    ReachNext(1, s3, Restart([a, b]));
    var s4 := Apply(s3, Restart([a, b]));
    AllTimed([a, b]);
    assert s4.queue == [a, b];
  }

  /** A restart between the hand-over and the unlinking has the message handed over again. */
  lemma HandedTwice(e: Entry)
    requires e.priority >= 0 && e.timestamp > 0
    ensures exists s :: Reachable(1, s) && s.handed[e] == 2
  {
    hide Reachable, Called;
    ReachInit(1);
    var s1 := Enqueued(Init(1), e);
    var s2 := Fetched(s1, e);
    ReachNext(1, s2, Send(0, true, true));
    var s3 := Apply(s2, Send(0, true, true));
    ReachNext(1, s3, Restart([e]));
    var s4 := Apply(s3, Restart([e]));
    AllTimed([e]);
    assert s4.queue == [e] && s4.stage[e] == Queued(true) && s4.files == s3.files;
    var s5 := Fetched(s4, e);
    ReachNext(1, s5, Send(0, true, true));
    var s6 := Apply(s5, Send(0, true, true));
    assert s6.handed[e] == 2;
  }

  /** A message that is dropped because the queue filled up meanwhile keeps its file, and a restart queues it again. */
  lemma DroppedComesBack(a: Entry, b: Entry)
    requires a.priority >= 0 && b.priority >= 0 && 0 < a.timestamp <= b.timestamp && a != b
    ensures exists s ::
      && Reachable(1, s) && a in s.stage && s.stage[a].Discarded? && a in s.files && a !in s.queue
      && Enabled(s, Restart([a, b])) && a in Apply(s, Restart([a, b])).queue
  {
    hide Reachable, Called, Kept, CutShort, AfterRestart;
    ReachInit(1);
    var s1 := Enqueued(Init(1), a);
    var s2 := Fetched(s1, a);
    var s3 := Enqueued(s2, b);
    ReachNext(1, s3, Send(0, true, false));
    var s4 := Apply(s3, Send(0, true, false));
    ReachNext(1, s4, PutBack(0));
    var s5 := Apply(s4, PutBack(0));
    AllTimed([a, b]);
    assert s5.stage[a].Discarded? && a !in s5.queue;
    assert Apply(s5, Restart([a, b])).queue == [a, b];
  }
}
