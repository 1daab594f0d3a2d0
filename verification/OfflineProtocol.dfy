/**
 * The offline cache as its threads run it (offlinemsgcache.c): any number of enqueuing calls and sender
 * threads over the locked queue and the cache files, one action at a time in any order, with the
 * process stopping and reloading its files at any point.
 *
 * An entry is enqueued by one call, so the call and its entry share a name, and so do the entry and
 * its file (CacheFileName shows that file names tell the entries apart). A stage says how far the call
 * has come and then what became of the entry. The fields handed, interrupted and active are history
 * that no action's guard reads.
 */
module OfflineProtocol {
  import opened Arith
  import opened OfflineQueue

  /** backed: the file could be opened for writing. */
  datatype Stage =
    | Offering
    | Admitted
    | Opened
    | Stored(backed: bool)
    | Locked(backed: bool)
    | Evicting(backed: bool, victim: nat)
    | Queued(backed: bool)
    | Doomed
    | Carried(backed: bool, holder: nat)
    | Refused
    | Evicted
    | Sent
    | Spoiled
    | Discarded
    | Lost

  /** Where a thread stands in send_messages_thread_fun. */
  datatype Sender =
    | Spawned
    | Counting
    | Popping
    | Holding(entry: Entry)
    | Loaded(entry: Entry, text: string)
    | Delivered(entry: Entry)
    | Unsent(entry: Entry)
    | Leaving
    | Exited

  datatype State = State(
    capacity: int,
    queue: seq<Entry>,
    lock: Option<Entry>,
    sending: bool,
    files: map<Entry, string>,
    stage: map<Entry, Stage>,
    message: map<Entry, string>,
    senders: map<nat, Sender>,
    handed: multiset<Entry>,
    interrupted: multiset<Entry>,
    active: Option<nat>)

  datatype Action =
    | Propose(e: Entry, message: string)
    | Admit(e: Entry)
    | Open(e: Entry, opens: bool)
    | Write(e: Entry, size: nat)
    | Lock(e: Entry)
    | Unlink(e: Entry)
    | Remove(e: Entry)
    | Push(e: Entry)
    | Spawn(t: nat)
    | Guard(t: nat)
    | Count(t: nat, connected: bool)
    | Pop(t: nat)
    | Read(t: nat, ok: bool)
    | Send(t: nat, parses: bool, sends: bool)
    | Finish(t: nat)
    | PutBack(t: nat)
    | Leave(t: nat)
    | Restart(order: seq<Entry>)

  predicate Carries(b: Sender) {
    b.Holding? || b.Loaded? || b.Delivered? || b.Unsent?
  }

  predicate PastGuard(b: Sender) {
    !b.Spawned? && !b.Exited?
  }

  predicate Distinct(q: seq<Entry>) {
    forall i, j :: 0 <= i < j < |q| ==> q[i] != q[j]
  }

  /** scandir hands the files over in order of their timestamps, in any order among equals. */
  predicate ByTime(q: seq<Entry>) {
    forall i, j :: 0 <= i < j < |q| ==> q[i].timestamp <= q[j].timestamp
  }

  predicate Enabled(s: State, a: Action) {
    match a
    // Distinct names: an entry is offered once. A negative priority would not be part of the name.
    case Propose(e, m) => e !in s.stage && e.priority >= 0
    case Admit(e) => e in s.stage && s.stage[e].Offering? && e in s.message && s.lock.None?
    case Open(e, _) => e in s.stage && s.stage[e].Admitted?
    case Write(e, n) => e in s.stage && s.stage[e].Opened? && e in s.message && n <= |s.message[e]|
    case Lock(e) => e in s.stage && s.stage[e].Stored? && s.lock.None?
    case Unlink(e) => e in s.stage && s.stage[e].Locked? && |s.queue| >= s.capacity && s.queue != []
    case Remove(e) => e in s.stage && s.stage[e].Evicting? && s.stage[e].victim < |s.queue|
    case Push(e) => e in s.stage && s.stage[e].Locked? && |s.queue| < s.capacity
    case Spawn(t) => t in s.senders ==> s.senders[t].Exited?
    case Guard(t) => t in s.senders && s.senders[t].Spawned?
    case Count(t, _) => t in s.senders && s.senders[t].Counting? && s.lock.None?
    case Pop(t) => t in s.senders && s.senders[t].Popping? && s.lock.None?
    case Read(t, ok) =>
      && t in s.senders && s.senders[t].Holding?
      && (ok && s.senders[t].entry in s.files ==> s.files[s.senders[t].entry] != "")
    case Send(t, _, _) => t in s.senders && s.senders[t].Loaded?
    case Finish(t) => t in s.senders && s.senders[t].Delivered?
    case PutBack(t) => t in s.senders && s.senders[t].Unsent? && s.lock.None?
    case Leave(t) => t in s.senders && s.senders[t].Leaving?
    case Restart(order) =>
      Distinct(order) && (forall e <- order :: e in s.files) && (forall e <- s.files :: e in order) && ByTime(order)
  }

  function Staged(s: State, e: Entry, g: Stage): State { s.(stage := s.stage[e := g]) }

  /** The sender has done with e, which ends at stage g, and counts the queue again. */
  function Returned(s: State, t: nat, e: Entry, g: Stage): State {
    s.(senders := s.senders[t := Counting], stage := s.stage[e := g])
  }

  /** One action; which one may run is Enabled's business. */
  function Apply(s: State, a: Action): (s': State)
    requires Enabled(s, a)
    ensures !a.Restart? ==> s'.interrupted == s.interrupted
    ensures s'.capacity == s.capacity
  {
    if ByCall(a) then Called(s, a)
    else if a.Restart? then Reloaded(s, a.order)
    else Sending(s, a)
  }

  predicate ByCall(a: Action) {
    a.Propose? || a.Admit? || a.Open? || a.Write? || a.Lock? || a.Unlink? || a.Remove? || a.Push?
  }

  /** The steps of cache_offline_message. */
  function Called(s: State, a: Action): (s': State)
    requires Enabled(s, a) && ByCall(a)
    ensures s'.interrupted == s.interrupted && s'.capacity == s.capacity
  {
    match a
    case Propose(e, m) => Staged(s, e, Offering).(message := s.message[e := m])
    case Admit(e) =>
      var enters := Admissible(s.queue, s.capacity, e.priority) && e.timestamp > 0 && s.message[e] != "";
      Staged(s, e, if enters then Admitted else Refused)
    case Open(e, opens) =>
      if opens then Staged(s, e, Opened).(files := s.files[e := ""])
      // fopen's failure is reported as the largest size_t, which is neither negative nor zero.
      else Staged(s, e, Stored(false))
    case Write(e, n) =>
      if n == 0 then Staged(s, e, Refused).(files := s.files - {e})
      else Staged(s, e, Stored(true)).(files := s.files[e := s.message[e][..n]])
    case Lock(e) => Staged(s, e, Locked(s.stage[e].backed)).(lock := Some(e))
    case Unlink(e) =>
      var k := Victim(s.queue);
      s.(stage := s.stage[e := Evicting(s.stage[e].backed, k)][s.queue[k] := Doomed], files := s.files - {s.queue[k]})
    case Remove(e) =>
      var k := s.stage[e].victim;
      s.(stage := s.stage[e := Locked(s.stage[e].backed)][s.queue[k] := Evicted], queue := RemoveAt(s.queue, k))
    case Push(e) => Staged(s, e, Queued(s.stage[e].backed)).(queue := s.queue + [e], lock := None)
  }

  /** The steps of send_messages_thread_fun. */
  function Sending(s: State, a: Action): (s': State)
    requires Enabled(s, a) && !ByCall(a) && !a.Restart?
    ensures s'.interrupted == s.interrupted && s'.capacity == s.capacity
  {
    match a
    case Spawn(t) => s.(senders := s.senders[t := Spawned])
    case Guard(t) =>
      if s.sending then s.(senders := s.senders[t := Exited])
      else s.(senders := s.senders[t := Counting], sending := true, active := Some(t))
    case Count(t, connected) =>
      s.(senders := s.senders[t := if s.queue != [] && connected then Popping else Leaving])
    case Pop(t) =>
      if s.queue == [] then s.(senders := s.senders[t := Counting])
      else
        var e := s.queue[0];
        var backed := e in s.stage && s.stage[e].Queued? && s.stage[e].backed;
        Staged(s, e, Carried(backed, t)).(senders := s.senders[t := Holding(e)], queue := s.queue[1..])
    case Read(t, ok) =>
      var e := s.senders[t].entry;
      if e !in s.files then Returned(s, t, e, Lost)
      else if ok then s.(senders := s.senders[t := Loaded(e, s.files[e])])
      else Returned(s, t, e, Spoiled).(files := s.files - {e})
    case Send(t, parses, sends) =>
      var e := s.senders[t].entry;
      if !parses then Returned(s, t, e, Spoiled).(files := s.files - {e})
      else if sends then s.(senders := s.senders[t := Delivered(e)], handed := s.handed + multiset{e})
      else s.(senders := s.senders[t := Unsent(e)])
    case Finish(t) =>
      var e := s.senders[t].entry;
      Returned(s, t, e, Sent).(files := s.files - {e})
    case PutBack(t) =>
      var e := s.senders[t].entry;
      if |s.queue| < s.capacity then Returned(s, t, e, Queued(true)).(queue := [e] + s.queue)
      else Returned(s, t, e, Discarded)
    case Leave(t) => s.(senders := s.senders[t := Exited], sending := false, active := None)
  }

  /** load_offline_messages in a new process: files whose timestamp is not positive are unlinked. */
  function Reloaded(s: State, order: seq<Entry>): State {
    var r := s.(files := Kept(s.files));
    r.(queue := Timed(order), lock := None, sending := false, senders := map[], active := None,
       stage := map e | e in s.stage :: AfterRestart(r, e), interrupted := s.interrupted + multiset(CutShort(s)))
  }

  function Kept(files: map<Entry, string>): map<Entry, string> {
    map e | e in files && e.timestamp > 0 :: files[e]
  }

  function Timed(order: seq<Entry>): seq<Entry> {
    if order == [] then []
    else (if order[0].timestamp > 0 then [order[0]] else []) + Timed(order[1..])
  }

  /** Handed over, but the file is still there. */
  predicate Pending(s: State, e: Entry) {
    && e in s.stage && s.stage[e].Carried?
    && s.stage[e].holder in s.senders && s.senders[s.stage[e].holder] == Delivered(e)
  }

  function CutShort(s: State): set<Entry> {
    set e | e in s.stage && Pending(s, e)
  }

  /** Every file is queued again; calls and threads are gone with what only they held. */
  function AfterRestart(s: State, e: Entry): (g: Stage)
    requires e in s.stage
    ensures HasFile(g) <==> e in s.files
    ensures g.Queued? <==> e in s.files
    ensures e in s.files ==> g == Queued(true)
    ensures !g.Carried? && !g.Stored? && !InSection(g) && !g.Doomed?
    ensures e !in s.files ==> (g.Sent? <==> s.stage[e].Sent?)
    ensures Entered(g) && e !in s.files ==> Entered(s.stage[e])
  {
    if e in s.files then Queued(true)
    else match s.stage[e]
      case Refused => Refused
      case Sent => Sent
      case Spoiled => Spoiled
      case Evicted => Evicted
      case Doomed => Evicted
      case _ => Lost
  }

  // ----- What holds between any two actions -----

  /** Sender threads and the entries taken off the queue name each other. */
  ghost predicate SendersInv(senders: map<nat, Sender>, stage: map<Entry, Stage>, files: map<Entry, string>) {
    && (forall t :: t in senders && Carries(senders[t]) ==>
         var b := senders[t];
         && b.entry in stage && stage[b.entry].Carried? && stage[b.entry].holder == t
         && (!b.Holding? ==> b.entry in files)
         && (b.Loaded? ==> b.text == files[b.entry] && b.text != ""))
    && (forall e :: e in stage && stage[e].Carried? ==>
         var t := stage[e].holder;
         t in senders && Carries(senders[t]) && senders[t].entry == e)
  }

  ghost predicate QueueInv(queue: seq<Entry>, stage: map<Entry, Stage>, capacity: int) {
    && Distinct(queue)
    && (forall e :: e in queue <==> e in stage && (stage[e].Queued? || stage[e].Doomed?))
    && capacity >= 1
  }

  predicate InSection(g: Stage) {
    g.Locked? || g.Evicting?
  }

  /** One call at a time is in the locked section; what it chose to evict stays where it was. */
  ghost predicate LockInv(lock: Option<Entry>, stage: map<Entry, Stage>, queue: seq<Entry>) {
    && (forall e :: e in stage && InSection(stage[e]) ==> lock == Some(e))
    && (lock.Some? ==> lock.value in stage && InSection(stage[lock.value]))
    && (forall e :: e in stage && stage[e].Doomed? ==>
         lock.Some? && lock.value in stage && stage[lock.value].Evicting? && IsVictim(queue, stage[lock.value].victim)
         && queue[stage[lock.value].victim] == e)
    && (forall e :: e in stage && stage[e].Evicting? ==>
         stage[e].victim < |queue| && queue[stage[e].victim] in stage && stage[queue[stage[e].victim]].Doomed?)
  }

  /** At most one thread is past the guard, and the flag says whether one is. */
  ghost predicate GuardInv(sending: bool, active: Option<nat>, senders: map<nat, Sender>) {
    && sending == active.Some?
    && (forall t :: t in senders && PastGuard(senders[t]) ==> active == Some(t))
    && (active.Some? ==> active.value in senders && PastGuard(senders[active.value]))
  }

  /** The entries that have a file. */
  predicate HasFile(g: Stage) {
    match g
    case Opened => true
    case Stored(b) => b
    case Locked(b) => b
    case Evicting(b, _) => b
    case Queued(b) => b
    case Carried(b, _) => b
    case Discarded => true
    case _ => false
  }

  /** Which files there are; each holds its message or a beginning of it. */
  ghost predicate FilesInv(files: map<Entry, string>, stage: map<Entry, Stage>, message: map<Entry, string>) {
    && stage.Keys == message.Keys
    && (forall e :: e in files <==> e in stage && HasFile(stage[e]))
    && (forall e :: e in files ==> files[e] <= message[e])
    && (forall e :: e in stage && Entered(stage[e]) ==> e.timestamp > 0)
  }

  /** Past the checks of the call; only their outcome is known of an entry that was lost or refused. */
  predicate Entered(g: Stage) {
    !g.Offering? && !g.Refused? && !g.Lost?
  }

  predicate HandedOver(e: Entry, g: Stage, senders: map<nat, Sender>) {
    g.Sent? || (g.Carried? && g.holder in senders && senders[g.holder] == Delivered(e))
  }

  /** Hand-overs: those a restart cut short, and the one that the stage tells of. */
  ghost predicate HandedInv(handed: multiset<Entry>, interrupted: multiset<Entry>, stage: map<Entry, Stage>, senders: map<nat, Sender>) {
    forall e :: handed[e] == interrupted[e] + if e in stage && HandedOver(e, stage[e], senders) then 1 else 0
  }

  ghost predicate Inv(s: State) {
    && SendersInv(s.senders, s.stage, s.files)
    && QueueInv(s.queue, s.stage, s.capacity)
    && LockInv(s.lock, s.stage, s.queue)
    && GuardInv(s.sending, s.active, s.senders)
    && FilesInv(s.files, s.stage, s.message)
    && HandedInv(s.handed, s.interrupted, s.stage, s.senders)
  }

  function Init(capacity: int): State {
    State(capacity, [], None, false, map[], map[], map[], map[], multiset{}, multiset{}, None)
  }

  lemma InitInv(capacity: int)
    requires capacity >= 1
    ensures Inv(Init(capacity))
  {}

  // ----- How a change of some fields bears on each part of the invariant -----

  /** Nothing but the file of e changes. */
  ghost predicate SameElsewhere(files: map<Entry, string>, files': map<Entry, string>, e: Entry) {
    forall x :: x != e ==> (x in files <==> x in files') && (x in files ==> files[x] == files'[x])
  }

  predicate IsCarried(stage: map<Entry, Stage>, e: Entry) {
    e in stage && stage[e].Carried?
  }

  /** A call moves on: no sender is concerned. */
  lemma CallMoves(s: State, e: Entry, g: Stage, files': map<Entry, string>)
    requires SendersInv(s.senders, s.stage, s.files) && HandedInv(s.handed, s.interrupted, s.stage, s.senders)
    requires !IsCarried(s.stage, e) && !g.Carried? && SameElsewhere(s.files, files', e)
    requires !g.Sent? && !(e in s.stage && s.stage[e].Sent?)
    ensures SendersInv(s.senders, s.stage[e := g], files') && HandedInv(s.handed, s.interrupted, s.stage[e := g], s.senders)
  {
  }

  lemma QueueStays(queue: seq<Entry>, stage: map<Entry, Stage>, capacity: int, e: Entry, g: Stage)
    requires QueueInv(queue, stage, capacity)
    requires e in queue <==> g.Queued? || g.Doomed?
    ensures QueueInv(queue, stage[e := g], capacity)
  {
  }

  /** Outside the locked section; while the lock is free the queue may change too. */
  lemma LockStays(lock: Option<Entry>, stage: map<Entry, Stage>, queue: seq<Entry>, e: Entry, g: Stage, queue': seq<Entry>)
    requires LockInv(lock, stage, queue) && !InSection(g) && !g.Doomed?
    requires e in stage ==> !InSection(stage[e]) && !stage[e].Doomed?
    requires queue' == queue || lock.None?
    ensures LockInv(lock, stage[e := g], queue')
  {
  }

  lemma FileFollows(files: map<Entry, string>, stage: map<Entry, Stage>, message: map<Entry, string>, e: Entry, g: Stage, files': map<Entry, string>)
    requires FilesInv(files, stage, message) && e in stage && SameElsewhere(files, files', e)
    requires e in files' <==> HasFile(g)
    requires e in files' ==> files'[e] <= message[e]
    requires Entered(g) ==> e.timestamp > 0
    ensures FilesInv(files', stage[e := g], message)
  {
  }

  /** A sender goes on with what it has. */
  lemma SenderMoves(s: State, t: nat, b: Sender)
    requires SendersInv(s.senders, s.stage, s.files) && HandedInv(s.handed, s.interrupted, s.stage, s.senders)
    requires Carries(b) <==> t in s.senders && Carries(s.senders[t])
    requires Carries(b) ==> b.entry == s.senders[t].entry && !s.senders[t].Delivered? && !b.Delivered?
    requires Carries(b) && !b.Holding? ==> b.entry in s.files && (b.Loaded? ==> b.text == s.files[b.entry] && b.text != "")
    ensures SendersInv(s.senders[t := b], s.stage, s.files) && HandedInv(s.handed, s.interrupted, s.stage, s.senders[t := b])
  {
  }

  /** A sender gives up its entry. */
  lemma SenderReturns(s: State, t: nat, e: Entry, g: Stage, files': map<Entry, string>)
    requires SendersInv(s.senders, s.stage, s.files) && HandedInv(s.handed, s.interrupted, s.stage, s.senders)
    requires t in s.senders && Carries(s.senders[t]) && s.senders[t].entry == e && SameElsewhere(s.files, files', e)
    requires !g.Carried? && (g.Sent? <==> s.senders[t].Delivered?)
    ensures SendersInv(s.senders[t := Counting], s.stage[e := g], files')
    ensures HandedInv(s.handed, s.interrupted, s.stage[e := g], s.senders[t := Counting])
  {
  }

  lemma GuardStays(sending: bool, active: Option<nat>, senders: map<nat, Sender>, t: nat, b: Sender)
    requires GuardInv(sending, active, senders)
    requires PastGuard(b) <==> t in senders && PastGuard(senders[t])
    ensures GuardInv(sending, active, senders[t := b])
  {
  }

  // ----- Each action keeps the invariant -----

  lemma ProposeKeeps(s: State, e: Entry, message: string)
    requires Inv(s) && Enabled(s, Propose(e, message))
    ensures Inv(Apply(s, Propose(e, message)))
  {
    hide SendersInv, QueueInv, LockInv, GuardInv, HandedInv, FilesInv;
    FilesNew(s, e, message);
    CallMoves(s, e, Offering, s.files);
    QueueStays(s.queue, s.stage, s.capacity, e, Offering);
    LockStays(s.lock, s.stage, s.queue, e, Offering, s.queue);
  }

  lemma FilesNew(s: State, e: Entry, m: string)
    requires Inv(s) && e !in s.stage
    ensures e !in s.queue && FilesInv(s.files, s.stage[e := Offering], s.message[e := m])
  {
    hide SendersInv, LockInv, GuardInv, HandedInv;
  }

  /** Admit, Open and Write: the call's own stage and its own file. */
  lemma EarlyKeeps(s: State, e: Entry, g: Stage, files': map<Entry, string>)
    requires Inv(s) && e in s.stage && (s.stage[e].Offering? || s.stage[e].Admitted? || s.stage[e].Opened?)
    requires g.Admitted? || g.Opened? || g.Stored? || g.Refused?
    requires SameElsewhere(s.files, files', e) && (e in files' <==> HasFile(g))
    requires e in files' ==> e in s.message && files'[e] <= s.message[e]
    requires Entered(g) ==> e.timestamp > 0
    ensures Inv(s.(stage := s.stage[e := g], files := files'))
  {
    hide SendersInv, QueueInv, LockInv, GuardInv, HandedInv, FilesInv;
    FilesAt(s, e);
    CallMoves(s, e, g, files');
    QueueStays(s.queue, s.stage, s.capacity, e, g);
    LockStays(s.lock, s.stage, s.queue, e, g, s.queue);
    FileFollows(s.files, s.stage, s.message, e, g, files');
  }

  // In the locked section.

  lemma LockTaken(lock: Option<Entry>, stage: map<Entry, Stage>, queue: seq<Entry>, e: Entry, b: bool)
    requires LockInv(lock, stage, queue) && lock.None? && e in stage && stage[e].Stored?
    ensures LockInv(Some(e), stage[e := Locked(b)], queue)
  {
  }

  lemma LockKeeps(s: State, e: Entry)
    requires Inv(s) && Enabled(s, Lock(e))
    ensures Inv(Apply(s, Lock(e)))
  {
    hide SendersInv, QueueInv, LockInv, GuardInv, HandedInv, FilesInv;
    var g := Locked(s.stage[e].backed);
    FilesAt(s, e);
    CallMoves(s, e, g, s.files);
    QueueStays(s.queue, s.stage, s.capacity, e, g);
    LockTaken(s.lock, s.stage, s.queue, e, s.stage[e].backed);
    FileFollows(s.files, s.stage, s.message, e, g, s.files);
  }

  /** What the invariant says of one entry. */
  lemma FilesAt(s: State, e: Entry)
    requires Inv(s) && e in s.stage
    ensures e in s.message
    ensures e in s.files <==> HasFile(s.stage[e])
    ensures e in s.files ==> s.files[e] <= s.message[e]
    ensures Entered(s.stage[e]) ==> e.timestamp > 0
    ensures e in s.queue <==> s.stage[e].Queued? || s.stage[e].Doomed?
    ensures InSection(s.stage[e]) ==> s.lock == Some(e)
    ensures s.stage[e].Doomed? ==> s.lock.Some? && s.lock.value in s.stage && s.stage[s.lock.value].Evicting?
  {
  }

  lemma QueuedAt(s: State, k: nat)
    requires Inv(s) && k < |s.queue|
    ensures s.queue[k] in s.queue && s.queue[k] in s.stage
  {
    hide SendersInv, LockInv, GuardInv, HandedInv, FilesInv;
  }

  lemma LockEvicts(stage: map<Entry, Stage>, queue: seq<Entry>, e: Entry, b: bool, k: nat)
    requires LockInv(Some(e), stage, queue) && e in stage && stage[e].Locked? && IsVictim(queue, k)
    requires queue[k] in stage && stage[queue[k]].Queued?
    ensures LockInv(Some(e), stage[e := Evicting(b, k)][queue[k] := Doomed], queue)
  {
  }

  lemma UnlinkKeeps(s: State, e: Entry)
    requires Inv(s) && Enabled(s, Unlink(e))
    ensures Inv(Apply(s, Unlink(e)))
  {
    hide SendersInv, QueueInv, LockInv, GuardInv, HandedInv, FilesInv, IsVictim;
    var k, b := Victim(s.queue), s.stage[e].backed;
    var v, g := s.queue[k], Evicting(b, k);
    QueuedAt(s, k);
    FilesAt(s, e);
    FilesAt(s, v);
    var s1 := s.(stage := s.stage[e := g]);
    LockEvicts(s.stage, s.queue, e, b, k);
    CallMoves(s, e, g, s.files);
    CallMoves(s1, v, Doomed, s.files - {v});
    QueueStays(s.queue, s.stage, s.capacity, e, g);
    QueueStays(s.queue, s1.stage, s.capacity, v, Doomed);
    FileFollows(s.files, s.stage, s.message, e, g, s.files);
    FileFollows(s.files, s1.stage, s.message, v, Doomed, s.files - {v});
  }

  lemma QueueLosesOne(queue: seq<Entry>, stage: map<Entry, Stage>, capacity: int, k: nat, g: Stage)
    requires QueueInv(queue, stage, capacity) && k < |queue| && !g.Queued? && !g.Doomed?
    ensures QueueInv(RemoveAt(queue, k), stage[queue[k] := g], capacity)
  {
    forall e ensures e in RemoveAt(queue, k) <==> e in queue && e != queue[k] {
      RemovedAt(queue, k, e);
    }
  }

  lemma LockEvicted(stage: map<Entry, Stage>, queue: seq<Entry>, e: Entry, b: bool, queue': seq<Entry>)
    requires LockInv(Some(e), stage, queue) && e in stage && stage[e].Evicting?
    ensures var k := stage[e].victim;
      && k < |queue| && queue[k] in stage && stage[queue[k]].Doomed?
      && LockInv(Some(e), stage[e := Locked(b)][queue[k] := Evicted], queue')
  {
  }

  lemma RemoveKeeps(s: State, e: Entry)
    requires Inv(s) && Enabled(s, Remove(e))
    ensures Inv(Apply(s, Remove(e)))
  {
    hide SendersInv, QueueInv, LockInv, GuardInv, HandedInv, FilesInv, RemoveAt;
    var k, b := s.stage[e].victim, s.stage[e].backed;
    var v, g, rest := s.queue[k], Locked(b), RemoveAt(s.queue, k);
    FilesAt(s, e);
    var s1 := s.(stage := s.stage[e := g]);
    LockEvicted(s.stage, s.queue, e, b, rest);
    FilesAt(s, v);
    CallMoves(s, e, g, s.files);
    CallMoves(s1, v, Evicted, s.files);
    QueueStays(s.queue, s.stage, s.capacity, e, g);
    QueueLosesOne(s.queue, s1.stage, s.capacity, k, Evicted);
    FileFollows(s.files, s.stage, s.message, e, g, s.files);
    FileFollows(s.files, s1.stage, s.message, v, Evicted, s.files);
  }

  /** An entry joins the queue at either end. */
  lemma QueueGainsOne(queue: seq<Entry>, stage: map<Entry, Stage>, capacity: int, e: Entry, b: bool)
    requires QueueInv(queue, stage, capacity) && e !in queue && |queue| < capacity
    ensures QueueInv(queue + [e], stage[e := Queued(b)], capacity)
    ensures QueueInv([e] + queue, stage[e := Queued(b)], capacity)
  {
  }

  lemma LockReleased(stage: map<Entry, Stage>, queue: seq<Entry>, e: Entry, b: bool, queue': seq<Entry>)
    requires LockInv(Some(e), stage, queue) && e in stage && stage[e].Locked?
    ensures LockInv(None, stage[e := Queued(b)], queue')
  {
  }

  lemma PushKeeps(s: State, e: Entry)
    requires Inv(s) && Enabled(s, Push(e))
    ensures Inv(Apply(s, Push(e)))
  {
    hide SendersInv, QueueInv, LockInv, GuardInv, HandedInv, FilesInv;
    var b := s.stage[e].backed;
    var g := Queued(b);
    FilesAt(s, e);
    CallMoves(s, e, g, s.files);
    QueueGainsOne(s.queue, s.stage, s.capacity, e, b);
    LockReleased(s.stage, s.queue, e, b, s.queue + [e]);
    FileFollows(s.files, s.stage, s.message, e, g, s.files);
  }

  // Sender threads.

  /** Spawn, Count, and every step with the same entry in hand and nothing handed over. */
  lemma SenderKeeps(s: State, t: nat, b: Sender)
    requires Inv(s) && (PastGuard(b) <==> t in s.senders && PastGuard(s.senders[t]))
    requires Carries(b) <==> t in s.senders && Carries(s.senders[t])
    requires Carries(b) ==> b.entry == s.senders[t].entry && !s.senders[t].Delivered? && !b.Delivered?
    requires Carries(b) && !b.Holding? ==> b.entry in s.files && (b.Loaded? ==> b.text == s.files[b.entry] && b.text != "")
    ensures Inv(s.(senders := s.senders[t := b]))
  {
    hide SendersInv, QueueInv, LockInv, GuardInv, HandedInv, FilesInv;
    SenderMoves(s, t, b);
    GuardStays(s.sending, s.active, s.senders, t, b);
  }

  lemma GuardKeeps(s: State, t: nat)
    requires Inv(s) && Enabled(s, Guard(t))
    ensures Inv(Apply(s, Guard(t)))
  {
    hide SendersInv, QueueInv, LockInv, HandedInv, FilesInv;
    SenderMoves(s, t, if s.sending then Exited else Counting);
  }

  lemma LeaveKeeps(s: State, t: nat)
    requires Inv(s) && Enabled(s, Leave(t))
    ensures Inv(Apply(s, Leave(t)))
  {
    hide SendersInv, QueueInv, LockInv, HandedInv, FilesInv;
    SenderMoves(s, t, Exited);
  }

  lemma SenderTakes(s: State, t: nat, e: Entry, b: bool)
    requires SendersInv(s.senders, s.stage, s.files) && HandedInv(s.handed, s.interrupted, s.stage, s.senders)
    requires t in s.senders && !Carries(s.senders[t]) && e in s.stage && s.stage[e].Queued?
    ensures SendersInv(s.senders[t := Holding(e)], s.stage[e := Carried(b, t)], s.files)
    ensures HandedInv(s.handed, s.interrupted, s.stage[e := Carried(b, t)], s.senders[t := Holding(e)])
  {
  }

  lemma PopKeeps(s: State, t: nat)
    requires Inv(s) && Enabled(s, Pop(t))
    ensures Inv(Apply(s, Pop(t)))
  {
    hide SendersInv, QueueInv, LockInv, GuardInv, HandedInv, FilesInv;
    if s.queue == [] {
      SenderKeeps(s, t, Counting);
    } else {
      var e := s.queue[0];
      QueuedAt(s, 0);
      FilesAt(s, e);
      var b, rest := s.stage[e].backed, RemoveAt(s.queue, 0);
      assert rest == s.queue[1..];
      SenderTakes(s, t, e, b);
      QueueLosesOne(s.queue, s.stage, s.capacity, 0, Carried(b, t));
      LockStays(s.lock, s.stage, s.queue, e, Carried(b, t), rest);
      GuardStays(s.sending, s.active, s.senders, t, Holding(e));
      FileFollows(s.files, s.stage, s.message, e, Carried(b, t), s.files);
    }
  }

  lemma CarriedAt(s: State, t: nat)
    requires Inv(s) && t in s.senders && Carries(s.senders[t])
    ensures var e := s.senders[t].entry;
      e in s.stage && s.stage[e].Carried? && e !in s.queue && (!s.senders[t].Holding? ==> e in s.files)
  {
  }

  /** A sender ends an entry's way: lost, spoiled, sent or discarded. */
  lemma EndKeeps(s: State, t: nat, e: Entry, g: Stage, files': map<Entry, string>)
    requires Inv(s) && t in s.senders && Carries(s.senders[t]) && s.senders[t].entry == e
    requires g.Lost? || g.Spoiled? || g.Sent? || (g.Discarded? && files' == s.files && e in s.files)
    requires g.Sent? <==> s.senders[t].Delivered?
    requires SameElsewhere(s.files, files', e) && (e in files' <==> g.Discarded?)
    ensures Inv(Returned(s, t, e, g).(files := files'))
  {
    hide SendersInv, QueueInv, LockInv, GuardInv, HandedInv, FilesInv;
    CarriedAt(s, t);
    FilesAt(s, e);
    SenderReturns(s, t, e, g, files');
    QueueStays(s.queue, s.stage, s.capacity, e, g);
    LockStays(s.lock, s.stage, s.queue, e, g, s.queue);
    GuardStays(s.sending, s.active, s.senders, t, Counting);
    FileFollows(s.files, s.stage, s.message, e, g, files');
  }

  lemma PutBackKeeps(s: State, t: nat)
    requires Inv(s) && Enabled(s, PutBack(t))
    ensures Inv(Apply(s, PutBack(t)))
  {
    hide SendersInv, QueueInv, LockInv, GuardInv, HandedInv, FilesInv;
    var e := s.senders[t].entry;
    CarriedAt(s, t);
    FilesAt(s, e);
    if |s.queue| < s.capacity {
      var g := Queued(true);
      SenderReturns(s, t, e, g, s.files);
      QueueGainsOne(s.queue, s.stage, s.capacity, e, true);
      LockStays(s.lock, s.stage, s.queue, e, g, [e] + s.queue);
      GuardStays(s.sending, s.active, s.senders, t, Counting);
      FileFollows(s.files, s.stage, s.message, e, g, s.files);
    } else {
      EndKeeps(s, t, e, Discarded, s.files);
      assert Apply(s, PutBack(t)) == Returned(s, t, e, Discarded).(files := s.files);
    }
  }

  lemma HandOver(s: State, t: nat)
    requires SendersInv(s.senders, s.stage, s.files) && HandedInv(s.handed, s.interrupted, s.stage, s.senders)
    requires t in s.senders && s.senders[t].Loaded?
    ensures var e := s.senders[t].entry;
      && SendersInv(s.senders[t := Delivered(e)], s.stage, s.files)
      && HandedInv(s.handed + multiset{e}, s.interrupted, s.stage, s.senders[t := Delivered(e)])
  {
  }

  lemma SendKeeps(s: State, t: nat, parses: bool, sends: bool)
    requires Inv(s) && Enabled(s, Send(t, parses, sends))
    ensures Inv(Apply(s, Send(t, parses, sends)))
  {
    hide SendersInv, QueueInv, LockInv, GuardInv, HandedInv, FilesInv;
    var e := s.senders[t].entry;
    CarriedAt(s, t);
    if !parses {
      EndKeeps(s, t, e, Spoiled, s.files - {e});
    } else if sends {
      HandOver(s, t);
      GuardStays(s.sending, s.active, s.senders, t, Delivered(e));
    } else {
      SenderKeeps(s, t, Unsent(e));
    }
  }

  lemma RestartKeeps(s: State, order: seq<Entry>)
    requires Inv(s) && Enabled(s, Restart(order))
    ensures Inv(Apply(s, Restart(order)))
  {
    hide SendersInv, LockInv, HandedInv, FilesInv, AfterRestart, Timed, Kept, CutShort, Called, Sending;
    ReloadKeepsAll(s, order);
    var s' := Apply(s, Restart(order));
    assert s.(files := s.files) == s;
    RestartFiles(s, order, s'.stage);
    RestartThreads(s, order, s'.stage);
    RestartQueue(s, order, s'.stage);
    RestartHanded(s, s'.stage);
  }

  /** Every file was made by a call that had checked its timestamp. */
  lemma ReloadKeepsAll(s: State, order: seq<Entry>)
    requires Inv(s) && Enabled(s, Restart(order))
    ensures Kept(s.files) == s.files && Timed(order) == order
  {
    hide SendersInv, QueueInv, LockInv, GuardInv, HandedInv, FilesInv, Timed, Kept;
    FilesTimed(s.files, s.stage, s.message);
    KeptAll(s.files);
    AllTimed(order);
  }

  lemma FilesTimed(files: map<Entry, string>, stage: map<Entry, Stage>, message: map<Entry, string>)
    requires FilesInv(files, stage, message)
    ensures forall e <- files :: e.timestamp > 0
  {
    forall e | e in files ensures e.timestamp > 0 {
      assert HasFile(stage[e]) && Entered(stage[e]);
    }
  }

  lemma KeptAll(files: map<Entry, string>)
    requires forall e <- files :: e.timestamp > 0
    ensures Kept(files) == files
  {
  }

  lemma {:induction false} AllTimed(order: seq<Entry>)
    requires forall e <- order :: e.timestamp > 0
    ensures Timed(order) == order
  {
    if order != [] {
      AllTimed(order[1..]);
    }
  }

  ghost predicate Restarted(s: State, stage: map<Entry, Stage>) {
    stage.Keys == s.stage.Keys && forall e :: e in s.stage ==> stage[e] == AfterRestart(s, e)
  }

  lemma RestartFiles(s: State, order: seq<Entry>, stage: map<Entry, Stage>)
    requires FilesInv(s.files, s.stage, s.message) && Restarted(s, stage)
    ensures FilesInv(s.files, stage, s.message)
  {
    hide AfterRestart, HasFile, Entered;
    forall e | e in stage
      ensures (e in s.files <==> HasFile(stage[e])) && (Entered(stage[e]) ==> e.timestamp > 0)
    {
      FilesEnter(s.files, s.stage, s.message, e);
    }
  }

  lemma FilesEnter(files: map<Entry, string>, stage: map<Entry, Stage>, message: map<Entry, string>, e: Entry)
    requires FilesInv(files, stage, message) && e in stage
    ensures e in files ==> Entered(stage[e])
    ensures Entered(stage[e]) ==> e.timestamp > 0
  {
  }

  lemma RestartThreads(s: State, order: seq<Entry>, stage: map<Entry, Stage>)
    requires Restarted(s, stage)
    ensures SendersInv(map[], stage, s.files) && LockInv(None, stage, order)
  {
    hide AfterRestart, HasFile, Entered;
  }

  lemma RestartQueue(s: State, order: seq<Entry>, stage: map<Entry, Stage>)
    requires FilesInv(s.files, s.stage, s.message) && Restarted(s, stage) && Distinct(order) && s.capacity >= 1
    requires (forall e <- order :: e in s.files) && (forall e <- s.files :: e in order)
    ensures QueueInv(order, stage, s.capacity)
  {
    hide AfterRestart;
  }

  lemma RestartHanded(s: State, stage: map<Entry, Stage>)
    requires FilesInv(s.files, s.stage, s.message) && SendersInv(s.senders, s.stage, s.files)
    requires HandedInv(s.handed, s.interrupted, s.stage, s.senders) && Restarted(s, stage)
    ensures HandedInv(s.handed, s.interrupted + multiset(CutShort(s)), stage, map[])
  {
    hide AfterRestart;
  }

  /** Every action keeps the invariant. */
  lemma StepInv(s: State, a: Action)
    requires Inv(s) && Enabled(s, a)
    ensures Inv(Apply(s, a))
  {
    hide Inv;
    match a
    case Propose(e, m) => ProposeKeeps(s, e, m);
    case Admit(e) => CallKeeps(s, a);
    case Open(e, _) => CallKeeps(s, a);
    case Write(e, _) => CallKeeps(s, a);
    case Lock(e) => LockKeeps(s, e);
    case Unlink(e) => UnlinkKeeps(s, e);
    case Remove(e) => RemoveKeeps(s, e);
    case Push(e) => PushKeeps(s, e);
    case Spawn(t) => SenderKeeps(s, t, Spawned);
    case Guard(t) => GuardKeeps(s, t);
    case Count(t, connected) => SenderKeeps(s, t, if s.queue != [] && connected then Popping else Leaving);
    case Pop(t) => PopKeeps(s, t);
    case Read(t, ok) => ReadKeeps(s, t, ok);
    case Send(t, parses, sends) => SendKeeps(s, t, parses, sends);
    case Finish(t) => EndKeeps(s, t, s.senders[t].entry, Sent, s.files - {s.senders[t].entry});
    case PutBack(t) => PutBackKeeps(s, t);
    case Leave(t) => LeaveKeeps(s, t);
    case Restart(order) => RestartKeeps(s, order);
  }

  lemma CallKeeps(s: State, a: Action)
    requires Inv(s) && Enabled(s, a) && (a.Admit? || a.Open? || a.Write?)
    ensures Inv(Apply(s, a))
  {
    hide Inv, Admissible, Sending, Reloaded;
    FilesAt(s, a.e);
    var s' := Apply(s, a);
    EarlyKeeps(s, a.e, s'.stage[a.e], s'.files);
    assert s' == s.(stage := s.stage[a.e := s'.stage[a.e]], files := s'.files);
  }

  lemma ReadKeeps(s: State, t: nat, ok: bool)
    requires Inv(s) && Enabled(s, Read(t, ok))
    ensures Inv(Apply(s, Read(t, ok)))
  {
    hide Inv;
    var e := s.senders[t].entry;
    if e !in s.files {
      EndKeeps(s, t, e, Lost, s.files);
      assert Apply(s, Read(t, ok)) == Returned(s, t, e, Lost).(files := s.files);
    } else if ok {
      SenderKeeps(s, t, Loaded(e, s.files[e]));
    } else {
      EndKeeps(s, t, e, Spoiled, s.files - {e});
    }
  }
}
