/**
 * The runner protocol: wrappers that run the sync command behind the shared execution lock, HTTP
 * threads that reconcile and reserve, all over one journal. One step is one transaction, one lock
 * operation or one process event, and any process may die between two steps.
 */
module Runner {
  import opened Common
  import opened RunnerStore

  /* ---- Wrappers ---- */

  /** Turned away at the lock, or holding it. Orphan: the wrapper died and its command lives on. */
  datatype Phase = Waiting | Turned | Locked | Claimed | Attending | Orphan | Ended | Recorded | Gone

  /**
   * `run` is the run this wrapper's claim committed; `known` says whether the wrapper learned of it,
   * for a scheduled run goes on when its journal fails.
   */
  datatype Wrapper = Wrapper(origin: Origin, key: Option<RequestKey>, phase: Phase, run: Option<nat>, known: bool)

  /** The wrapper or its command has the lock's open file. */
  predicate HoldsLock(p: Phase) {
    p in {Locked, Claimed, Attending, Orphan, Ended, Recorded}
  }

  predicate Executing(p: Phase) {
    p == Attending || p == Orphan
  }

  /** The command runs or may still be started. */
  predicate MayExecute(p: Phase) {
    p == Claimed || Executing(p)
  }

  datatype Act =
    | TakeLock
    | TurnAway
    | NoteBusy(journaled: bool)
    | ClaimRun
    | ClaimFails(committed: bool)
    | Refuse
    | StartCommand
    | Abandon
    | CommandEnds
    | ReportEarly
    | Record(outcome: RunState, journaled: bool)
    | Leave
    | Die

  predicate CanAct(me: Wrapper, lock: Option<Holder>, act: Act) {
    match act
    case TakeLock => me.phase == Waiting && lock.None?
    case TurnAway => me.phase == Waiting && lock.Some?
    case NoteBusy(_) => me.phase == Turned
    case ClaimRun => me.phase == Locked && (me.origin == Manual ==> me.key.Some?)
    case ClaimFails(_) => me.phase == Locked && (me.origin == Manual ==> me.key.Some?)
    case Refuse => me.phase == Locked && me.origin == Manual && me.key.None?
    case StartCommand => me.phase == Claimed
    case Abandon => me.phase == Claimed
    case CommandEnds => Executing(me.phase)
    case ReportEarly => me.phase == Attending
    case Record(outcome, _) => me.phase == Ended && !Active(outcome)
    case Leave => me.phase == Recorded
    case Die => me.phase !in {Orphan, Gone}
  }

  /** What an act makes of the wrapper and the journal. */
  function Acted(db: Journal, me: Wrapper, act: Act): (Wrapper, Journal) {
    match act
    case TakeLock => (me.(phase := Locked), db)
    case TurnAway => (me.(phase := Turned), db)
    case NoteBusy(journaled) => (me.(phase := Gone), if journaled then LockBusy(db, me.origin, me.key) else db)
    case ClaimRun => Claiming(db, me, true)
    case ClaimFails(committed) =>
      if committed then Claiming(db, me, false)
      else (me.(phase := if me.origin == Manual then Gone else Claimed), db)
    case Refuse => (me.(phase := Gone), db)
    case StartCommand => (me.(phase := Attending), db)
    case Abandon => (me.(phase := Ended), db)
    case CommandEnds => (me.(phase := if me.phase == Attending then Ended else Gone), db)
    case ReportEarly => (me, Report(db, me, Interrupted))
    case Record(outcome, journaled) => (me.(phase := Recorded), if journaled then Report(db, me, outcome) else db)
    case Leave => (me.(phase := Gone), db)
    case Die => (me.(phase := if me.phase == Attending then Orphan else Gone), db)
  }

  /** A manual request stops without a durable claim; a scheduled run goes on. */
  function Claiming(db: Journal, me: Wrapper, known: bool): (Wrapper, Journal) {
    var (next, claimed) := Claim(db, me.origin, me.key);
    var stops := me.origin == Manual && (claimed.None? || !known);
    (me.(run := claimed, known := known && claimed.Some?, phase := if stops then Gone else Claimed), next)
  }

  /** The wrapper's own completion of the run it knows of. */
  function Report(db: Journal, me: Wrapper, outcome: RunState): Journal {
    if me.known && me.run.Some? then Complete(db, me.run.value, outcome, None) else db
  }

  /* ---- Threads of the bridge ---- */

  /** A run seen active, with the state it was seen in. */
  type Seen = (nat, RunState)

  /** `start` is the request the thread goes on to start after reconciling. */
  datatype Thread =
    | Lookup(key: RequestKey)
    | Reading(start: Option<RequestKey>)
    | Probing(seen: seq<Seen>, start: Option<RequestKey>)
    | Probed(seen: seq<Seen>, start: Option<RequestKey>)
    | Finishing(seen: seq<Seen>, start: Option<RequestKey>)
    | Checking(key: RequestKey)
    | Checked(key: RequestKey)
    | Reserving(key: RequestKey)
    | Launching(key: RequestKey)
    | Finished

  predicate ThreadHolds(t: Thread) {
    t.Probed? || t.Checked?
  }

  /** `stale` are the queued runs past their grace whose manual unit is not active. */
  datatype Move = Proceed(stale: set<nat>, serviceActive: bool) | Vanish

  function SeenActive(db: Journal, stale: set<nat>, n: nat): seq<Seen>
    requires n <= |db.runs|
  {
    if n == 0 then []
    else
      var state := db.runs[n - 1].state;
      SeenActive(db, stale, n - 1) +
      (if state == Running || (state == Queued && n - 1 in stale) then [(n - 1, state)] else [])
  }

  /** The next thing a thread does: `start`, around `reconcile`, one transaction or lock step at a time. */
  function Moved(db: Journal, lock: Option<Holder>, thread: Thread, move: Move): (Thread, Journal) {
    if move.Vanish? then (Finished, db)
    else
      match thread
      case Lookup(key) => (if FindKey(db, Some(key)) < |db.runs| then Finished else Reading(Some(key)), db)
      case Reading(start) =>
        var seen := SeenActive(db, move.stale, |db.runs|);
        (if seen == [] then Finishing([], start) else Probing(seen, start), db)
      case Probing(seen, start) => (if lock.None? then Probed(seen, start) else Finishing([], start), db)
      case Probed(seen, start) => (Finishing(seen, start), db)
      case Finishing(seen, start) =>
        if seen != [] then (Finishing(seen[1..], start), Complete(db, seen[0].0, Interrupted, Some(seen[0].1)))
        else (if start.Some? && !move.serviceActive then Checking(start.value) else Finished, db)
      case Checking(key) => (if lock.None? then Checked(key) else Finished, db)
      case Checked(key) => (Reserving(key), db)
      case Reserving(key) =>
        var (next, r) := Reserve(db, key);
        (if r.Created? then Launching(key) else Finished, next)
      case Launching(key) => (Finished, db)
      case Finished => (Finished, db)
  }

  /* ---- The whole system ---- */

  datatype Holder = ByWrapper(w: nat) | ByThread(t: nat) | ByOther

  /** A command started, for which request and under which claimed run. */
  datatype Start = Start(origin: Origin, key: Option<RequestKey>, run: Option<nat>)

  /** `starts` logs every command started. */
  datatype World = World(db: Journal, lock: Option<Holder>, wrappers: seq<Wrapper>, threads: seq<Thread>,
                         starts: seq<Start>)

  /** Wrappers are launched by timers, operators and systemd, whether or not a reservation was made. */
  datatype Step =
    | Launch(origin: Origin, key: Option<RequestKey>)
    | Request(start: Option<RequestKey>)
    | WrapperActs(w: nat, act: Act)
    | ThreadMoves(t: nat, move: Move)
    | OtherLocks
    | OtherUnlocks

  /** The lock is held while a process has its file open. */
  function LockAfter(lock: Option<Holder>, holder: Holder, holds: bool): Option<Holder> {
    if holds then Some(holder) else if lock == Some(holder) then None else lock
  }

  predicate Enabled(s: World, step: Step) {
    match step
    case Launch(_, _) => true
    case Request(_) => true
    case WrapperActs(w, act) => w < |s.wrappers| && CanAct(s.wrappers[w], s.lock, act)
    case ThreadMoves(t, _) => t < |s.threads|
    case OtherLocks => s.lock.None?
    case OtherUnlocks => s.lock == Some(ByOther)
  }

  function Apply(s: World, step: Step): World
    requires Enabled(s, step)
  {
    match step
    case Launch(origin, key) => s.(wrappers := s.wrappers + [Wrapper(origin, key, Waiting, None, false)])
    case Request(start) => s.(threads := s.threads + [if start.Some? then Lookup(start.value) else Reading(None)])
    case WrapperActs(w, act) =>
      var (me, db) := Acted(s.db, s.wrappers[w], act);
      World(db, LockAfter(s.lock, ByWrapper(w), HoldsLock(me.phase)), s.wrappers[w := me], s.threads,
            if act == StartCommand then s.starts + [Start(me.origin, me.key, me.run)] else s.starts)
    case ThreadMoves(t, move) =>
      var (thread, db) := Moved(s.db, s.lock, s.threads[t], move);
      s.(db := db, lock := LockAfter(s.lock, ByThread(t), ThreadHolds(thread)), threads := s.threads[t := thread])
    case OtherLocks => s.(lock := Some(ByOther))
    case OtherUnlocks => s.(lock := None)
  }

  ghost predicate Initial(s: World) {
    s == World(Journal([], []), None, [], [], [])
  }

  ghost predicate Next(s: World, step: Step, next: World) {
    Enabled(s, step) && next == Apply(s, step)
  }

  ghost predicate Behavior(worlds: seq<World>, steps: seq<Step>) {
    && |worlds| == |steps| + 1 && Initial(worlds[0])
    && forall k :: 0 <= k < |steps| ==> Next(worlds[k], steps[k], worlds[k + 1])
  }

  /* ---- The invariant ---- */

  ghost predicate LockKept(s: World) {
    && (forall w :: 0 <= w < |s.wrappers| ==> (HoldsLock(s.wrappers[w].phase) <==> s.lock == Some(ByWrapper(w))))
    && (forall t :: 0 <= t < |s.threads| ==> (ThreadHolds(s.threads[t]) <==> s.lock == Some(ByThread(t))))
    && (s.lock.Some? && s.lock.value.ByWrapper? ==> s.lock.value.w < |s.wrappers|)
    && (s.lock.Some? && s.lock.value.ByThread? ==> s.lock.value.t < |s.threads|)
  }

  /** A claimed run has left the queue, and a manual command has the run of its request. */
  ghost predicate WrapperKept(db: Journal, w: Wrapper) {
    && (w.run.Some? ==> w.run.value < |db.runs| && db.runs[w.run.value].state != Queued)
    && (w.phase in {Waiting, Turned, Locked} ==> w.run.None?)
    && (w.origin == Manual && MayExecute(w.phase) ==>
          w.run.Some? && w.key.Some? && db.runs[w.run.value].key == w.key)
  }

  ghost predicate WrappersKept(s: World) {
    forall w :: 0 <= w < |s.wrappers| ==> WrapperKept(s.db, s.wrappers[w])
  }

  ghost predicate StartsKept(s: World) {
    && (forall i, j :: 0 <= i < j < |s.starts| && s.starts[i].run.Some? ==> s.starts[i].run != s.starts[j].run)
    && (forall i :: 0 <= i < |s.starts| ==> StartKept(s.db, s.starts[i]))
    && (forall w :: 0 <= w < |s.wrappers| && s.wrappers[w].phase == Claimed && s.wrappers[w].run.Some? ==>
          NeverStarted(s.starts, s.wrappers[w].run))
  }

  ghost predicate NeverStarted(starts: seq<Start>, run: Option<nat>) {
    forall i :: 0 <= i < |starts| ==> starts[i].run != run
  }

  ghost predicate StartKept(db: Journal, start: Start) {
    && (start.run.Some? ==> start.run.value < |db.runs| && db.runs[start.run.value].state != Queued)
    && (start.origin == Manual ==> start.run.Some? && start.key.Some? && db.runs[start.run.value].key == start.key)
  }

  /** No command of this run executes, and none ever will: the run has left the queue for good. */
  ghost predicate Over(s: World, run: nat) {
    && run < |s.db.runs| && s.db.runs[run].state != Queued
    && forall w :: 0 <= w < |s.wrappers| && MayExecute(s.wrappers[w].phase) ==> s.wrappers[w].run != Some(run)
  }

  ghost predicate SeenBefore(db: Journal, seen: Seen) {
    seen.0 < |db.runs| && Active(seen.1) && (seen.1 == Running ==> db.runs[seen.0].state != Queued)
  }

  /** What was seen running is over. */
  ghost predicate SeenOver(s: World, seen: Seen) {
    SeenBefore(s.db, seen) && (seen.1 == Running ==> Over(s, seen.0))
  }

  /** What a reconciling thread saw running is over once the thread has had the lock. */
  ghost predicate ThreadKept(s: World, t: Thread) {
    && (t.Probing? ==> forall seen :: seen in t.seen ==> SeenBefore(s.db, seen))
    && (t.Probed? || t.Finishing? ==> forall seen :: seen in t.seen ==> SeenOver(s, seen))
  }

  ghost predicate ThreadsKept(s: World) {
    forall t :: 0 <= t < |s.threads| ==> ThreadKept(s, s.threads[t])
  }

  ghost predicate Inv(s: World) {
    Kept(s.db) && LockKept(s) && WrappersKept(s) && StartsKept(s) && ThreadsKept(s)
  }

  /* ---- One act, one move ---- */

  /** A wrapper keeps its run, or has just claimed one that was queued or new. */
  ghost predicate Evolves(db: Journal, before: Wrapper, after: Wrapper) {
    && after.origin == before.origin && after.key == before.key
    && (|| (after.run == before.run && (MayExecute(after.phase) ==> MayExecute(before.phase)))
        || (before.phase == Locked &&
            (after.run.Some? && after.run.value < |db.runs| ==> db.runs[after.run.value].state == Queued)))
    && (after.phase == Claimed ==> before.phase == Locked)
  }

  lemma ClaimingKeeps(db: Journal, me: Wrapper, known: bool)
    requires Kept(db) && me.phase == Locked && (me.origin == Manual ==> me.key.Some?)
    ensures var (after, next) := Claiming(db, me, known);
            Kept(next) && Advances(db, next) && WrapperKept(next, after) && Evolves(db, me, after)
  {
    ClaimKeeps(db, me.origin, me.key);
    hide Kept, Advances, Claim;
  }

  lemma ReportKeeps(db: Journal, me: Wrapper, outcome: RunState)
    requires Kept(db) && !Active(outcome)
    ensures Kept(Report(db, me, outcome)) && Advances(db, Report(db, me, outcome))
  {
    AdvancesToItself(db);
    if me.run.Some? {
      CompleteKeeps(db, me.run.value, outcome, None);
    }
    hide Kept, Advances, Complete;
  }

  lemma PhaseKeeps(before: Journal, after: Journal, me: Wrapper, p: Phase)
    requires WrapperKept(before, me) && Advances(before, after)
    requires p in {Waiting, Turned, Locked} ==> me.run.None?
    requires me.origin == Manual && MayExecute(p) ==> MayExecute(me.phase)
    ensures WrapperKept(after, me.(phase := p))
  {
  }

  lemma ActKeeps(db: Journal, me: Wrapper, lock: Option<Holder>, act: Act)
    requires Kept(db) && WrapperKept(db, me) && CanAct(me, lock, act)
    ensures var (after, next) := Acted(db, me, act);
            Kept(next) && Advances(db, next) && WrapperKept(next, after) && Evolves(db, me, after)
  {
    var (after, next) := Acted(db, me, act);
    var idle := me.phase in {Waiting, Turned, Locked};
    assert idle ==> me.run.None?;
    AdvancesToItself(db);
    if act.ClaimRun? || (act.ClaimFails? && act.committed) {
      ClaimingKeeps(db, me, act.ClaimRun?);
    } else {
      if act.NoteBusy? {
        LockBusyKeeps(db, me.origin, me.key);
      } else if act.ReportEarly? {
        ReportKeeps(db, me, Interrupted);
      } else if act.Record? {
        ReportKeeps(db, me, act.outcome);
      }
      hide Kept, Advances, WrapperKept, Claiming, Report, LockBusy;
      PhaseKeeps(db, next, me, after.phase);
    }
  }

  lemma WrapperAdvances(before: Journal, after: Journal, w: Wrapper)
    requires WrapperKept(before, w) && Advances(before, after)
    ensures WrapperKept(after, w)
  {
  }

  lemma MoveKeeps(db: Journal, lock: Option<Holder>, thread: Thread, move: Move)
    requires Kept(db)
    ensures Kept(Moved(db, lock, thread, move).1) && Advances(db, Moved(db, lock, thread, move).1)
  {
    AdvancesToItself(db);
    if thread.Finishing? && thread.seen != [] {
      CompleteKeeps(db, thread.seen[0].0, Interrupted, Some(thread.seen[0].1));
    } else if thread.Reserving? {
      ReserveKeeps(db, thread.key);
    }
    hide Kept, Advances, Complete, Reserve, FindKey, SeenActive;
  }

  /* ---- Every step keeps the invariant ---- */

  lemma JournalStep(s: World, step: Step)
    requires Kept(s.db) && WrappersKept(s) && Enabled(s, step)
    ensures Kept(Apply(s, step).db) && Advances(s.db, Apply(s, step).db)
  {
    AdvancesToItself(s.db);
    if step.WrapperActs? {
      ActKeeps(s.db, s.wrappers[step.w], s.lock, step.act);
    } else if step.ThreadMoves? {
      MoveKeeps(s.db, s.lock, s.threads[step.t], step.move);
    }
    hide Kept, Advances, Acted, Moved;
  }

  lemma LockStep(s: World, step: Step)
    requires LockKept(s) && Enabled(s, step)
    ensures LockKept(Apply(s, step))
  {
    if step.WrapperActs? {
      ActRespectsLock(s, step.w, step.act);
    } else if step.ThreadMoves? {
      MoveRespectsLock(s, step.t, step.move);
    }
    hide Acted, Moved;
  }

  lemma ActRespectsLock(s: World, w: nat, act: Act)
    requires LockKept(s) && w < |s.wrappers| && CanAct(s.wrappers[w], s.lock, act)
    ensures HoldsLock(Acted(s.db, s.wrappers[w], act).0.phase) ==> s.lock in {None, Some(ByWrapper(w))}
  {
    hide Claim, LockBusy, Complete;
  }

  lemma MoveRespectsLock(s: World, t: nat, move: Move)
    requires LockKept(s) && t < |s.threads|
    ensures ThreadHolds(Moved(s.db, s.lock, s.threads[t], move).0) ==> s.lock in {None, Some(ByThread(t))}
  {
    hide Reserve, SeenActive, FindKey, Complete;
  }

  /** How any wrapper comes out of a step. */
  lemma WrapperStep(s: World, step: Step, w: nat)
    requires Kept(s.db) && WrappersKept(s) && Enabled(s, step) && w < |Apply(s, step).wrappers|
    ensures var next := Apply(s, step);
            && WrapperKept(next.db, next.wrappers[w])
            && (w < |s.wrappers| ==> Evolves(s.db, s.wrappers[w], next.wrappers[w]) || next.wrappers[w] == s.wrappers[w])
            && (w >= |s.wrappers| ==> next.wrappers[w].phase == Waiting)
  {
    JournalStep(s, step);
    if step.WrapperActs? {
      ActKeeps(s.db, s.wrappers[step.w], s.lock, step.act);
    }
    if w < |s.wrappers| {
      WrapperAdvances(s.db, Apply(s, step).db, s.wrappers[w]);
    }
    hide Kept, Advances, Acted, Moved, WrapperKept, Evolves;
    if w >= |s.wrappers| {
      assert step.Launch?;
      NewWrapperKept(s.db, step.origin, step.key);
    }
  }

  lemma NewWrapperKept(db: Journal, origin: Origin, key: Option<RequestKey>)
    ensures WrapperKept(db, Wrapper(origin, key, Waiting, None, false))
  {
  }

  lemma WrappersStep(s: World, step: Step)
    requires Kept(s.db) && WrappersKept(s) && Enabled(s, step)
    ensures WrappersKept(Apply(s, step))
  {
    var next := Apply(s, step);
    hide Apply, WrapperKept;
    forall w | 0 <= w < |next.wrappers|
      ensures WrapperKept(next.db, next.wrappers[w])
    {
      WrapperStep(s, step, w);
    }
  }

  /** A run that is over stays over. */
  lemma OverStays(s: World, step: Step, run: nat)
    requires Inv(s) && Enabled(s, step) && Over(s, run)
    ensures Over(Apply(s, step), run)
  {
    JournalStep(s, step);
    var next := Apply(s, step);
    hide Apply, Enabled, Kept, LockKept, StartsKept, ThreadsKept;
    forall w | 0 <= w < |next.wrappers| && MayExecute(next.wrappers[w].phase)
      ensures next.wrappers[w].run != Some(run)
    {
      WrapperStep(s, step, w);
      assert w < |s.wrappers| ==> WrapperKept(s.db, s.wrappers[w]);
    }
  }

  lemma StartsStep(s: World, step: Step)
    requires Inv(s) && Enabled(s, step)
    ensures StartsKept(Apply(s, step))
  {
    JournalStep(s, step);
    StartsGrow(s, step);
    var next := Apply(s, step);
    hide Apply, Enabled, Kept, LockKept, ThreadsKept;
    forall w | 0 <= w < |next.wrappers| && next.wrappers[w].phase == Claimed && next.wrappers[w].run.Some?
      ensures NeverStarted(next.starts, next.wrappers[w].run)
    {
      WrapperStep(s, step, w);
      assert w < |s.wrappers| ==> WrapperKept(s.db, s.wrappers[w]);
    }
  }

  /** The log grows by the claimed run of the one wrapper that holds the lock. */
  lemma StartsGrow(s: World, step: Step)
    requires LockKept(s) && WrappersKept(s) && StartsKept(s) && Enabled(s, step)
    ensures var next := Apply(s, step);
            || next.starts == s.starts
            || (&& step.WrapperActs? && s.wrappers[step.w].phase == Claimed
                && next.starts == s.starts + [Start(s.wrappers[step.w].origin, s.wrappers[step.w].key, s.wrappers[step.w].run)]
                && WrapperKept(s.db, s.wrappers[step.w])
                && forall w :: 0 <= w < |next.wrappers| ==> next.wrappers[w].phase != Claimed)
  {
    hide Claim, LockBusy, Complete, Moved;
  }

  lemma {:induction false} SeenActiveSound(db: Journal, stale: set<nat>, n: nat)
    requires n <= |db.runs|
    ensures forall seen :: seen in SeenActive(db, stale, n) ==> SeenBefore(db, seen)
  {
    if n == 0 {
    } else {
      SeenActiveSound(db, stale, n - 1);
    }
  }

  /** With the lock free, whatever was seen running is over. */
  lemma ProbeFindsOver(s: World, seen: Seen)
    requires LockKept(s) && s.lock.None? && SeenBefore(s.db, seen)
    ensures SeenOver(s, seen)
  {
  }

  lemma SeenStays(s: World, step: Step, seen: Seen)
    requires Inv(s) && Enabled(s, step)
    ensures SeenBefore(s.db, seen) ==> SeenBefore(Apply(s, step).db, seen)
    ensures SeenOver(s, seen) ==> SeenOver(Apply(s, step), seen)
  {
    JournalStep(s, step);
    if SeenOver(s, seen) && seen.1 == Running {
      OverStays(s, step, seen.0);
    }
    hide Apply, Inv, Over;
  }

  /** What a thread knows after its move was already so before it. */
  lemma MoveKnows(s: World, t: nat, move: Move)
    requires LockKept(s) && t < |s.threads| && ThreadKept(s, s.threads[t])
    ensures ThreadKept(s, Moved(s.db, s.lock, s.threads[t], move).0)
  {
    if s.threads[t].Reading? && move.Proceed? {
      SeenActiveSound(s.db, move.stale, |s.db.runs|);
    } else if s.threads[t].Probing? && s.lock.None? {
      forall seen | seen in s.threads[t].seen
        ensures SeenOver(s, seen)
      {
        ProbeFindsOver(s, seen);
      }
    }
    hide Complete, Reserve, SeenActive, FindKey, LockKept, SeenOver, SeenBefore;
  }

  lemma ThreadStays(s: World, step: Step, thread: Thread)
    requires Inv(s) && Enabled(s, step) && ThreadKept(s, thread)
    ensures ThreadKept(Apply(s, step), thread)
  {
    var next := Apply(s, step);
    hide Apply, Inv, Enabled, Over, SeenBefore, SeenOver;
    forall seen: Seen
      ensures SeenBefore(s.db, seen) ==> SeenBefore(next.db, seen)
      ensures SeenOver(s, seen) ==> SeenOver(next, seen)
    {
      SeenStays(s, step, seen);
    }
  }

  lemma ThreadsStep(s: World, step: Step)
    requires Inv(s) && Enabled(s, step)
    ensures ThreadsKept(Apply(s, step))
  {
    var next := Apply(s, step);
    forall t | 0 <= t < |next.threads|
      ensures ThreadKept(next, next.threads[t])
    {
      assert t < |s.threads| ==> ThreadKept(s, s.threads[t]);
      if step.ThreadMoves? && step.t == t {
        MoveKnows(s, t, step.move);
      }
      hide Acted, Moved, ThreadKept, Kept, LockKept, WrappersKept, StartsKept;
      if t < |s.threads| {
        ThreadStays(s, step, next.threads[t]);
      } else {
        FirstThread(next, next.threads[t]);
      }
    }
  }

  lemma FirstThread(s: World, thread: Thread)
    ensures thread.Lookup? || thread.Reading? ==> ThreadKept(s, thread)
  {
  }

  lemma InvStep(s: World, step: Step)
    requires Inv(s) && Enabled(s, step)
    ensures Inv(Apply(s, step))
  {
    JournalStep(s, step);
    LockStep(s, step);
    WrappersStep(s, step);
    StartsStep(s, step);
    ThreadsStep(s, step);
    hide Apply, Enabled, Kept, LockKept, WrappersKept, StartsKept, ThreadsKept;
  }

  lemma InitialInv(s: World)
    requires Initial(s)
    ensures Inv(s)
  {
  }

  lemma {:induction false} ReachableInv(worlds: seq<World>, steps: seq<Step>, k: nat)
    requires Behavior(worlds, steps) && k < |worlds|
    ensures Inv(worlds[k])
  {
    hide Apply, Enabled, Inv;
    if k == 0 {
      InitialInv(worlds[0]);
    } else {
      ReachableInv(worlds, steps, k - 1);
      assert Next(worlds[k - 1], steps[k - 1], worlds[k - 1 + 1]);
      InvStep(worlds[k - 1], steps[k - 1]);
    }
  }
}
