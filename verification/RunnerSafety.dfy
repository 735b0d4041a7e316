/** What the runner protocol guarantees over every behaviour of the system. */
module RunnerSafety {
  import opened Common
  import opened RunnerStore
  import opened Runner

  /** At most one command executes at a time. */
  lemma OneCommandAtATime(worlds: seq<World>, steps: seq<Step>, k: nat, w: nat, v: nat)
    requires Behavior(worlds, steps) && k < |worlds|
    requires w < |worlds[k].wrappers| && v < |worlds[k].wrappers|
    requires Executing(worlds[k].wrappers[w].phase) && Executing(worlds[k].wrappers[v].phase)
    ensures w == v && worlds[k].lock == Some(ByWrapper(w))
  {
    ReachableInv(worlds, steps, k);
  }

  /** Each request key starts its command at most once, and only under the durable run of that key. */
  lemma KeyStartsOnce(worlds: seq<World>, steps: seq<Step>, k: nat, i: nat, j: nat)
    requires Behavior(worlds, steps) && k < |worlds| && i < j < |worlds[k].starts|
    requires worlds[k].starts[i].origin == Manual && worlds[k].starts[j].origin == Manual
    ensures worlds[k].starts[i].key != worlds[k].starts[j].key
    ensures var run := worlds[k].starts[i].run;
            run.Some? && run.value < |worlds[k].db.runs| && worlds[k].db.runs[run.value].key == worlds[k].starts[i].key
  {
    ReachableInv(worlds, steps, k);
    hide Behavior, LockKept, WrappersKept, ThreadsKept;
    var s := worlds[k];
    assert StartKept(s.db, s.starts[i]) && StartKept(s.db, s.starts[j]);
    assert s.starts[i].run != s.starts[j].run;
  }

  /** A wrapper that fails while its command lives reports its own run interrupted. */
  predicate EarlyReport(step: Step) {
    step.WrapperActs? && step.act.ReportEarly?
  }

  ghost predicate Interrupts(s: World, step: Step, run: nat) {
    && Enabled(s, step) && run < |s.db.runs| && s.db.runs[run].state != Interrupted
    && run < |Apply(s, step).db.runs| && Apply(s, step).db.runs[run].state == Interrupted
  }

  /** When a run is marked interrupted, it is over, unless the mark is an early report: then it never is. */
  lemma InterruptedIsOver(s: World, step: Step, run: nat)
    requires Inv(s) && Interrupts(s, step, run)
    ensures Over(Apply(s, step), run) <==> !EarlyReport(step)
  {
    OnlyTheseInterrupt(s, step, run);
    if step.ThreadMoves? {
      MoveSweeps(s, step.t, step.move, run);
    } else if step.act.Record? || step.act.ReportEarly? {
      ReportInterrupts(s, step.w, step.act, run);
    } else {
      ClaimSweeps(s, step.w, step.act, run);
    }
  }

  lemma OnlyTheseInterrupt(s: World, step: Step, run: nat)
    requires Interrupts(s, step, run)
    ensures step.ThreadMoves? || (step.WrapperActs? && (step.act.ClaimRun? || step.act.ClaimFails? || step.act.Record? || step.act.ReportEarly?))
  {
    hide Moved, Claiming, FindKey;
  }

  /** A wrapper's own report interrupts the run it holds: over if its command has ended. */
  lemma ReportInterrupts(s: World, w: nat, act: Act, run: nat)
    requires Inv(s) && (act.Record? || act.ReportEarly?) && Interrupts(s, WrapperActs(w, act), run)
    ensures Over(Apply(s, WrapperActs(w, act)), run) <==> act.Record?
  {
    OnlyHolder(s, w);
    hide Kept, LockKept, StartsKept, ThreadsKept, WrappersKept;
    var next := Apply(s, WrapperActs(w, act));
    assert s.wrappers[w].run == Some(run);
    assert next.wrappers[w].run == Some(run);
    forall v | 0 <= v < |next.wrappers| && v != w
      ensures !MayExecute(next.wrappers[v].phase)
    {
      assert next.wrappers[v] == s.wrappers[v];
    }
  }

  lemma MoveSweeps(s: World, t: nat, move: Move, run: nat)
    requires Inv(s) && Interrupts(s, ThreadMoves(t, move), run)
    ensures Over(Apply(s, ThreadMoves(t, move)), run)
  {
    var thread := s.threads[t];
    assert ThreadKept(s, thread);
    OnlyFinishing(s, t, move, run);
    var seen := thread.seen[0];
    assert seen in thread.seen && SeenOver(s, seen);
    hide Kept, LockKept, StartsKept, ThreadsKept, Reserve, SeenActive, FindKey;
    var next := Apply(s, ThreadMoves(t, move));
    forall w | 0 <= w < |next.wrappers| && MayExecute(next.wrappers[w].phase)
      ensures next.wrappers[w].run != Some(run)
    {
      assert next.wrappers[w] == s.wrappers[w];
      assert WrapperKept(s.db, s.wrappers[w]);
    }
  }

  /** Only the reconciling move ends a run, and only the run it has seen. */
  lemma OnlyFinishing(s: World, t: nat, move: Move, run: nat)
    requires Interrupts(s, ThreadMoves(t, move), run)
    ensures move.Proceed? && s.threads[t].Finishing? && s.threads[t].seen != []
    ensures s.threads[t].seen[0] == (run, s.db.runs[run].state)
  {
    hide SeenActive, FindKey;
  }

  lemma ClaimSweeps(s: World, w: nat, act: Act, run: nat)
    requires Inv(s) && (act.ClaimRun? || act.ClaimFails?) && Interrupts(s, WrapperActs(w, act), run)
    ensures Over(Apply(s, WrapperActs(w, act)), run)
  {
    var next := Apply(s, WrapperActs(w, act));
    ClaimKeeps(s.db, s.wrappers[w].origin, s.wrappers[w].key);
    OnlyHolder(s, w);
    assert act.ClaimRun? || act.committed;
    hide Kept, LockKept, StartsKept, ThreadsKept, WrappersKept, Claim, Advances;
    var claimed := Claim(s.db, s.wrappers[w].origin, s.wrappers[w].key).1;
    assert next.wrappers[w].run == claimed != Some(run);
  }

  lemma OnlyHolder(s: World, w: nat)
    requires LockKept(s) && w < |s.wrappers| && HoldsLock(s.wrappers[w].phase)
    ensures forall v :: 0 <= v < |s.wrappers| && v != w ==> !MayExecute(s.wrappers[v].phase)
  {
  }

  /**
   * Whenever a run is marked interrupted other than by an early report, no command of that run
   * executes then or ever after.
   */
  lemma {:induction false} InterruptedNeverExecutes(worlds: seq<World>, steps: seq<Step>, k: nat, run: nat, j: nat)
    requires Behavior(worlds, steps) && k < |steps| && k < j < |worlds|
    requires Interrupts(worlds[k], steps[k], run) && !EarlyReport(steps[k])
    ensures Over(worlds[j], run)
    ensures forall w :: 0 <= w < |worlds[j].wrappers| && Executing(worlds[j].wrappers[w].phase) ==>
              worlds[j].wrappers[w].run != Some(run)
  {
    hide Apply, Enabled, Inv, Interrupts;
    assert Next(worlds[j - 1], steps[j - 1], worlds[j - 1 + 1]);
    ReachableInv(worlds, steps, j - 1);
    if j == k + 1 {
      InterruptedIsOver(worlds[k], steps[k], run);
    } else {
      InterruptedNeverExecutes(worlds, steps, k, run, j - 1);
      OverStays(worlds[j - 1], steps[j - 1], run);
    }
  }

  /** Receipts only advance: at most one queued and one running, ended runs stay ended with one event. */
  lemma {:induction false} JournalAdvances(worlds: seq<World>, steps: seq<Step>, j: nat, k: nat)
    requires Behavior(worlds, steps) && j <= k < |worlds|
    ensures Kept(worlds[k].db) && Advances(worlds[j].db, worlds[k].db)
  {
    hide Apply, Enabled, Inv, Kept, WrappersKept, Advances, Initial;
    ReachableInv(worlds, steps, k);
    InvJournal(worlds[k]);
    if j == k {
      AdvancesToItself(worlds[k].db);
    } else {
      JournalAdvances(worlds, steps, j, k - 1);
      ReachableInv(worlds, steps, k - 1);
      InvJournal(worlds[k - 1]);
      assert Next(worlds[k - 1], steps[k - 1], worlds[k - 1 + 1]);
      JournalStep(worlds[k - 1], steps[k - 1]);
      AdvancesTransitive(worlds[j].db, worlds[k - 1].db, worlds[k].db);
    }
  }

  lemma InvJournal(s: World)
    requires Inv(s)
    ensures Kept(s.db) && WrappersKept(s)
  {
  }

  /** A system with one scheduled wrapper. */
  function Lone(db: Journal, lock: Option<Holder>, phase: Phase, run: Option<nat>, starts: seq<Start>): World {
    World(db, lock, [Wrapper(Schedule, None, phase, run, run.Some?)], [], starts)
  }

  function Scheduled(state: RunState, events: seq<Event>): Journal {
    Journal([Run(None, Schedule, state)], [Started(0)] + events)
  }

  /** Five steps of one scheduled wrapper: launched, locked, claimed, started, and reported while it runs. */
  function EarlyWorlds(): seq<World> {
    var empty, held := Journal([], []), Some(ByWrapper(0));
    var started := [Start(Schedule, None, Some(0))];
    [World(empty, None, [], [], []), Lone(empty, None, Waiting, None, []), Lone(empty, held, Locked, None, []),
     Lone(Scheduled(Running, []), held, Claimed, Some(0), []),
     Lone(Scheduled(Running, []), held, Attending, Some(0), started),
     Lone(Scheduled(Interrupted, [Completed(0, Interrupted)]), held, Attending, Some(0), started)]
  }

  function EarlySteps(): seq<Step> {
    [Launch(Schedule, None), WrapperActs(0, TakeLock), WrapperActs(0, ClaimRun), WrapperActs(0, StartCommand),
     WrapperActs(0, ReportEarly)]
  }

  lemma ClaimsAfresh(db: Journal)
    requires db == Journal([], [])
    ensures Claim(db, Schedule, None) == (Scheduled(Running, []), Some(0))
  {
    var queued := Insert(db, Schedule, None);
    assert queued.runs == [Run(None, Schedule, Queued)];
    assert Begin(queued, 0) == Scheduled(Running, []);
    assert Claim(db, Schedule, None) == Take(db, Schedule, None);
  }

  lemma EarlyStep(k: nat)
    requires k < 5
    ensures Next(EarlyWorlds()[k], EarlySteps()[k], EarlyWorlds()[k + 1])
  {
    hide Claim, FindKey, Moved;
    ClaimsAfresh(Journal([], []));
  }

  /** The exception is reachable: a scheduled command still executes after its wrapper's early report. */
  lemma EarlyReportHappens()
    ensures Behavior(EarlyWorlds(), EarlySteps())
    ensures EarlyReport(EarlySteps()[4]) && Interrupts(EarlyWorlds()[4], EarlySteps()[4], 0)
    ensures var last := EarlyWorlds()[5];
            |last.wrappers| == 1 && Executing(last.wrappers[0].phase) && last.wrappers[0].run == Some(0)
  {
    EarlyStep(4);
    hide Apply, Enabled;
    forall k | 0 <= k < 5
      ensures Next(EarlyWorlds()[k], EarlySteps()[k], EarlyWorlds()[k + 1])
    {
      EarlyStep(k);
    }
  }
}
