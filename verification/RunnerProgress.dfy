/** What the runner protocol can always do: a waiting request can run to its end, and a dead run can be cleared. */
module RunnerProgress {
  import opened Common
  import opened RunnerStore
  import opened RunnerAnswers
  import opened Runner

  /** The steps are enabled one after the other and lead here. */
  ghost predicate Leads(s: World, steps: seq<Step>, end: World)
    decreases |steps|
  {
    if steps == [] then s == end else Enabled(s, steps[0]) && Leads(Apply(s, steps[0]), steps[1..], end)
  }

  lemma {:induction false} LeadsFurther(s: World, steps: seq<Step>, middle: World, step: Step)
    requires Leads(s, steps, middle) && Enabled(middle, step)
    ensures Leads(s, steps + [step], Apply(middle, step))
    decreases |steps|
  {
    hide Apply, Enabled;
    if steps == [] {
      assert [step][1..] == [];
    } else {
      LeadsFurther(Apply(s, steps[0]), steps[1..], middle, step);
      assert (steps + [step])[1..] == steps[1..] + [step];
    }
  }

  /* ---- A request runs ---- */

  /** Wrapper `w` is in this phase with the lock, nothing else has changed but the receipts and the starts. */
  predicate Alone(s: World, now: World, w: nat, phase: Phase, run: Option<nat>)
    requires w < |s.wrappers|
  {
    && now.wrappers == s.wrappers[w := s.wrappers[w].(phase := phase, run := run, known := run.Some?)]
    && now.threads == s.threads && now.lock == if HoldsLock(phase) then Some(ByWrapper(w)) else None
  }

  lemma Claimed(s: World, w: nat, i: nat) returns (end: World, steps: seq<Step>)
    requires Inv(s) && s.lock.None? && w < |s.wrappers| && s.wrappers[w].phase == Waiting && s.wrappers[w].origin == Manual
    requires Waits(s.db, s.wrappers[w].key, i) && !s.wrappers[w].known
    ensures Leads(s, steps, end) && Alone(s, end, w, Phase.Claimed, Some(i)) && end.starts == s.starts
    ensures i < |s.db.runs| == |end.db.runs| && end.db.runs[i] == s.db.runs[i].(state := Running)
  {
    assert s.wrappers[w].run.None? by {
      assert WrapperKept(s.db, s.wrappers[w]);
    }
    ClaimExactly(s.db, Manual, s.wrappers[w].key);
    hide Kept, LockKept, WrappersKept, StartsKept, ThreadsKept, Claim, Waits, Ends;
    steps := [WrapperActs(w, TakeLock)];
    var s1 := Apply(s, steps[0]);
    assert steps[1..] == [] && Leads(s1, [], s1);
    assert s1.wrappers[w].phase == Locked;
    LeadsFurther(s, steps, s1, WrapperActs(w, ClaimRun));
    steps := steps + [WrapperActs(w, ClaimRun)];
    end := Apply(s1, WrapperActs(w, ClaimRun));
  }

  lemma Ended(s: World, now: World, w: nat, i: nat, before: seq<Step>) returns (end: World, steps: seq<Step>)
    requires w < |s.wrappers| && s.wrappers[w].origin == Manual
    requires Leads(s, before, now) && Alone(s, now, w, Phase.Claimed, Some(i)) && now.starts == s.starts
    ensures Leads(s, steps, end) && Alone(s, end, w, Phase.Ended, Some(i)) && end.db == now.db
    ensures end.starts == s.starts + [Start(Manual, s.wrappers[w].key, Some(i))]
  {
    hide Leads;
    LeadsFurther(s, before, now, WrapperActs(w, StartCommand));
    var started := Apply(now, WrapperActs(w, StartCommand));
    LeadsFurther(s, before + [WrapperActs(w, StartCommand)], started, WrapperActs(w, CommandEnds));
    steps := before + [WrapperActs(w, StartCommand)] + [WrapperActs(w, CommandEnds)];
    end := Apply(started, WrapperActs(w, CommandEnds));
  }

  lemma Reported(s: World, now: World, w: nat, i: nat, outcome: RunState, before: seq<Step>) returns (end: World, steps: seq<Step>)
    requires w < |s.wrappers| && !Active(outcome)
    requires Leads(s, before, now) && Alone(s, now, w, Phase.Ended, Some(i))
    requires i < |now.db.runs| && now.db.runs[i].state == Running
    ensures Leads(s, steps, end) && Alone(s, end, w, Gone, Some(i)) && end.starts == now.starts
    ensures |end.db.runs| == |now.db.runs| && end.db.runs[i] == now.db.runs[i].(state := outcome)
    ensures end.db.events == now.db.events + [Completed(i, outcome)]
  {
    hide Leads;
    CompleteExactly(now.db, i, outcome, None);
    LeadsFurther(s, before, now, WrapperActs(w, Record(outcome, true)));
    var recorded := Apply(now, WrapperActs(w, Record(outcome, true)));
    LeadsFurther(s, before + [WrapperActs(w, Record(outcome, true))], recorded, WrapperActs(w, Leave));
    steps := before + [WrapperActs(w, Record(outcome, true))] + [WrapperActs(w, Leave)];
    end := Apply(recorded, WrapperActs(w, Leave));
  }

  /**
   * In any state with the lock free, the wrapper of a waiting request can take it, claim the request, run
   * its command once, and leave the receipt with the outcome and the lock free again.
   */
  lemma RequestCompletes(s: World, w: nat, i: nat, outcome: RunState) returns (end: World, steps: seq<Step>)
    requires Inv(s) && s.lock.None? && w < |s.wrappers| && s.wrappers[w].phase == Waiting && s.wrappers[w].origin == Manual
    requires Waits(s.db, s.wrappers[w].key, i) && !s.wrappers[w].known && !Active(outcome)
    ensures Leads(s, steps, end) && end.lock.None? && w < |end.wrappers| && end.wrappers[w].phase == Gone
    ensures end.starts == s.starts + [Start(Manual, s.wrappers[w].key, Some(i))]
    ensures i < |s.db.runs| == |end.db.runs| && end.db.runs[i] == s.db.runs[i].(state := outcome)
    ensures end.db.events != [] && end.db.events[|end.db.events| - 1] == Completed(i, outcome)
  {
    hide Inv, Leads, Waits, Apply, Enabled;
    end, steps := Claimed(s, w, i);
    end, steps := Ended(s, end, w, i, steps);
    end, steps := Reported(s, end, w, i, outcome, steps);
  }

  /* ---- A dead run is cleared ---- */

  /** A thread that has seen runs ends exactly those of them that are still as they were seen. */
  lemma {:induction false} Finishes(s: World, t: nat) returns (end: World, steps: seq<Step>)
    requires t < |s.threads| && s.threads[t].Finishing?
    ensures Leads(s, steps, end)
    ensures |end.db.runs| == |s.db.runs|
    ensures forall i :: 0 <= i < |s.db.runs| ==>
              end.db.runs[i] == if (i, s.db.runs[i].state) in s.threads[t].seen && Active(s.db.runs[i].state)
                                then s.db.runs[i].(state := Interrupted) else s.db.runs[i]
    decreases |s.threads[t].seen|
  {
    hide Reserve, SeenActive, FindKey, Complete;
    if s.threads[t].seen == [] {
      end, steps := s, [];
    } else {
      var step := ThreadMoves(t, Proceed({}, false));
      var next := Apply(s, step);
      CompleteExactly(s.db, s.threads[t].seen[0].0, Interrupted, Some(s.threads[t].seen[0].1));
      var rest: seq<Step>;
      end, rest := Finishes(next, t);
      steps := [step] + rest;
      assert steps[1..] == rest;
    }
  }

  /** It looks at the running ones and at the queued ones that are stale. */
  predicate Suspect(db: Journal, stale: set<nat>, i: nat)
    requires i < |db.runs|
  {
    db.runs[i].state == Running || (db.runs[i].state == Queued && i in stale)
  }

  lemma {:induction false} SeesSuspects(db: Journal, stale: set<nat>, n: nat)
    requires n <= |db.runs|
    ensures forall seen :: seen in SeenActive(db, stale, n) <==>
              seen.0 < n && seen.1 == db.runs[seen.0].state && Suspect(db, stale, seen.0)
  {
    if n == 0 {
    } else {
      SeesSuspects(db, stale, n - 1);
    }
  }

  /** The thread has read and probed, and goes on to end what it saw. */
  lemma Probes(s: World, t: nat, stale: set<nat>) returns (end: World, steps: seq<Step>)
    requires s.lock.None? && t < |s.threads| && s.threads[t] == Reading(None)
    requires SeenActive(s.db, stale, |s.db.runs|) != []
    ensures Leads(s, steps, end) && end.db == s.db && t < |end.threads|
    ensures end.threads[t] == Finishing(SeenActive(s.db, stale, |s.db.runs|), None)
  {
    hide SeenActive, Reserve, FindKey, Complete;
    var read, go := ThreadMoves(t, Proceed(stale, false)), ThreadMoves(t, Proceed({}, false));
    var s1 := Apply(s, read);
    assert [read][1..] == [] && Leads(s1, [], s1);
    LeadsFurther(s, [read], s1, go);
    var s2 := Apply(s1, go);
    LeadsFurther(s, [read] + [go], s2, go);
    steps := [read] + [go] + [go];
    end := Apply(s2, go);
  }

  lemma {:induction false} LeadsOn(s: World, a: seq<Step>, middle: World, b: seq<Step>, end: World)
    requires Leads(s, a, middle) && Leads(middle, b, end)
    ensures Leads(s, a + b, end)
    decreases |a|
  {
    hide Apply, Enabled;
    if a == [] {
      assert a + b == b;
    } else {
      LeadsOn(Apply(s, a[0]), a[1..], middle, b, end);
      assert (a + b)[1..] == a[1..] + b;
    }
  }

  /**
   * In any state with the lock free, a reconciling thread can end exactly the runs whose receipt still
   * says running and the queued ones it finds stale.
   */
  lemma ReconcileClears(s: World, t: nat, stale: set<nat>) returns (end: World, steps: seq<Step>)
    requires s.lock.None? && t < |s.threads| && s.threads[t] == Reading(None)
    ensures Leads(s, steps, end) && |end.db.runs| == |s.db.runs|
    ensures forall i: nat :: i < |s.db.runs| ==>
              end.db.runs[i] == if Suspect(s.db, stale, i) then s.db.runs[i].(state := Interrupted) else s.db.runs[i]
  {
    var seen := SeenActive(s.db, stale, |s.db.runs|);
    SeesSuspects(s.db, stale, |s.db.runs|);
    if seen == [] {
      end, steps := s, [];
      forall i: nat | i < |s.db.runs|
        ensures !Suspect(s.db, stale, i)
      {
        assert (i, s.db.runs[i].state) !in seen;
      }
    } else {
      hide Leads, SeenActive;
      var first, rest: seq<Step>;
      var middle: World;
      middle, first := Probes(s, t, stale);
      end, rest := Finishes(middle, t);
      steps := first + rest;
      LeadsOn(s, first, middle, rest, end);
    }
  }
}
