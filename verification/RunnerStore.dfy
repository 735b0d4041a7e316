/**
 * The runner's durable receipts: a table of runs and a log of events. Each operation is one SQLite
 * transaction, so it is one atomic step for everybody else.
 */
module RunnerStore {
  import opened Common

  type RequestKey = string

  datatype Origin = Manual | Schedule | External

  datatype RunState = Queued | Running | Succeeded | Failed | Busy | Interrupted

  predicate Active(state: RunState) {
    state == Queued || state == Running
  }

  /** A run is named by its position: rows are only ever appended. */
  datatype Run = Run(key: Option<RequestKey>, origin: Origin, state: RunState)

  datatype Event = Started(run: nat) | Completed(run: nat, state: RunState)

  datatype Journal = Journal(runs: seq<Run>, events: seq<Event>)

  /* ---- The transactions as functions ---- */

  /** Ends an active run, in the expected state if one is given, and logs it. */
  function Complete(db: Journal, run: nat, state: RunState, expected: Option<RunState>): Journal {
    if run < |db.runs| && Active(db.runs[run].state) && (expected.None? || expected.value == db.runs[run].state)
    then Journal(db.runs[run := db.runs[run].(state := state)], db.events + [Completed(run, state)])
    else db
  }

  function Insert(db: Journal, origin: Origin, key: Option<RequestKey>): Journal {
    db.(runs := db.runs + [Run(key, origin, Queued)])
  }

  /** The run with this request key, or the number of runs when there is none. */
  function FindKey(db: Journal, key: Option<RequestKey>): (k: nat)
    ensures k <= |db.runs|
    ensures k < |db.runs| ==> key.Some? && db.runs[k].key == key
    ensures key.Some? ==> forall i :: 0 <= i < k ==> db.runs[i].key != key
  {
    FindKeyFrom(db, key, 0)
  }

  function FindKeyFrom(db: Journal, key: Option<RequestKey>, from: nat): (k: nat)
    requires from <= |db.runs|
    ensures from <= k <= |db.runs|
    ensures k < |db.runs| ==> key.Some? && db.runs[k].key == key
    ensures key.Some? ==> forall i :: from <= i < k ==> db.runs[i].key != key
    decreases |db.runs| - from
  {
    if key.None? then |db.runs|
    else if from == |db.runs| || db.runs[from].key == key then from
    else FindKeyFrom(db, key, from + 1)
  }

  predicate AnyActive(db: Journal) {
    exists i :: 0 <= i < |db.runs| && Active(db.runs[i].state)
  }

  datatype Reservation = Existing(run: nat) | Refused | Created(run: nat)

  function Reserve(db: Journal, key: RequestKey): (Journal, Reservation) {
    var k := FindKey(db, Some(key));
    if k < |db.runs| then (db, Existing(k))
    else if AnyActive(db) then (db, Refused)
    else (Insert(db, Manual, Some(key)), Created(|db.runs|))
  }

  /** The first `n` runs with every running one interrupted. */
  function InterruptRunning(db: Journal, n: nat): (r: Journal)
    requires n <= |db.runs|
    ensures |r.runs| == |db.runs|
  {
    if n == 0 then db
    else
      var before := InterruptRunning(db, n - 1);
      if db.runs[n - 1].state == Running then Complete(before, n - 1, Interrupted, None) else before
  }

  /** The claimed run, or None for a manual request whose reservation is not waiting. */
  function Claim(db: Journal, origin: Origin, key: Option<RequestKey>): (Journal, Option<nat>) {
    Take(InterruptRunning(db, |db.runs|), origin, key)
  }

  function Take(db: Journal, origin: Origin, key: Option<RequestKey>): (Journal, Option<nat>) {
    var k := FindKey(db, key);
    if origin == Manual && (k == |db.runs| || db.runs[k].state != Queued) then (db, None)
    else if origin == Manual then (Begin(db, k), Some(k))
    else (Begin(Insert(db, origin, None), |db.runs|), Some(|db.runs|))
  }

  function Begin(db: Journal, run: nat): Journal
    requires run < |db.runs|
  {
    Journal(db.runs[run := db.runs[run].(state := Running)], db.events + [Started(run)])
  }

  function LockBusy(db: Journal, origin: Origin, key: Option<RequestKey>): Journal {
    var k := FindKey(db, key);
    if origin == Manual && (k == |db.runs| || db.runs[k].state != Queued) then db
    else if origin == Manual then Complete(db, k, Busy, None)
    else Complete(Insert(db, origin, None), |db.runs|, Busy, None)
  }

  /* ---- The store ---- */

  class Store {
    var runs: seq<Run>
    var events: seq<Event>

    constructor ()
      ensures Contents() == Journal([], [])
    {
      runs, events := [], [];
    }

    ghost function Contents(): Journal
      reads this
    {
      Journal(runs, events)
    }

    /** Only an active run ends, once, with one event; to end it again or from another state changes nothing. */
    method CompleteRun(run: nat, state: RunState, expected: Option<RunState>)
      modifies this
      ensures Contents() == Complete(old(Contents()), run, state, expected)
      ensures Kept(old(Contents())) && !Active(state) ==> Kept(Contents()) && Advances(old(Contents()), Contents())
      ensures !Active(state) ==> forall again, from :: Complete(Contents(), run, again, from) != Contents() ==>
                expected.Some? && run < |runs| && runs[run].state != expected.value
    {
      ghost var db := Contents();
      if Kept(db) && !Active(state) {
        CompleteKeeps(db, run, state, expected);
      }
      if run < |runs| && Active(runs[run].state) && (expected.None? || expected.value == runs[run].state) {
        runs := runs[run := runs[run].(state := state)];
        events := events + [Completed(run, state)];
      }
    }

    method InsertRun(origin: Origin, key: Option<RequestKey>) returns (run: nat)
      modifies this
      ensures Contents() == Insert(old(Contents()), origin, key) && run == |old(runs)|
    {
      run := |runs|;
      runs := runs + [Run(key, origin, Queued)];
    }

    method ByKey(key: Option<RequestKey>) returns (k: nat)
      ensures k == FindKey(Contents(), key)
    {
      if key.None? {
        return |runs|;
      }
      k := 0;
      while k < |runs| && runs[k].key != key
        invariant k <= |runs| && FindKeyFrom(Contents(), key, 0) == FindKeyFrom(Contents(), key, k)
      {
        k := k + 1;
      }
    }

    method ReserveRun(key: RequestKey) returns (r: Reservation)
      modifies this
      ensures (Contents(), r) == Reserve(old(Contents()), key)
    {
      var k := ByKey(Some(key));
      if k < |runs| {
        return Existing(k);
      }
      for i := 0 to |runs|
        invariant Contents() == old(Contents())
        invariant forall j :: 0 <= j < i ==> !Active(runs[j].state)
      {
        if Active(runs[i].state) {
          return Refused;
        }
      }
      var run := InsertRun(Manual, Some(key));
      return Created(run);
    }

    method ClaimRun(origin: Origin, key: Option<RequestKey>) returns (claimed: Option<nat>)
      modifies this
      ensures (Contents(), claimed) == Claim(old(Contents()), origin, key)
    {
      ghost var db := Contents();
      var selected := runs;
      for i := 0 to |selected|
        invariant Contents() == InterruptRunning(db, i)
      {
        if selected[i].state == Running {
          CompleteRun(i, Interrupted, None);
        }
      }
      var run: nat;
      if origin == Manual {
        run := ByKey(key);
        if run == |runs| || runs[run].state != Queued {
          return None;
        }
      } else {
        run := InsertRun(origin, None);
      }
      runs := runs[run := runs[run].(state := Running)];
      events := events + [Started(run)];
      return Some(run);
    }

    method RecordBusy(origin: Origin, key: Option<RequestKey>)
      modifies this
      ensures Contents() == LockBusy(old(Contents()), origin, key)
    {
      var run: nat;
      if origin == Manual {
        run := ByKey(key);
        if run == |runs| || runs[run].state != Queued {
          return;
        }
      } else {
        run := InsertRun(origin, None);
      }
      CompleteRun(run, Busy, None);
    }

    method ActiveRuns() returns (active: seq<(nat, RunState)>)
      ensures forall r :: r in active <==> r.0 < |runs| && Active(r.1) && runs[r.0].state == r.1
    {
      active := [];
      for i := 0 to |runs|
        invariant forall r :: r in active <==> r.0 < i && Active(r.1) && runs[r.0].state == r.1
      {
        if Active(runs[i].state) {
          active := active + [(i, runs[i].state)];
        }
      }
    }
  }

  /* ---- What every transaction keeps ---- */

  function Completions(events: seq<Event>, run: nat): nat {
    if events == [] then 0
    else
      var last := events[|events| - 1];
      Completions(events[..|events| - 1], run) + if last.Completed? && last.run == run then 1 else 0
  }

  /**
   * At most one run is queued and at most one is running, keys are unique, and exactly the ended
   * runs have a completion event, just one.
   */
  ghost predicate Kept(db: Journal) {
    && (forall i, j :: 0 <= i < j < |db.runs| && Active(db.runs[i].state) ==> db.runs[i].state != db.runs[j].state)
    && (forall i, j :: 0 <= i < j < |db.runs| && db.runs[i].key.Some? ==> db.runs[i].key != db.runs[j].key)
    && (forall i :: 0 <= i < |db.runs| ==>
          Completions(db.events, i) == if Active(db.runs[i].state) then 0 else 1)
    && (forall i :: |db.runs| <= i ==> Completions(db.events, i) == 0)
  }

  /** Runs are appended, never renamed; an ended run stays as it ended and none is queued again. */
  ghost predicate Advances(before: Journal, after: Journal) {
    && |before.runs| <= |after.runs| && before.events <= after.events
    && forall i :: 0 <= i < |before.runs| ==>
         && after.runs[i].key == before.runs[i].key && after.runs[i].origin == before.runs[i].origin
         && (!Active(before.runs[i].state) ==> after.runs[i] == before.runs[i])
         && (before.runs[i].state == Running ==> after.runs[i].state != Queued)
  }

  lemma OneMoreEvent(events: seq<Event>, e: Event)
    ensures forall run :: Completions(events + [e], run) ==
              Completions(events, run) + if e.Completed? && e.run == run then 1 else 0
  {
    assert (events + [e])[..|events|] == events;
  }

  lemma CompleteKeeps(db: Journal, run: nat, state: RunState, expected: Option<RunState>)
    requires Kept(db) && !Active(state)
    ensures Kept(Complete(db, run, state, expected)) && Advances(db, Complete(db, run, state, expected))
  {
    OneMoreEvent(db.events, Completed(run, state));
  }

  lemma AdvancesToItself(db: Journal)
    ensures Advances(db, db)
  {
  }

  lemma AdvancesTransitive(a: Journal, b: Journal, c: Journal)
    requires Advances(a, b) && Advances(b, c)
    ensures Advances(a, c)
  {
  }

  /** A sweep ends exactly the running runs, as interrupted. */
  lemma {:induction false} InterruptRunningKeeps(db: Journal, n: nat)
    requires Kept(db) && n <= |db.runs|
    ensures var r := InterruptRunning(db, n);
            && Kept(r) && Advances(db, r)
            && forall i :: 0 <= i < |db.runs| ==>
                 r.runs[i] == if i < n && db.runs[i].state == Running then db.runs[i].(state := Interrupted) else db.runs[i]
  {
    var r := InterruptRunning(db, n);
    if n == 0 {
      AdvancesToItself(db);
    } else {
      InterruptRunningKeeps(db, n - 1);
      var before := InterruptRunning(db, n - 1);
      CompleteKeeps(before, n - 1, Interrupted, None);
      hide Kept, Advances;
      if db.runs[n - 1].state == Running {
        AdvancesTransitive(db, before, r);
      }
    }
  }

  lemma BeginKeeps(db: Journal, run: nat)
    requires Kept(db) && run < |db.runs| && db.runs[run].state == Queued
    requires forall i :: 0 <= i < |db.runs| ==> db.runs[i].state != Running
    ensures Kept(Begin(db, run)) && Advances(db, Begin(db, run))
  {
    OneMoreEvent(db.events, Started(run));
  }

  lemma InsertBeginKeeps(db: Journal, origin: Origin)
    requires Kept(db) && forall i :: 0 <= i < |db.runs| ==> db.runs[i].state != Running
    ensures var r := Begin(Insert(db, origin, None), |db.runs|);
            Kept(r) && Advances(db, r)
  {
    OneMoreEvent(db.events, Started(|db.runs|));
  }

  /** A claim interrupts what was running and takes a run that was queued, or a new one. */
  ghost predicate ClaimTakes(before: Journal, after: Journal, claimed: Option<nat>, origin: Origin,
          key: Option<RequestKey>) {
    && (forall i :: 0 <= i < |before.runs| && i < |after.runs| && before.runs[i].state == Running ==>
          after.runs[i].state == Interrupted)
    && (claimed.Some? ==>
          && claimed.value < |after.runs| && after.runs[claimed.value].state == Running
          && (claimed.value < |before.runs| ==> before.runs[claimed.value].state == Queued)
          && (origin == Manual ==> key.Some? && after.runs[claimed.value].key == key))
  }

  lemma TakeKeeps(db: Journal, origin: Origin, key: Option<RequestKey>)
    requires Kept(db) && forall i :: 0 <= i < |db.runs| ==> db.runs[i].state != Running
    ensures var (next, claimed) := Take(db, origin, key);
            && Kept(next) && Advances(db, next)
            && (claimed.Some? ==>
                  && claimed.value < |next.runs| && next.runs[claimed.value].state == Running
                  && (claimed.value < |db.runs| ==> db.runs[claimed.value].state == Queued)
                  && (origin == Manual ==> key.Some? && next.runs[claimed.value].key == key))
            && (forall i :: 0 <= i < |db.runs| && db.runs[i].state == Interrupted ==> next.runs[i].state == Interrupted)
  {
    var k := FindKey(db, key);
    if origin != Manual {
      InsertBeginKeeps(db, origin);
    } else if k < |db.runs| && db.runs[k].state == Queued {
      BeginKeeps(db, k);
    } else {
      AdvancesToItself(db);
    }
    hide Kept, Advances, FindKey;
  }

  lemma ClaimKeeps(db: Journal, origin: Origin, key: Option<RequestKey>)
    requires Kept(db)
    ensures var (next, claimed) := Claim(db, origin, key);
            Kept(next) && Advances(db, next) && ClaimTakes(db, next, claimed, origin, key)
  {
    var swept := InterruptRunning(db, |db.runs|);
    InterruptRunningKeeps(db, |db.runs|);
    hide Kept, Advances, Take;
    TakeKeeps(swept, origin, key);
    AdvancesTransitive(db, swept, Claim(db, origin, key).0);
  }

  lemma InsertBusyKeeps(db: Journal, origin: Origin)
    requires Kept(db)
    ensures var r := Complete(Insert(db, origin, None), |db.runs|, Busy, None);
            Kept(r) && Advances(db, r)
  {
    OneMoreEvent(db.events, Completed(|db.runs|, Busy));
  }

  lemma LockBusyKeeps(db: Journal, origin: Origin, key: Option<RequestKey>)
    requires Kept(db)
    ensures Kept(LockBusy(db, origin, key)) && Advances(db, LockBusy(db, origin, key))
  {
    CompleteKeeps(db, FindKey(db, key), Busy, None);
    InsertBusyKeeps(db, origin);
    AdvancesToItself(db);
    hide Kept, Advances, Complete, FindKey;
  }

  lemma ReserveKeeps(db: Journal, key: RequestKey)
    requires Kept(db)
    ensures Kept(Reserve(db, key).0) && Advances(db, Reserve(db, key).0)
  {
  }
}
