/** What every transaction of the receipts answers, read off the receipts it finds. */
module RunnerAnswers {
  import opened Common
  import opened RunnerStore

  /** A request waits for its wrapper. */
  predicate Waits(db: Journal, key: Option<RequestKey>, i: nat) {
    i < |db.runs| && key.Some? && db.runs[i].key == key && db.runs[i].state == Queued
  }

  /** The events that end the running ones of the first `n` runs. */
  function Ends(db: Journal, n: nat): seq<Event>
    requires n <= |db.runs|
  {
    if n == 0 then []
    else Ends(db, n - 1) + if db.runs[n - 1].state == Running then [Completed(n - 1, Interrupted)] else []
  }

  predicate Unknown(db: Journal, key: RequestKey) {
    forall i :: 0 <= i < |db.runs| ==> db.runs[i].key != Some(key)
  }

  lemma FoundKey(db: Journal, key: Option<RequestKey>, i: nat)
    requires Kept(db) && i < |db.runs| && key.Some? && db.runs[i].key == key
    ensures FindKey(db, key) == i
  {
  }

  lemma {:induction false} SweptEvents(db: Journal, n: nat)
    requires n <= |db.runs|
    ensures var r := InterruptRunning(db, n);
            && r.events == db.events + Ends(db, n)
            && (forall i :: n <= i < |db.runs| ==> r.runs[i] == db.runs[i])
            && forall i :: 0 <= i < n ==> r.runs[i] == db.runs[i].(state := if db.runs[i].state == Running then Interrupted else db.runs[i].state)
  {
    if n == 0 {
    } else {
      SweptEvents(db, n - 1);
      Concatenates(db.events, Ends(db, n - 1), if db.runs[n - 1].state == Running then [Completed(n - 1, Interrupted)] else []);
    }
  }

  /** The claimed run is running and logged, what was running is interrupted and logged, the rest is as it was. */
  predicate OnlyClaims(db: Journal, next: Journal, claimed: Option<nat>) {
    && |db.runs| <= |next.runs|
    && (forall i :: 0 <= i < |db.runs| ==> next.runs[i] == db.runs[i].(state :=
          if claimed == Some(i) then Running else if db.runs[i].state == Running then Interrupted else db.runs[i].state))
    && next.events == db.events + Ends(db, |db.runs|) + if claimed.Some? then [Started(claimed.value)] else []
  }

  /** A manual claim returns a run exactly when that run waits under its key; any other claim returns a new run. */
  lemma ClaimExactly(db: Journal, origin: Origin, key: Option<RequestKey>)
    requires Kept(db)
    ensures var (next, claimed) := Claim(db, origin, key);
            && OnlyClaims(db, next, claimed)
            && (origin == Manual ==> |next.runs| == |db.runs| && forall i: nat :: claimed == Some(i) <==> Waits(db, key, i))
            && (origin != Manual ==> claimed == Some(|db.runs|) && next.runs[|db.runs|..] == [Run(None, origin, Running)])
  {
    hide Kept, OnlyClaims, Claim, Waits;
    if origin == Manual {
      ManualClaim(db, key);
    } else {
      OtherClaim(db, origin, key);
    }
  }

  lemma ManualClaim(db: Journal, key: Option<RequestKey>)
    requires Kept(db)
    ensures var (next, claimed) := Claim(db, Manual, key);
            && OnlyClaims(db, next, claimed) && |next.runs| == |db.runs|
            && forall i: nat :: claimed == Some(i) <==> Waits(db, key, i)
  {
    hide Kept, Advances, InterruptRunning, Ends, Waits, Take, OnlyClaims;
    var swept := InterruptRunning(db, |db.runs|);
    InterruptRunningKeeps(db, |db.runs|);
    SweptEvents(db, |db.runs|);
    ManualTake(swept, key);
    forall i: nat
      ensures Waits(swept, key, i) <==> Waits(db, key, i)
    {
      WaitsStill(db, swept, key, i);
    }
    var (next, claimed) := Take(swept, Manual, key);
    TakenAfterSweep(db, swept, next, claimed, key);
  }

  /** A sweep moves nothing in or out of the queue. */
  lemma WaitsStill(db: Journal, swept: Journal, key: Option<RequestKey>, i: nat)
    requires |swept.runs| == |db.runs|
    requires forall i :: 0 <= i < |db.runs| ==>
               swept.runs[i] == db.runs[i].(state := if db.runs[i].state == Running then Interrupted else db.runs[i].state)
    ensures Waits(swept, key, i) <==> Waits(db, key, i)
  {
  }

  lemma TakenAfterSweep(db: Journal, swept: Journal, next: Journal, taken: Option<nat>, key: Option<RequestKey>)
    requires |next.runs| == |swept.runs| == |db.runs| && swept.events == db.events + Ends(db, |db.runs|)
    requires forall i :: 0 <= i < |db.runs| ==>
               swept.runs[i] == db.runs[i].(state := if db.runs[i].state == Running then Interrupted else db.runs[i].state)
    requires forall i :: 0 <= i < |db.runs| ==> next.runs[i] == if taken == Some(i) then swept.runs[i].(state := Running) else swept.runs[i]
    requires next.events == swept.events + if taken.Some? then [Started(taken.value)] else []
    ensures OnlyClaims(db, next, taken)
  {
    hide Ends;
  }

  lemma ManualTake(db: Journal, key: Option<RequestKey>)
    requires Kept(db)
    ensures var (next, taken) := Take(db, Manual, key);
            && (forall i: nat :: taken == Some(i) <==> Waits(db, key, i))
            && |next.runs| == |db.runs|
            && (forall i :: 0 <= i < |db.runs| ==> next.runs[i] == if taken == Some(i) then db.runs[i].(state := Running) else db.runs[i])
            && next.events == db.events + if taken.Some? then [Started(taken.value)] else []
  {
    forall i: nat | i < |db.runs| && key.Some? && db.runs[i].key == key
      ensures FindKey(db, key) == i
    {
      FoundKey(db, key, i);
    }
    var k := FindKey(db, key);
    assert k < |db.runs| && db.runs[k].state == Queued ==> Waits(db, key, k);
    hide Kept, FindKey;
    assert db.events + [] == db.events;
  }

  lemma OtherClaim(db: Journal, origin: Origin, key: Option<RequestKey>)
    requires origin != Manual
    ensures var (next, claimed) := Claim(db, origin, key);
            && OnlyClaims(db, next, claimed)
            && claimed == Some(|db.runs|) && next.runs[|db.runs|..] == [Run(None, origin, Running)]
  {
    SweptEvents(db, |db.runs|);
    hide InterruptRunning, FindKey, Ends;
  }

  /** A known key is answered with its run and changes nothing; a new one waits unless some run is active. */
  lemma ReserveExactly(db: Journal, key: RequestKey)
    requires Kept(db)
    ensures var (next, r) := Reserve(db, key);
            && (forall i: nat :: r == Existing(i) <==> i < |db.runs| && db.runs[i].key == Some(key))
            && (r == Refused <==> (Unknown(db, key) && exists i :: 0 <= i < |db.runs| && db.runs[i].state in {Queued, Running}))
            && (forall i: nat :: r == Created(i) ==> i == |db.runs|)
            && next.events == db.events
            && next.runs == db.runs + if r.Created? then [Run(Some(key), Manual, Queued)] else []
  {
    forall i: nat | i < |db.runs| && db.runs[i].key == Some(key)
      ensures FindKey(db, Some(key)) == i
    {
      FoundKey(db, Some(key), i);
    }
    var k := FindKey(db, Some(key));
    assert forall i :: 0 <= i < |db.runs| && i < k ==> db.runs[i].key != Some(key);
    assert AnyActive(db) <==> exists i :: 0 <= i < |db.runs| && db.runs[i].state in {Queued, Running};
    hide Kept, FindKey, AnyActive;
    assert db.runs + [] == db.runs;
  }

  /** A turned-away request that waits ends as busy, a turned-away schedule leaves a new busy run. */
  lemma LockBusyExactly(db: Journal, origin: Origin, key: Option<RequestKey>)
    requires Kept(db)
    ensures var next := LockBusy(db, origin, key);
            if origin != Manual then
              && next.runs == db.runs + [Run(None, origin, Busy)]
              && next.events == db.events + [Completed(|db.runs|, Busy)]
            else
              && |next.runs| == |db.runs|
              && (forall i :: 0 <= i < |db.runs| ==>
                    next.runs[i] == if Waits(db, key, i) then db.runs[i].(state := Busy) else db.runs[i])
              && (forall i: nat :: Waits(db, key, i) ==> next.events == db.events + [Completed(i, Busy)])
              && ((forall i: nat :: !Waits(db, key, i)) ==> next == db)
  {
    forall i: nat | i < |db.runs| && key.Some? && db.runs[i].key == key
      ensures FindKey(db, key) == i
    {
      FoundKey(db, key, i);
    }
    var k := FindKey(db, key);
    assert k < |db.runs| && db.runs[k].state == Queued ==> Waits(db, key, k);
    hide Kept, FindKey;
    if origin != Manual {
      var queued := Insert(db, origin, None);
      assert queued.runs[|db.runs|].state == Queued;
      assert LockBusy(db, origin, key).runs == db.runs + [Run(None, origin, Busy)];
    }
  }

  /** A completion ends exactly the run it names, if it is active and as expected, and logs it once. */
  lemma CompleteExactly(db: Journal, run: nat, state: RunState, expected: Option<RunState>)
    ensures var next := Complete(db, run, state, expected);
            var ends := run < |db.runs| && db.runs[run].state in {Queued, Running} && expected in {None, Some(db.runs[run].state)};
            && |next.runs| == |db.runs|
            && (forall i :: 0 <= i < |db.runs| ==>
                  next.runs[i] == if ends && i == run then Run(db.runs[i].key, db.runs[i].origin, state) else db.runs[i])
            && next.events == db.events + if ends then [Completed(run, state)] else []
  {
    assert db.events + [] == db.events;
  }
}
