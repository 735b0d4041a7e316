/** The executor: one target's files, ledger and pending plan, changed step by step. */
module Executor {
  import opened Common
  import opened Ledger
  import opened Planner
  import opened Delivery
  import opened Execution
  import opened Selection
  import opened Schedules
  import R = Reorder

  /** One turn of the delivery loop: the gate waits, the plan blocks, a fault, or one of three ends. */
  datatype Outcome = Waits | Skipped | Faulted | Done | Aborts | Dies

  datatype Attempted = Delivered | Refused | Lost

  /** How a run of one plan ends. Crashed means the process died between two effects. */
  datatype End = Succeeded | Failures | Aborted | Crashed

  class Service {
    /** Nothing goes wrong: no step fails and the process is not killed. */
    const calm: bool
    var files: Files
    var ledger: seq<Record>
    var pending: Option<seq<Candidate>>
    var nextId: nat

    constructor (files: Files, calm: bool)
      ensures this.files == files && ledger == [] && pending == None && nextId == 0 && this.calm == calm
    {
      this.calm := calm;
      this.files, ledger, pending, nextId := files, [], None, 0;
    }

    /** Whether a step fails, or the process dies, is not up to the program. */
    method Strikes() returns (struck: bool)
      ensures calm ==> !struck
    {
      struck := *;
      if calm {
        struck := false;
      }
    }

    /** The run is at this site. */
    ghost predicate At(s: Site)
      reads `files, `ledger, `nextId
    {
      s.files == files && s.ledger == ledger && s.nextId == nextId
    }

    /** The run of the plan is somewhere it can stop. */
    ghost predicate StoppedAt(job: Job, base: nat)
      reads `files, `ledger, `nextId
    {
      exists s :: Stops(job, base, s) && At(s)
    }

    method Upsert(r: Record)
      modifies `ledger
      ensures ledger == Upserted(old(ledger), r)
    {
      for i := 0 to |ledger|
        invariant ledger == old(ledger)
        invariant forall j :: 0 <= j < i ==> !SameRow(ledger[j], r)
      {
        if SameRow(ledger[i], r) {
          assert Row(ledger, r) == i;
          var row := ledger[i];
          ledger := ledger[i := row.(ref := r.ref, status := r.status,
                                     filename := if r.filename != "" then r.filename else row.filename)];
          return;
        }
      }
      assert Row(ledger, r) == |ledger|;
      ledger := ledger + [r];
    }

    /**
     * deliverCandidate and Deliver: check the destination, write the publishing row, check again,
     * copy to a temporary file and rename. Every step may fail, also after the rename has happened.
     */
    method DeliverCandidate(ghost job: Job, ghost base: nat, ghost s: Site, c: Candidate, records: seq<Record>)
      returns (r: Attempted, ghost t: Site)
      requires At(s) && Stops(job, base, s) && Enabled(job, s, Announce)
      requires c == Turn(job, s) && records == job.view.records
      modifies `files, `ledger, `nextId
      ensures At(t) && Stops(job, base, t)
      ensures t.turn == s.turn && t.delivered == s.delivered && t.failed == s.failed
      ensures r == Delivered ==> Enabled(job, t, Publish)
      ensures files == old(files) || files == old(files)[c.Ref() := c.artifact.sha]
      ensures calm ==> r == Delivered
    {
      var struck: bool;
      hide Stops, OwnedAt, ActionOf, R.Lookup, Upserted;
      t := s;
      var owned := OwnedHashesForPath(records, c.Ref());
      assert forall h :: h in owned <==> h in Elems(owned);
      owned := owned + [c.artifact.sha];
      if c.Ref() in files && files[c.Ref()] !in owned {
        return Refused, t;
      }
      struck := Strikes();
      if struck {
        return Refused, t;
      }
      StopsAfter(job, base, t, Announce);
      Upsert(DeliveryRow(c, nextId, Publishing));
      nextId := nextId + 1;
      t := Apply(job, t, Announce);
      struck := Strikes();
      if struck {
        return Lost, t;
      }
      struck := Strikes();
      if struck {
        return Refused, t;
      }
      if c.Ref() in files && files[c.Ref()] !in owned {
        return Refused, t;
      }
      if c.Ref() !in files || files[c.Ref()] != c.artifact.sha {
        struck := Strikes();
        if struck {
          return Refused, t;
        }
        StopsAfter(job, base, t, Write);
        files := files[c.Ref() := c.artifact.sha];
        t := Apply(job, t, Write);
        struck := Strikes();
        if struck {
          return Refused, t;
        }
      }
      struck := Strikes();
      if struck {
        return Lost, t;
      }
      r := Delivered;
    }

    /** One turn of the delivery loop. */
    method DeliverOne(ghost job: Job, ghost base: nat, ghost s: Site, records: seq<Record>,
                      dependencies: seq<Id>, action: Action, c: Candidate, delivered: set<Id>) returns (turn: Outcome, ghost t: Site)
      requires At(s) && Stops(job, base, s) && Delivering(job, s) && s.stage == Idle
      requires c == Turn(job, s) && records == job.view.records && delivered == s.delivered
      requires dependencies == R.Lookup(job.plan.dependencies, c.artifact.id)
      requires Planned(job, s) == Some(action) && action != Retire
      modifies `files, `ledger, `nextId
      ensures At(t) && Stops(job, base, t)
      ensures turn in {Aborts, Dies} || (t.turn == s.turn + 1 && t.stage == Idle)
      ensures turn == Done ==> t.delivered == delivered + {c.artifact.id} && t.failed == s.failed
      ensures turn in {Waits, Skipped, Faulted} ==> t.delivered == delivered && t.failed
      ensures turn == Waits <==> !Open(job, s)
      ensures turn == Skipped <==> Open(job, s) && action == Blocked
      ensures files == old(files) || files == old(files)[c.Ref() := c.artifact.sha]
      ensures calm && Open(job, s) && action != Blocked && Identified(old(files), records, c) ==> turn == Done
    {
      var struck: bool;
      hide Stops, OwnedAt, ActionOf, R.Lookup, Upserted, Identified;
      t := s;
      var ready := IsReady(dependencies, delivered);
      if !ready {
        t := SkipTurn(job, base, t);
        return Waits, t;
      }
      if action == Blocked {
        t := SkipTurn(job, base, t);
        return Skipped, t;
      }
      if !Identified(files, records, c) {
        t := SkipTurn(job, base, t);
        return Faulted, t;
      }
      if action == Unchanged {
        StopsAfter(job, base, t, Keep);
        t := Apply(job, t, Keep);
        return Done, t;
      }
      var r: Attempted;
      r, t := DeliverCandidate(job, base, s, c, records);
      if r == Lost {
        return Dies, t;
      }
      if r == Refused {
        t := SkipTurn(job, base, t);
        return Faulted, t;
      }
      struck := Strikes();
      if struck {
        return Aborts, t;
      }
      StopsAfter(job, base, t, Publish);
      Upsert(DeliveryRow(c, nextId, Published));
      nextId := nextId + 1;
      t := Apply(job, t, Publish);
      struck := Strikes();
      if struck {
        return Dies, t;
      }
      return Done, t;
    }

    /** A turn that ends without a delivery or a retirement. */
    ghost method SkipTurn(job: Job, base: nat, s: Site) returns (t: Site)
      requires At(s) && Stops(job, base, s) && (Delivering(job, s) || Retiring(job, s))
      ensures At(t) && Stops(job, base, t)
      ensures t.turn == s.turn + 1 && t.stage == Idle && t.delivered == s.delivered
      ensures t.failed == (s.failed || Delivering(job, s))
    {
      StopsAfter(job, base, s, Skip);
      t := Apply(job, s, Skip);
    }

    /** Deliver every candidate in order, each behind the gate of its dependencies. */
    method DeliverAll(ghost job: Job, ghost base: nat, records: seq<Record>, plan: Plan, blocked: nat)
      returns (end: End, waiting: nat, faults: nat, ghost s: Site)
      requires Sound(job, base) && At(Start(job, base)) && records == job.view.records && plan == job.plan
      requires blocked > 0 <==> HasBlocked(plan.items)
      modifies `files, `ledger, `nextId
      ensures At(s) && Stops(job, base, s)
      ensures end == Succeeded ==> blocked == 0 && s.turn == |plan.order| && !s.failed
      ensures waiting > 0 ==> blocked > 0 || faults > 0
      ensures end in {Succeeded, Failures} ==> s.turn == |plan.order|
      ensures calm && job.view.Unblocked() ==> end == Succeeded
    {
      hide Stops, Sound, SiteKept, ActionOf, Open, View.Unblocked, Untouched, HasBlocked, Identified;
      var order := plan.order;
      var actions := ActionIndex(plan.items);
      var delivered: set<Id> := {};
      waiting, faults := 0, 0;
      s := Start(job, base);
      StopsAtStart(job, base);
      UntouchedAtStart(job.view);
      if job.view.Unblocked() {
        SoundParts(job, base);
        NothingBlocked(job.view, plan);
      }
      for i := 0 to |order|
        invariant calm && job.view.Unblocked() ==> !s.failed && Untouched(job.view, files, delivered)
        invariant At(s) && Stops(job, base, s) && s.turn == i && s.stage == Idle && s.delivered == delivered
        invariant s.failed <==> blocked + waiting + faults > 0
        invariant waiting > 0 ==> blocked > 0 || faults > 0
      {
        var c := order[i];
        StopsKept(job, base, s);
        PlannedAction(job, base, s);
        PlannedIsItem(plan.items, c.artifact.id);
        if !s.failed {
          GateOpens(job, base, s);
        }
        if calm && job.view.Unblocked() {
          CanBeDelivered(job, base, s, delivered);
        }
        var turn: Outcome;
        ghost var before := files;
        turn, s := DeliverOne(job, base, s, records, R.Lookup(plan.dependencies, c.artifact.id),
                              actions[c.artifact.id], c, delivered);
        if calm && job.view.Unblocked() {
          UntouchedAfter(job.view, before, files, delivered, c);
        }
        match turn
        case Done => delivered := delivered + {c.artifact.id};
        case Waits => waiting := waiting + 1;
        case Faulted => faults := faults + 1;
        case Skipped =>
        case Aborts => return Aborted, waiting, faults, s;
        case Dies => return Crashed, waiting, faults, s;
      }
      if blocked + waiting + faults > 0 {
        return Failures, waiting, faults, s;
      }
      end := Succeeded;
    }

    /**
     * Retire one record: remove its file unless a candidate of the plan occupies the path, then
     * mark the record superseded.
     */
    method RetireOne(ghost job: Job, ghost base: nat, ghost s: Site, candidates: seq<Candidate>, records: seq<Record>, i: nat)
      returns (r: Attempted, ghost t: Site)
      requires Sound(job, base) && At(s) && Stops(job, base, s) && Retiring(job, s)
      requires records == job.view.records && candidates == job.view.candidates && i == Retiree(job, s) < |records|
      modifies `files, `ledger
      ensures At(t) && Stops(job, base, t) && !t.failed
      ensures r != Lost ==> t.turn == s.turn + 1
      ensures r == Delivered ==> i < |ledger| && ledger[i] == records[i].(status := Superseded)
      ensures calm ==> r == Delivered
      ensures ledger == old(ledger) || (i < |old(ledger)| && ledger == old(ledger)[i := records[i].(status := Superseded)])
    {
      var struck: bool;
      hide Stops, Sound, SiteKept, Occupied, RetirementOwned, Upserted;
      t := s;
      var prior := records[i];
      AtFreePath(job, base, s);
      var occupied := IsOccupied(job.view, candidates, prior.ref);
      if !occupied {
        var owned := RetirementOwnedHashes(records, prior);
        assert forall h :: h in owned <==> h in Elems(owned);
        if prior.ref in files {
          if files[prior.ref] !in owned {
            t := SkipTurn(job, base, t);
            return Refused, t;
          }
          struck := Strikes();
          if struck {
            t := SkipTurn(job, base, t);
            return Refused, t;
          }
          StopsAfter(job, base, t, Remove);
          files := files - {prior.ref};
          t := Apply(job, t, Remove);
          struck := Strikes();
          if struck {
            return Lost, t;
          }
        }
      }
      struck := Strikes();
      if struck {
        t := SkipTurn(job, base, t);
        return Refused, t;
      }
      StopsKept(job, base, t);
      SupersedeWrites(job, base, t, i);
      StopsAfter(job, base, t, Supersede);
      Upsert(prior.(status := Superseded));
      t := Apply(job, t, Supersede);
      struck := Strikes();
      if struck {
        return Lost, t;
      }
      return Delivered, t;
    }

    method ApplyRetirements(ghost job: Job, ghost base: nat, ghost s: Site, candidates: seq<Candidate>, records: seq<Record>, plan: Plan)
      returns (end: End, ghost t: Site)
      requires Sound(job, base) && At(s) && Stops(job, base, s) && s.turn == |plan.order| && !s.failed
      requires records == job.view.records && candidates == job.view.candidates && plan == job.plan
      modifies `files, `ledger
      ensures At(t) && Stops(job, base, t)
      ensures calm ==> end == Succeeded
      ensures end != Crashed ==> end in {Succeeded, Failures} && t.turn == |plan.order| + |plan.retirements|
      ensures end == Succeeded ==> SupersededAll(records, ledger, plan.retirements) && t.turn == |plan.order| + |plan.retirements| && !t.failed
    {
      hide Stops, Sound, SiteKept, SupersededAll, IsPlan, Coherent, ValidLedger, View.Retires, RecordAt, Enabled;
      var retirements := plan.retirements;
      var failed := false;
      t := s;
      NoneSuperseded(records, ledger);
      assert retirements[..0] == [];
      for k := 0 to |retirements|
        invariant At(t) && Stops(job, base, t) && t.turn == |plan.order| + k && !t.failed
        invariant !failed ==> SupersededAll(records, ledger, retirements[..k])
        invariant calm ==> !failed
      {
        SoundParts(job, base);
        PlannedRetires(job, base, t);
        var i := FindRecord(records, retirements[k]);
        ghost var before := ledger;
        var r: Attempted;
        r, t := RetireOne(job, base, t, candidates, records, i);
        if !failed && r == Delivered {
          SupersededOne(job.view, base, records, before, ledger, retirements, k, i);
        }
        if r == Lost {
          return Crashed, t;
        }
        failed := failed || r == Refused;
      }
      assert retirements[..|retirements|] == retirements;
      end := if failed then Failures else Succeeded;
    }

    method FindRecord(records: seq<Record>, id: nat) returns (i: nat)
      ensures i == RecordAt(records, id)
    {
      i := 0;
      while i < |records| && records[i].id != id
        invariant i <= |records| && RecordAt(records, id) == i + RecordAt(records[i..], id)
      {
        i := i + 1;
      }
    }

    method IsOccupied(ghost view: View, candidates: seq<Candidate>, path: Path) returns (occupied: bool)
      requires candidates == view.candidates
      ensures occupied <==> Occupied(view, path)
    {
      occupied := false;
      for i := 0 to |candidates|
        invariant occupied <==> exists k :: 0 <= k < i && candidates[k].Ref() == path
      {
        if candidates[i].Ref() == path {
          occupied := true;
        }
      }
    }

    /** Run one plan from the library it was made for. */
    method RunPlan(candidates: seq<Candidate>, volumes: seq<Edition>, plan: Plan) returns (end: End, waiting: nat, faults: nat)
      requires Ready(candidates) && IsPlan(View(files, ledger, volumes, candidates), plan)
      modifies `files, `ledger, `nextId
      ensures Ready(candidates)
      ensures StoppedAt(Job(old(View(files, ledger, volumes, candidates)), plan), old(nextId))
      ensures Reached(old(View(files, ledger, volumes, candidates)), files, ledger)
      ensures end == Succeeded ==> Finished(old(View(files, ledger, volumes, candidates)), files, ledger)
      ensures waiting > 0 ==> faults > 0
      ensures calm && old(View(files, ledger, volumes, candidates)).Unblocked() ==> end == Succeeded
    {
      var struck: bool;
      ghost var view := View(files, ledger, volumes, candidates);
      ghost var job := Job(view, plan);
      ghost var base := nextId;
      assert Sound(job, base);
      hide Stops, Sound, SiteKept, Finished, Reached, HasBlocked, SupersededAll, Deliverable, ValidLedger, IsPlan, View.Unblocked;
      var records := ledger;
      ghost var s := Start(job, base);
      StopsAtStart(job, base);
      SiteIsReady(job, base, s);
      var blocked := CountBlocked(plan.items);
      struck := Strikes();
      if struck {
        assert At(s);
        return Failures, 0, 1;
      }
      end, waiting, faults, s := DeliverAll(job, base, records, plan, blocked);
      SiteIsReady(job, base, s);
      faults := faults + blocked;
      if end != Succeeded {
        return;
      }
      end, s := ApplyRetirements(job, base, s, candidates, records, plan);
      SiteIsReady(job, base, s);
      if end == Succeeded {
        RunFinished(job, base, s);
      }
    }

    ghost predicate Ready(candidates: seq<Candidate>)
      reads `ledger, `nextId
    {
      ValidLedger(ledger, nextId) && Deliverable(candidates, ledger)
    }

    /** The stored state between runs. */
    ghost predicate Valid()
      reads this
    {
      ValidLedger(ledger, nextId) && (pending.Some? ==> Deliverable(pending.value, ledger))
    }

    /**
     * deliveryPlan: resume the saved plan's candidates against the current library, or plan the
     * selected ones and save them. None means blocked before any file was touched.
     */
    method PlanOrResume(selected: seq<Candidate>, volumes: seq<Edition>, hooks: bool)
      returns (plan: Option<Plan>, candidates: seq<Candidate>, persisted: bool)
      requires Valid() && Ready(selected)
      modifies `pending
      ensures Valid() && candidates in {selected} + (if old(pending).Some? then {old(pending).value} else {})
      ensures pending in {old(pending), None, Some(selected)} && (old(pending).None? ==> candidates == selected)
      ensures plan.Some? ==> Ready(candidates) && IsPlan(View(files, ledger, volumes, candidates), plan.value)
      ensures plan.Some? ==> pending == if persisted then Some(candidates) else None
      ensures plan.Some? ==>
                (persisted <==> || Resumes(files, ledger, volumes, old(pending)) || hooks || plan.value.retirements != []
                                || exists item :: item in plan.value.items && item.action != Unchanged)
      ensures calm ==>
                && candidates == (if Resumes(files, ledger, volumes, old(pending)) then old(pending).value else selected)
                && (plan.Some? <==> View(files, ledger, volumes, candidates).Orderable())
    {
      var struck: bool;
      candidates, persisted := selected, false;
      hide IsPlan, Deliverable, View.Orderable;
      struck := Strikes();
      if struck {
        return None, candidates, false;
      }
      if pending.Some? {
        candidates := pending.value;
        assert R.DistinctIds(candidates) by {
          DeliverableIds(candidates, ledger);
        }
        var resumed, cyclic := PlanDelivery(View(files, ledger, volumes, candidates));
        if !cyclic {
          return resumed, candidates, true;
        }
        pending := None;
        candidates := selected;
      }
      DeliverableIds(candidates, ledger);
      var planned, _ := PlanDelivery(View(files, ledger, volumes, candidates));
      if planned.None? {
        return None, candidates, false;
      }
      var recovery := NeedsRecovery(planned.value, hooks);
      if recovery {
        struck := Strikes();
        if struck {
          return None, candidates, false;
        }
        pending := Some(candidates);
      }
      return planned, candidates, recovery;
    }

    /**
     * executeDelivery: run the pending or fresh plan; after a resumed plan, go once more for the
     * selected candidates. Succeeded means the last plan finished and every selected candidate is in
     * its place, in the bytes selected, with a published record.
     */
    method Execute(selected: seq<Candidate>, volumes: seq<Edition>, hooks: bool) returns (end: End, ghost last: View)
      requires Valid() && Ready(selected)
      requires pending.Some? ==> CandidatesAgree(selected, pending.value)
      modifies this
      ensures Valid() && Ready(selected)
      ensures pending in {old(pending), None, Some(selected)}
      ensures calm ==> (end == Succeeded <==> last.Orderable() && last.Unblocked())
      ensures old(pending).None? ==> last == old(View(files, ledger, volumes, selected))
      ensures Spares(old(files), old(ledger), PlannedOutputs(selected, old(pending)), files, ledger)
      ensures end == Succeeded ==>
                && Finished(last, files, ledger) && last.volumes == volumes && pending == None
                && SameDelivery(last.candidates, selected)
      ensures end == Succeeded ==> forall c :: c in selected ==> InPlace(files, ledger, c)
    {
      var struck: bool;
      last := View(files, ledger, volumes, selected);
      SparesNothing(files, ledger);
      hide IsPlan, Spares, Reached, Finished, ValidLedger, Deliverable, Outputs, Owns, InPlace, SameDelivery, View.Orderable,
           View.Unblocked, Resumes;
      for attempt := 0 to 2
        invariant Valid() && Ready(selected)
        invariant pending in {old(pending), None, Some(selected)}
        invariant pending.Some? ==> CandidatesAgree(selected, pending.value)
        invariant Spares(old(files), old(ledger), PlannedOutputs(selected, old(pending)), files, ledger)
        invariant attempt > 0 ==> pending == None && old(pending).Some?
        invariant attempt == 0 ==> pending == old(pending) && files == old(files) && ledger == old(ledger)
        invariant attempt < 2
      {
        var plan, candidates, persisted := PlanOrResume(selected, volumes, hooks);
        last := View(files, ledger, volumes, candidates);
        if plan.None? {
          return Failures, last;
        }
        PlanIsOrderable(last, plan.value);
        SameAsItself(selected);
        AgreesWithItself(selected, ledger);
        ghost var base := nextId;
        var finish, _, _ := RunPlan(candidates, volumes, plan.value);
        end := finish;
        SparesMore(old(files), old(ledger), PlannedOutputs(selected, old(pending)), last, files, ledger);
        AgreementSurvives(last, files, ledger, selected);
        if end != Succeeded {
          return end, last;
        }
        FinishedWasUnblocked(last, files, ledger);
        if persisted {
          struck := Strikes();
          if struck {
            return Aborted, last;
          }
          pending := None;
        }
        struck := Strikes();
        if struck {
          return Crashed, last;
        }
        if SameDelivery(candidates, selected) {
          SelectedInPlace(last, files, ledger, base, selected);
          return Succeeded, last;
        }
      }
      // Not reached: a second attempt has nothing pending, so it plans the selected candidates themselves.
      assert false;
    }

    method NeedsRecovery(plan: Plan, hooks: bool) returns (needed: bool)
      ensures needed <==> hooks || plan.retirements != [] || exists item :: item in plan.items && item.action != Unchanged
    {
      needed := hooks || plan.retirements != [];
      for i := 0 to |plan.items|
        invariant needed <==> hooks || plan.retirements != [] || exists k :: 0 <= k < i && plan.items[k].action != Unchanged
      {
        if plan.items[i].action != Unchanged {
          needed := true;
        }
      }
      assert (exists k :: 0 <= k < |plan.items| && plan.items[k].action != Unchanged) <==>
             exists item :: item in plan.items && item.action != Unchanged;
    }

    method CountBlocked(items: seq<Item>) returns (blocked: nat)
      ensures blocked > 0 <==> HasBlocked(items)
    {
      blocked := 0;
      for i := 0 to |items|
        invariant blocked == 0 <==> forall k :: 0 <= k < i ==> items[k].action != Blocked
      {
        if items[i].action == Blocked {
          blocked := blocked + 1;
        }
      }
    }

    /** itemByID: the last item of an artifact that is not a retirement. */
    method ActionIndex(items: seq<Item>) returns (actions: map<Id, Action>)
      ensures forall id :: ActionOf(items, id) == if id in actions then Some(actions[id]) else None
    {
      actions := map[];
      for i := 0 to |items|
        invariant forall id :: ActionOf(items[..i], id) == if id in actions then Some(actions[id]) else None
      {
        assert items[..i + 1][..i] == items[..i];
        if items[i].action != Retire {
          actions := actions[items[i].artifact := items[i].action];
        }
      }
      assert items[..|items|] == items;
    }

    method IsReady(dependencies: seq<Id>, delivered: set<Id>) returns (ready: bool)
      ensures ready <==> Elems(dependencies) <= delivered
    {
      ready := true;
      for k := 0 to |dependencies|
        invariant ready <==> Elems(dependencies[..k]) <= delivered
      {
        assert Elems(dependencies[..k + 1]) == Elems(dependencies[..k]) + {dependencies[k]};
        if dependencies[k] !in delivered {
          ready := false;
        }
      }
      assert dependencies[..|dependencies|] == dependencies;
    }
  }

  ghost predicate SupersededAll(records: seq<Record>, ledger: seq<Record>, ids: seq<nat>) {
    forall i :: 0 <= i < |records| && records[i].id in ids ==>
      i < |ledger| && ledger[i] == records[i].(status := Superseded)
  }

  lemma NoneSuperseded(records: seq<Record>, ledger: seq<Record>)
    ensures SupersededAll(records, ledger, [])
  {
  }

  lemma SupersededOne(view: View, base: nat, records: seq<Record>, before: seq<Record>, ledger: seq<Record>,
                      ids: seq<nat>, k: nat, i: nat)
    requires records == view.records && ValidLedger(records, base) && i < |records| && i < |ledger| && k < |ids| && records[i].id == ids[k]
    requires ledger[i] == records[i].(status := Superseded)
    requires ledger == before || (i < |before| && ledger == before[i := records[i].(status := Superseded)])
    requires SupersededAll(records, before, ids[..k])
    ensures SupersededAll(records, ledger, ids[..k + 1])
  {
    assert ids[..k + 1] == ids[..k] + [ids[k]];
  }

  lemma SoundParts(job: Job, base: nat)
    requires Sound(job, base)
    ensures IsPlan(job.view, job.plan) && ValidLedger(job.view.records, base) && Coherent(job.view)
  {
  }

  /** Superseding a retired record changes its row and no other. */
  lemma SupersedeWrites(job: Job, base: nat, s: Site, i: nat)
    requires Sound(job, base) && SiteKept(job, s) && Retiring(job, s) && i == Retiree(job, s) && i < |job.view.records|
    ensures i < |s.ledger|
    ensures Upserted(s.ledger, job.view.records[i].(status := Superseded)) == s.ledger[i := job.view.records[i].(status := Superseded)]
  {
    hide IsPlan, Reached, ValidLedger, EverySettled, View.Retires, RetirementOwned, Occupied, Upserted, Progress, RecordAt;
    PlannedRetires(job, base, s);
    SupersededRow(job.view, s.files, s.ledger, base, s.nextId, i);
  }

  /** The action the executor looks up for the candidate whose turn it is. */
  lemma PlannedAction(job: Job, base: nat, s: Site)
    requires Sound(job, base) && SiteKept(job, s) && Delivering(job, s)
    ensures Planned(job, s).Some? && Planned(job, s).value != Retire
  {
    hide IsPlan, Reached, ValidLedger, Stuck;
    TurnIsNext(job, s);
    ActsOn(job.view, job.plan, Turn(job, s));
  }

  lemma {:induction false} PlannedIsItem(items: seq<Item>, id: Id)
    ensures ActionOf(items, id).Some? ==> exists item :: item in items && item.action == ActionOf(items, id).value
    ensures ActionOf(items, id) == Some(Blocked) ==> HasBlocked(items)
  {
    if items == [] {
    } else {
      var last := items[|items| - 1];
      assert last in items;
      if last.action == Retire || last.artifact != id {
        PlannedIsItem(items[..|items| - 1], id);
      }
    }
  }

  /** In the planned order a candidate never waits for a later one. */
  lemma GateOpens(job: Job, base: nat, s: Site)
    requires Sound(job, base) && SiteKept(job, s) && Delivering(job, s) && !s.failed
    ensures Open(job, s)
  {
    var c := Turn(job, s);
    var ids := R.OrderIds(job.plan.order);
    TurnIsNext(job, s);
    hide Reached, ValidLedger, Progress, StageKept, ArtifactsAgree, Coherent, R.AllCovered, R.Acyclic, View.Orderable;
    forall d | d in R.Lookup(job.plan.dependencies, c.artifact.id)
      ensures d in s.delivered
    {
      DependsOnEdges(job.view, job.plan, c, d);
      assert R.Edge(job.view.Graph(), ids[s.turn], d);
      assert d in ids[..s.turn];
    }
  }

  /** Wherever a run stops, the library is ready for the next one. */
  lemma SiteIsReady(job: Job, base: nat, s: Site)
    requires Sound(job, base) && Stops(job, base, s)
    ensures Reached(job.view, s.files, s.ledger)
    ensures ValidLedger(s.ledger, s.nextId) && Deliverable(job.view.candidates, s.ledger)
  {
    hide Reached, ValidLedger, IsPlan, Stops, Progress, StageKept, PhaseKept;
    StopsKept(job, base, s);
  }

  lemma RunFinished(job: Job, base: nat, s: Site)
    requires Sound(job, base) && Stops(job, base, s)
    requires s.turn == |job.plan.order| + |job.plan.retirements| && !s.failed
    requires SupersededAll(job.view.records, s.ledger, job.plan.retirements)
    ensures Finished(job.view, s.files, s.ledger)
  {
    StopsKept(job, base, s);
    NoneBlockedMeansUnblocked(job.view, job.plan);
    RetiredAreSuperseded(job.view, job.plan, s.ledger);
    hide IsPlan, Reached, Settled, View.Superfluous, View.Unblocked, View.Retires, ValidLedger, Progress, StageKept, SupersededAll;
  }

  lemma RetiredAreSuperseded(view: View, plan: Plan, ledger: seq<Record>)
    requires IsPlan(view, plan) && !HasBlocked(plan.items) && SupersededAll(view.records, ledger, plan.retirements)
    ensures forall i :: 0 <= i < |view.records| && view.Superfluous(view.records[i]) ==>
              i < |ledger| && ledger[i] == view.records[i].(status := Superseded)
  {
    NoneBlockedMeansUnblocked(view, plan);
    hide R.Acyclic, R.Topological, R.AllCovered, R.Lists, View.Orderable, View.Superfluous, Retirable, DecidesAll;
  }

  /** A plan without a blocked item is one that nothing blocks. */
  lemma NoneBlockedMeansUnblocked(view: View, plan: Plan)
    requires IsPlan(view, plan) && !HasBlocked(plan.items)
    ensures view.Unblocked()
  {
    hide R.Acyclic, R.Topological, R.AllCovered, R.Lists, View.Orderable, ActionFor, View.Superfluous;
    forall c | c in view.candidates
      ensures Identified(view.files, view.records, c)
    {
      var k :| 0 <= k < |view.candidates| && view.candidates[k] == c;
      assert plan.items[k] in plan.items;
      BlockedWhenUnidentified(view, c);
    }
    forall r | view.Superfluous(r)
      ensures Retirable(view.files, view.records, r)
    {
      assert RetireItem(view.files, view.records, r) in plan.items;
    }
  }

  /** The saved candidates are planned again, unless their order has a cycle by now. */
  ghost predicate Resumes(files: Files, ledger: seq<Record>, volumes: seq<Edition>, pending: Option<seq<Candidate>>) {
    && pending.Some?
    && var view := View(files, ledger, volumes, pending.value);
       R.AllCovered(view.candidates, view.records, view.volumes) ==> R.Acyclic(view.Graph())
  }

  lemma PlanIsOrderable(view: View, plan: Plan)
    requires IsPlan(view, plan)
    ensures view.Orderable()
  {
  }

  lemma FinishedWasUnblocked(view: View, files: Files, ledger: seq<Record>)
    requires Finished(view, files, ledger)
    ensures view.Unblocked()
  {
  }

  lemma SameAsItself(candidates: seq<Candidate>)
    ensures SameDelivery(candidates, candidates)
  {
  }

  lemma UntouchedAtStart(view: View)
    ensures Untouched(view, view.files, {})
  {
  }

  lemma UntouchedAfter(view: View, before: Files, files: Files, delivered: set<Id>, c: Candidate)
    requires Coherent(view) && c in view.candidates && Untouched(view, before, delivered)
    requires files == before || files == before[c.Ref() := c.artifact.sha]
    ensures Untouched(view, files, delivered + {c.artifact.id})
  {
    UntouchedMore(view, before, delivered, c);
    UntouchedElsewhere(view, before, delivered, c);
    hide Untouched, Coherent;
  }

  /** In an unblocked plan whose deliveries all succeeded so far, the next candidate can be delivered. */
  lemma CanBeDelivered(job: Job, base: nat, s: Site, delivered: set<Id>)
    requires Sound(job, base) && SiteKept(job, s) && Delivering(job, s) && job.view.Unblocked()
    requires delivered == s.delivered && Untouched(job.view, s.files, delivered)
    ensures Turn(job, s) in job.view.candidates && Coherent(job.view)
    ensures Planned(job, s).Some? && Planned(job, s).value != Blocked
    ensures Identified(s.files, job.view.records, Turn(job, s))
  {
    hide IsPlan, Reached, ValidLedger, Stuck, View.Superfluous, ActionFor, ActionOf;
    SoundParts(job, base);
    TurnIsNext(job, s);
    ActsOn(job.view, job.plan, Turn(job, s));
    NothingBlocked(job.view, job.plan);
    PlannedIsItem(job.plan.items, Turn(job, s).artifact.id);
  }

  lemma BlockedWhenUnidentified(view: View, c: Candidate)
    ensures !Identified(view.files, view.records, c) ==> view.Action(c) == Blocked
  {
  }

  lemma DeliverableIds(candidates: seq<Candidate>, ledger: seq<Record>)
    requires Deliverable(candidates, ledger)
    ensures R.DistinctIds(candidates)
  {
  }

  ghost predicate CandidatesAgree(left: seq<Candidate>, right: seq<Candidate>) {
    forall a, b :: a in left && b in right && a.artifact.id == b.artifact.id ==> a.artifact == b.artifact && a.release == b.release
  }

  ghost function PlannedOutputs(selected: seq<Candidate>, pending: Option<seq<Candidate>>): set<(Path, Hash)> {
    Outputs(selected) + if pending.Some? then Outputs(pending.value) else {}
  }

  lemma SparesNothing(files: Files, ledger: seq<Record>)
    ensures forall outputs :: Spares(files, ledger, outputs, files, ledger)
  {
  }

  lemma SparesMore(files0: Files, ledger0: seq<Record>, outputs: set<(Path, Hash)>, view: View, files: Files,
          ledger: seq<Record>)
    requires Spares(files0, ledger0, outputs, view.files, view.records)
    requires Coherent(view) && Reached(view, files, ledger) && Outputs(view.candidates) <= outputs
    ensures Spares(files0, ledger0, outputs, files, ledger)
  {
    ReachedSpares(view, files, ledger);
    SparesTransitive(files0, ledger0, outputs, view.files, view.records, Outputs(view.candidates), files, ledger);
    hide Spares;
    assert outputs + Outputs(view.candidates) == outputs;
  }

  lemma AgreesWithItself(candidates: seq<Candidate>, ledger: seq<Record>)
    requires Deliverable(candidates, ledger)
    ensures CandidatesAgree(candidates, candidates)
  {
  }

  lemma AgreementSurvives(view: View, files: Files, ledger: seq<Record>, selected: seq<Candidate>)
    requires Reached(view, files, ledger) && Deliverable(selected, view.records)
    requires CandidatesAgree(selected, view.candidates)
    ensures Deliverable(selected, ledger)
  {
    forall c, r | c in selected && r in ledger && c.artifact.id == r.artifact.id
      ensures c.artifact == r.artifact && c.release == r.release
    {
      var i :| 0 <= i < |ledger| && ledger[i] == r;
      if i < |view.records| {
        assert RowEvolves(view, files, view.records[i], ledger[i]);
        assert view.records[i] in view.records;
      } else {
        assert NewRow(view, ledger[i]);
      }
    }
  }
}
