/** Every plan that nothing blocks can be carried out to the end. */
module Completion {
  import opened Common
  import opened Ledger
  import opened Planner
  import opened Delivery
  import opened Execution
  import opened Schedules
  import opened Resumption
  import E = Executor
  import R = Reorder

  /** A superseded row differs from what it was in its status alone. */
  lemma OnlyStatusChanges(view: View, files: Files, ledger: seq<Record>, j: nat)
    requires LedgerEvolves(view, files, ledger) && j < |view.records| && j < |ledger|
    requires view.records[j].status == Published && ledger[j].status == Superseded
    ensures ledger[j] == view.records[j].(status := Superseded)
  {
    assert RowEvolves(view, files, view.records[j], ledger[j]);
  }

  lemma RetiredWasPublished(view: View, plan: Plan, base: nat, j: nat)
    requires IsPlan(view, plan) && ValidLedger(view.records, base) && j < |view.records| && view.records[j].id in plan.retirements
    ensures view.records[j].status == Published
  {
    hide View.Orderable, DecidesAll, View.Superfluous, R.Lists, R.Topological, Retirable;
    assert view.RetiresId(view.records[j].id);
    var r :| r in view.records && view.Retires(r) && r.id == view.records[j].id;
    var i :| 0 <= i < |view.records| && view.records[i] == r;
    RetiresIsPublished(view, r);
    assert i == j;
  }

  /** Some run of an unblocked plan delivers every candidate and retires every record it should. */
  lemma CanFinish(job: Job, base: nat) returns (s: Site)
    requires Sound(job, base) && job.view.Unblocked()
    ensures Stops(job, base, s) && s.turn == |job.plan.order| + |job.plan.retirements| && !s.failed
    ensures Finished(job.view, s.files, s.ledger)
  {
    hide Stops, View.Unblocked, Finished, IsPlan, ValidLedger, Coherent, RowEvolves;
    var s0 := CanDeliverAll(job, base);
    s := RetireOthers(job, base, s0, |s0.ledger|, |job.plan.retirements|);
    LedgerIsLonger(job, base, s0);
    StopsKept(job, base, s);
    assert job.plan.retirements[..|job.plan.retirements|] == job.plan.retirements;
    assert E.SupersededAll(job.view.records, s.ledger, job.plan.retirements) by {
      forall j | 0 <= j < |job.view.records| && job.view.records[j].id in job.plan.retirements
        ensures j < |s.ledger| && s.ledger[j] == job.view.records[j].(status := Superseded)
      {
        RetiredWasPublished(job.view, job.plan, base, j);
        OnlyStatusChanges(job.view, s.files, s.ledger, j);
      }
    }
    E.RunFinished(job, base, s);
  }
}
