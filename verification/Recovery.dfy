/** Once a rerun refuses to retire a record: which records it goes on refusing, and which recover. */
module Recovery {
  import opened Common
  import opened Ledger
  import opened Planner
  import opened Delivery
  import opened Execution
  import opened Schedules
  import opened DeliverySafety
  import opened Resumption
  import R = Reorder

  /** The plan wants to retire the record and must not: somebody else's bytes are in its place. */
  predicate Refused(view: View, r: Record) {
    view.Superfluous(r) && !Retirable(view.files, view.records, r)
  }

  /** Once `c` is in place and recorded, its bytes count as the record's own. */
  ghost predicate Speaks(view: View, c: Candidate, r: Record) {
    || c.artifact.sha == r.artifact.sha
    || (r.release != "" && c.release == r.release)
    || exists s :: Vouches(view, c, r, s)
  }

  ghost predicate Recovers(view: View, c: Candidate, r: Record) {
    Delivers(view, c) && Startable(view, c) && Speaks(view, c, r)
  }

  /* ---- A plan with a refusal retires nothing ---- */

  lemma RefusedBlocks(view: View, plan: Plan, r: Record)
    requires IsPlan(view, plan) && Refused(view, r)
    ensures HasBlocked(plan.items)
  {
    hide R.Acyclic, R.AllCovered, R.Topological, R.Lists, View.Superfluous, Retirable, View.Orderable, DecidesAll;
    assert RetireItem(view.files, view.records, r) in plan.items;
  }

  lemma NeverCleans(job: Job, base: nat, s: Site, r: Record)
    requires Sound(job, base) && Stops(job, base, s) && Refused(job.view, r)
    ensures Reached(job.view, s.files, s.ledger) && !Cleaning(job.view, s.ledger)
    ensures ValidLedger(s.ledger, s.nextId) && ArtifactsAgree(job.view.candidates, s.ledger)
  {
    StopsKept(job, base, s);
    SoundPlan(job, base);
    RefusedBlocks(job.view, job.plan, r);
    hide Sound, Stops, Reached, Progress, StageKept, ValidLedger, ArtifactsAgree, Cleaning, Refused, HasBlocked;
  }

  /* ---- What stays refused ---- */

  lemma RefusedRowStays(view: View, files: Files, ledger: seq<Record>, base: nat, r: Record)
    requires ValidLedger(view.records, base) && Reached(view, files, ledger) && Refused(view, r)
    ensures r in ledger
  {
    RetiresIsPublished(view, r);
    var i :| 0 <= i < |view.records| && view.records[i] == r;
    assert RowEvolves(view, files, r, ledger[i]);
    assert ValidRecord(view.records[i]);
    if c :| Delivers(view, c) && IsRow(r, c) {
      OwnRowIsDesired(view, r, c);
    }
  }

  /** Unless the record recovers, nothing comes to own the bytes in its place. */
  lemma StaysDisowned(view: View, files: Files, ledger: seq<Record>, c: Candidate, r: Record)
    requires Coherent(view) && Reached(view, files, ledger) && Refused(view, r)
    requires c in view.candidates && r.ref == c.Ref() && !Recovers(view, c, r)
    ensures !Retirable(files, ledger, r)
  {
    assert CandidatePathEvolves(view, files, ledger, c);
    hide View.Superfluous, Reached, Coherent, Startable, ActionFor;
    assert r.ref in files;
    forall t | t in ledger && t.status == Published && r.release != "" && t.release == r.release && t.ref == r.ref
      ensures t.artifact.sha != files[r.ref]
    {
      var j: nat :| j < |ledger| && ledger[j] == t;
      RowAtCandidate(view, files, ledger, c, j);
      if t in view.records {
        assert SameAt(view.files, files, r.ref) || (t.artifact.sha == c.artifact.sha <==> Vouches(view, c, r, t));
      }
    }
  }

  lemma StaysRefused(view: View, files: Files, ledger: seq<Record>, base: nat, c: Candidate, r: Record)
    requires Coherent(view) && ValidLedger(view.records, base) && Joined(view.records)
    requires Reached(view, files, ledger) && Refused(view, r)
    requires c in view.candidates && r.ref == c.Ref() && !Recovers(view, c, r)
    ensures Refused(Rerun(view, files, ledger), r)
  {
    RefusedRowStays(view, files, ledger, base, r);
    StaysDisowned(view, files, ledger, c, r);
    hide Reached, Coherent, ValidLedger, Joined, Recovers, View.Superfluous, Retirable;
    if r.artifact.sha == c.artifact.sha {
      OwnBytesStayUp(view, files, ledger, c, r);
    } else {
      StaysSuperfluous(view, files, ledger, c, r);
    }
  }

  /** Of a candidate whose path does not hold its bytes, only the own key is kept. */
  lemma OwnBytesStayUp(view: View, files: Files, ledger: seq<Record>, c: Candidate, r: Record)
    requires Coherent(view) && c in view.candidates && view.Superfluous(r) && r.ref == c.Ref() && r in ledger
    requires r.artifact.sha == c.artifact.sha && !Retirable(files, ledger, r)
    ensures Rerun(view, files, ledger).Superfluous(r)
  {
    var rerun := Rerun(view, files, ledger);
    SameCoverage(view, rerun);
    RetiresIsPublished(view, r);
    assert !Intact(files, c);
    assert CandidateKey(c) in KeysOf(view.files, view.records, c);
    assert CandidateKey(c) in view.Desired();
    assert KeysOf(files, ledger, c) == {CandidateKey(c)};
    hide View.Desired, View.Coverage, KeysOf, Complete;
    if RecordKey(r) in rerun.Desired() {
      DesiredThere(rerun, RecordKey(r), c);
    }
  }

  /* ---- One more run ---- */

  /** A run can go on to record what it has written. */
  lemma CanPublish(job: Job, base: nat, c: Candidate) returns (s: Site)
    requires Sound(job, base) && Delivers(job.view, c) && Startable(job.view, c)
    ensures Stops(job, base, s) && Intact(s.files, c) && HasRow(s.ledger, c, Published)
  {
    hide Sound, Stops, SiteKept, Reached, Cleaning, Startable, ActionFor, Upserted, HasRow;
    var p := CanReplace(job, base, c);
    StopsAfter(job, base, p, Publish);
    s := Apply(job, p, Publish);
    PublishedRow(job, base, p, c);
  }

  lemma PublishedRow(job: Job, base: nat, p: Site, c: Candidate)
    requires Sound(job, base) && Replacing(job, base, c, p) && Delivers(job.view, c) && Startable(job.view, c)
    ensures HasRow(Upserted(p.ledger, DeliveryRow(c, p.nextId, Published)), c, Published)
  {
    SoundPlan(job, base);
    hide IsPlan, Stops, Progress, StageKept, PhaseKept, Reached, Cleaning, Startable, ActionFor, Upserted, HasRow, Enabled, Coherent;
    DeliveryRowStep(job.view, p.files, p.ledger, c, p.nextId, Published);
  }

  lemma PublishedSpeaks(view: View, files: Files, ledger: seq<Record>, nextId: nat, c: Candidate, r: Record)
    requires Coherent(view) && ValidLedger(ledger, nextId) && Reached(view, files, ledger) && !Cleaning(view, ledger)
    requires c in view.candidates && r.ref == c.Ref() && Speaks(view, c, r)
    requires Intact(files, c) && HasRow(ledger, c, Published)
    ensures Retirable(files, ledger, r)
  {
    hide View.Superfluous, Reached, Coherent, ActionFor, ValidLedger;
    var k :| 0 <= k < |ledger| && IsRow(ledger[k], c) && ledger[k].status == Published;
    if c.artifact.sha == r.artifact.sha {
    } else if r.release != "" && c.release == r.release {
      OwnsBytes(ledger, r, ledger[k]);
    } else {
      var s :| Vouches(view, c, r, s);
      var j: nat :| j < |view.records| && view.records[j] == s;
      RowAtPath(view, files, ledger, c, j);
      if ledger[j] != s {
        OneRow(ledger, nextId, c, Published, j);
      }
      OwnsBytes(ledger, r, ledger[j]);
    }
  }

  /**
   * A refused record in the place of a candidate is accepted after some stop of one more run if and only
   * if it recovers: the candidate can be delivered, and once recorded it speaks for its bytes.
   */
  lemma RecoversExactly(job: Job, base: nat, c: Candidate, r: Record)
    requires Sound(job, base) && Joined(job.view.records) && Refused(job.view, r)
    requires c in job.view.candidates && r.ref == c.Ref()
    ensures (exists s :: Stops(job, base, s) && !Refused(Rerun(job.view, s.files, s.ledger), r)) <==> Recovers(job.view, c, r)
  {
    SoundBase(job, base);
    hide Sound, Stops, Joined, Refused, Recovers, Coherent, ValidLedger;
    if Recovers(job.view, c, r) {
      var s := RecoveredSite(job, base, c, r);
    } else {
      forall s | Stops(job, base, s)
        ensures Refused(Rerun(job.view, s.files, s.ledger), r)
      {
        NeverCleans(job, base, s, r);
        StaysRefused(job.view, s.files, s.ledger, base, c, r);
      }
    }
  }

  lemma RecoveredSite(job: Job, base: nat, c: Candidate, r: Record) returns (s: Site)
    requires Sound(job, base) && Refused(job.view, r) && Recovers(job.view, c, r) && r.ref == c.Ref()
    ensures Stops(job, base, s) && !Refused(Rerun(job.view, s.files, s.ledger), r)
  {
    SoundBase(job, base);
    hide Sound, Stops, Coherent, ValidLedger, Startable, Speaks, ActionFor, HasRow, Cleaning, Reached, Retirable, View.Superfluous;
    s := CanPublish(job, base, c);
    NeverCleans(job, base, s, r);
    PublishedSpeaks(job.view, s.files, s.ledger, s.nextId, c, r);
  }

  /* ---- Any number of runs ---- */

  /** Some run of a plan for the view can stop in this library. */
  ghost predicate RunsTo(view: View, next: Library) {
    exists plan, base, s :: Sound(Job(view, plan), base) && Stops(Job(view, plan), base, s) && next == Library(s.files, s.ledger)
  }

  /** Runs of the same candidates one after the other, each planned from where the one before stopped. */
  ghost predicate Reruns(view: View, stops: seq<Library>)
    decreases |stops|
  {
    stops == [] || (RunsTo(view, stops[0]) && Reruns(Rerun(view, stops[0].files, stops[0].ledger), stops[1..]))
  }

  lemma JoinedStays(view: View, files: Files, ledger: seq<Record>)
    requires Joined(view.records) && Reached(view, files, ledger) && ArtifactsAgree(view.candidates, ledger)
    ensures Joined(ledger)
  {
    forall i, j | 0 <= i < |ledger| && 0 <= j < |ledger| && ledger[i].artifact.id == ledger[j].artifact.id
      ensures ledger[i].artifact == ledger[j].artifact
    {
      OldOrOurs(view, files, ledger, i);
      OldOrOurs(view, files, ledger, j);
      hide Reached;
      assert ledger[i] in ledger && ledger[j] in ledger;
    }
  }

  /** A row's artifact is that of an old row or of a candidate. */
  lemma OldOrOurs(view: View, files: Files, ledger: seq<Record>, i: nat)
    requires Reached(view, files, ledger) && i < |ledger|
    ensures || (i < |view.records| && view.records[i] in view.records && ledger[i].artifact == view.records[i].artifact)
            || (exists c :: c in view.candidates && c.artifact == ledger[i].artifact)
  {
    hide View.Superfluous, EverySettled, CandidatePathEvolves, FreePathEvolves, Startable, ActionFor;
    if i < |view.records| {
      assert RowEvolves(view, files, view.records[i], ledger[i]);
    } else {
      assert NewRow(view, ledger[i]);
    }
  }

  /** Who does not speak for its bytes never will. */
  lemma StaysSilent(view: View, files: Files, ledger: seq<Record>, c: Candidate, r: Record)
    requires Coherent(view) && Reached(view, files, ledger) && c in view.candidates && r.ref == c.Ref() && !Speaks(view, c, r)
    ensures !Speaks(Rerun(view, files, ledger), c, r)
  {
    hide Reached, Coherent, View.Superfluous, Startable, ActionFor;
    forall s | s in ledger
      ensures !Vouches(Rerun(view, files, ledger), c, r, s)
    {
      var j: nat :| j < |ledger| && ledger[j] == s;
      if s.ref == r.ref {
        RowAtCandidate(view, files, ledger, c, j);
        assert j < |view.records| && ledger[j] == view.records[j] ==> !Vouches(view, c, r, s);
      }
    }
  }

  lemma OneRefusedRun(view: View, next: Library, c: Candidate, r: Record)
    requires RunsTo(view, next) && Joined(view.records) && Refused(view, r)
    requires c in view.candidates && r.ref == c.Ref() && !Speaks(view, c, r)
    ensures var rerun := Rerun(view, next.files, next.ledger);
            Joined(rerun.records) && Refused(rerun, r) && !Speaks(rerun, c, r)
  {
    var plan, base, s :| Sound(Job(view, plan), base) && Stops(Job(view, plan), base, s) && next == Library(s.files, s.ledger);
    SoundBase(Job(view, plan), base);
    NeverCleans(Job(view, plan), base, s, r);
    hide Sound, Stops, Coherent, Reached, ValidLedger, Joined, Refused, Speaks, ArtifactsAgree, Cleaning;
    StaysRefused(view, s.files, s.ledger, base, c, r);
    StaysSilent(view, s.files, s.ledger, c, r);
    JoinedStays(view, s.files, s.ledger);
  }

  /** A refused record that the candidate in its place does not speak for is refused by every later plan. */
  lemma {:induction false} RefusedForGood(view: View, stops: seq<Library>, c: Candidate, r: Record)
    requires Reruns(view, stops) && Joined(view.records) && Refused(view, r)
    requires c in view.candidates && r.ref == c.Ref() && !Speaks(view, c, r)
    ensures Refused(LastView(view, stops), r)
    decreases |stops|
  {
    hide RunsTo, Joined, Refused, Speaks;
    if stops == [] {
    } else {
      OneRefusedRun(view, stops[0], c, r);
      RefusedForGood(Rerun(view, stops[0].files, stops[0].ledger), stops[1..], c, r);
    }
  }

  /**
   * A delivered volume that a candidate replaces with other bytes: a run of the plan can stop where
   * every plan for the same candidates, however often it is run, refuses to retire the old record.
   */
  lemma ReplacedVolumeNeverRecovers(job: Job, base: nat, c: Candidate, r: Record) returns (s: Site)
    requires Sound(job, base) && Joined(job.view.records) && Faithful(job.view) && job.view.Unblocked()
    requires c in job.view.candidates && r in job.view.records && r.status == Published && IsVolume(job.view.volumes, r)
    requires r.ref == c.Ref() && r.artifact.sha != c.artifact.sha
    ensures Stops(job, base, s)
    ensures forall stops :: Reruns(Rerun(job.view, s.files, s.ledger), stops) ==>
              Refused(LastView(Rerun(job.view, s.files, s.ledger), stops), r)
  {
    SoundPlan(job, base);
    assert R.AllCovered(job.view.candidates, job.view.records, job.view.volumes);
    ReplacedVolumeIsSuperfluous(job.view, c, r);
    assert r.release == "";
    hide Sound, Stops, Joined, Faithful, View.Unblocked, IsPlan, Coherent, View.Superfluous, Retirable, R.AllCovered, Reruns;
    s := CleanedIsDisowned(job, base, c, r);
    JoinedAt(job, base, s);
    var rerun := Rerun(job.view, s.files, s.ledger);
    forall stops | Reruns(rerun, stops)
      ensures Refused(LastView(rerun, stops), r)
    {
      RefusedForGood(rerun, stops, c, r);
    }
  }

  lemma JoinedAt(job: Job, base: nat, s: Site)
    requires Sound(job, base) && Stops(job, base, s) && Joined(job.view.records)
    ensures Joined(s.ledger)
  {
    StopsKept(job, base, s);
    hide Sound, Stops, Reached, Progress, StageKept, PhaseKept, ValidLedger, Joined, ArtifactsAgree;
    JoinedStays(job.view, s.files, s.ledger);
  }
}
