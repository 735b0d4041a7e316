/**
 * What holds of every delivery: chapters stay readable, foreign files stay put, a finished delivery
 * is a fixpoint of planning, and an interrupted one converges with an uninterrupted one.
 */
module DeliverySafety {
  import opened Common
  import opened Ledger
  import opened Planner
  import opened Delivery
  import opened Execution
  import opened Schedules
  import R = Reorder

  /* ---- Chapters stay readable ---- */

  /** The chapters a record's file holds: the members of its edition, or its own release. */
  function RecordChapters(volumes: seq<Edition>, r: Record): set<Id> {
    if volumes == [] then {r.release}
    else
      var last := volumes[|volumes| - 1];
      if last.artifact == r.artifact.id then Elems(last.members)
      else RecordChapters(volumes[..|volumes| - 1], r)
  }

  ghost predicate IsVolume(volumes: seq<Edition>, r: Record) {
    exists v :: v in volumes && v.artifact == r.artifact.id
  }

  /** Volumes belong to no single release, and equal bytes hold equal chapters. */
  ghost predicate Faithful(view: View) {
    && (forall r :: r in view.records && IsVolume(view.volumes, r) ==> r.release == "")
    && (forall r, s :: r in view.records && s in view.records && r.artifact.sha == s.artifact.sha ==>
          RecordChapters(view.volumes, r) == RecordChapters(view.volumes, s))
  }

  predicate Holds(files: Files, r: Record) {
    r.ref in files && files[r.ref] == r.artifact.sha
  }

  /** `m` can be read from a delivered candidate. */
  ghost predicate Readable(view: View, files: Files, m: Id) {
    exists c :: c in view.candidates && m in c.Chapters() && Intact(files, c)
  }

  /** The plan can put other bytes in the place of a record's. */
  ghost predicate Displaces(view: View, c: Candidate, r: Record) {
    c.Ref() == r.ref && Delivers(view, c) && Startable(view, c) && c.artifact.sha != r.artifact.sha
  }

  /** Some candidate holds the chapter before `c` is written: it is in place already, or `c` waits for it. */
  ghost predicate Held(view: View, c: Candidate, m: Id) {
    exists h :: h in view.candidates && m in h.Chapters() && (Intact(view.files, h) || Needs(view, c, h))
  }

  /** Whatever takes a record's place carries the chapter, or comes after something that does. */
  ghost predicate Guarded(view: View, r: Record, m: Id) {
    forall c :: c in view.candidates && Displaces(view, c, r) && m !in c.Chapters() ==> Held(view, c, m)
  }

  /**
   * At every step of a plan, a guarded chapter whose published file was intact at the start is in that
   * file still, or in a delivered candidate.
   */
  lemma ChaptersStayReadable(view: View, files: Files, ledger: seq<Record>, r: Record, m: Id)
    requires Coherent(view) && Faithful(view) && Reached(view, files, ledger)
    requires r in view.records && r.status == Published && Holds(view.files, r)
    requires m in RecordChapters(view.volumes, r) && Guarded(view, r, m)
    ensures Holds(files, r) || Readable(view, files, m)
  {
    if !SameAt(view.files, files, r.ref) {
      if Occupied(view, r.ref) {
        var c :| c in view.candidates && c.Ref() == r.ref;
        assert CandidatePathEvolves(view, files, ledger, c);
        if c.artifact.sha != r.artifact.sha && m !in c.Chapters() {
          var h :| h in view.candidates && m in h.Chapters() && (Intact(view.files, h) || Needs(view, c, h));
          assert CandidatePathEvolves(view, files, ledger, h);
          assert Intact(files, h);
        }
      } else {
        assert FreePathEvolves(view, files, r.ref);
        var retired :| view.Retires(retired) && retired.ref == r.ref;
        RetiredIsCovered(view, r, retired);
        var c :| c in view.candidates && m in c.Chapters();
        assert Intact(files, c);
      }
    }
  }

  /** The chapters of a volume are always guarded: the order of delivery sees to it. */
  lemma VolumesAreGuarded(view: View, r: Record, m: Id)
    requires Coherent(view) && R.AllCovered(view.candidates, view.records, view.volumes)
    requires r in view.records && r.status == Published && IsVolume(view.volumes, r) && m in RecordChapters(view.volumes, r)
    ensures Guarded(view, r, m)
  {
    forall c | c in view.candidates && Displaces(view, c, r) && m !in c.Chapters()
      ensures Held(view, c, m)
    {
      OverwrittenIsCovered(view, c, r, m);
    }
  }

  /**
   * Exactly the guarded chapters stay readable: any other one is lost in some run of the plan, at the
   * moment its file is replaced.
   */
  lemma ReadableExactlyWhenGuarded(job: Job, base: nat, r: Record, m: Id)
    requires Sound(job, base) && Faithful(job.view)
    requires r in job.view.records && r.status == Published && Holds(job.view.files, r)
    requires m in RecordChapters(job.view.volumes, r)
    ensures (forall s :: Stops(job, base, s) ==> Holds(s.files, r) || Readable(job.view, s.files, m)) <==> Guarded(job.view, r, m)
  {
    hide Stops, Sound, Guarded, Readable, RecordChapters, Faithful;
    if Guarded(job.view, r, m) {
      forall s | Stops(job, base, s)
        ensures Holds(s.files, r) || Readable(job.view, s.files, m)
      {
        WithinBounds(job, base, s);
        ChaptersStayReadable(job.view, s.files, s.ledger, r, m);
      }
    } else {
      var s := UnguardedIsLost(job, base, r, m);
    }
  }

  lemma WithinBounds(job: Job, base: nat, s: Site)
    requires Sound(job, base) && Stops(job, base, s)
    ensures Reached(job.view, s.files, s.ledger) && Coherent(job.view)
  {
    StopsKept(job, base, s);
  }

  /** A chapter that is not guarded is lost where a run of the plan can stop. */
  lemma UnguardedIsLost(job: Job, base: nat, r: Record, m: Id) returns (s: Site)
    requires Sound(job, base) && Holds(job.view.files, r) && !Guarded(job.view, r, m)
    ensures Stops(job, base, s) && !Holds(s.files, r) && !Readable(job.view, s.files, m)
  {
    var c :| c in job.view.candidates && Displaces(job.view, c, r) && m !in c.Chapters() && !Held(job.view, c, m);
    hide Sound, Stops, SiteKept, Startable, Cleaning, HasRow, Held, Needs, ActionFor;
    s := CanReplace(job, base, c);
    NobodyHolds(job.view, s.files, c, m);
  }

  lemma NobodyHolds(view: View, files: Files, c: Candidate, m: Id)
    requires m !in c.Chapters() && !Held(view, c, m)
    requires forall other :: other in view.candidates && other != c && !Needs(view, c, other) ==> SameAt(view.files, files, other.Ref())
    ensures !Readable(view, files, m)
  {
    hide Needs;
    forall h | h in view.candidates && m in h.Chapters()
      ensures !Intact(files, h)
    {
      assert !Intact(view.files, h) && !Needs(view, c, h);
    }
  }

  lemma {:induction false} MembersOfEdition(volumes: seq<Edition>, r: Record)
    requires IsVolume(volumes, r)
    ensures RecordChapters(volumes, r) <= Elems(R.EditionMembers(volumes, r.artifact.id))
  {
    var last := volumes[|volumes| - 1];
    if last.artifact == r.artifact.id {
    } else {
      var v :| v in volumes && v.artifact == r.artifact.id;
      assert v in volumes[..|volumes| - 1];
      MembersOfEdition(volumes[..|volumes| - 1], r);
    }
  }

  /** A candidate that replaces a volume carries each of its chapters or waits for one that does. */
  lemma OverwrittenIsCovered(view: View, c: Candidate, r: Record, m: Id)
    requires Coherent(view) && R.AllCovered(view.candidates, view.records, view.volumes)
    requires c in view.candidates && r in view.records && r.status == Published
    requires c.Ref() == r.ref && c.artifact.sha != r.artifact.sha
    requires IsVolume(view.volumes, r) && m in RecordChapters(view.volumes, r)
    ensures m in c.Chapters() || Held(view, c, m)
  {
    assert R.Overwrites(c, r);
    MembersOfEdition(view.volumes, r);
    assert R.Covered(view.candidates, view.records, view.volumes, c);
    assert !R.Misses(view.candidates, view.records, view.volumes, c, r, m);
    R.ReplacementIsCandidate(view.candidates, m);
    var other :| other in view.candidates && m in other.Chapters()
      && other.artifact.id == R.Replacement(view.candidates, m);
    if other.artifact.id == c.artifact.id {
      CandidateAt(view, c, other);
    } else {
      assert R.Carries(view.candidates, R.EditionMembers(view.volumes, r.artifact.id), c, other.artifact.id);
      assert R.Awaits(view.candidates, view.records, view.volumes, c, other.artifact.id);
      R.AwaitsIsEdge(view.candidates, view.records, view.volumes, c, other.artifact.id);
      R.EdgeConnects(view.Graph(), c.artifact.id, other.artifact.id);
      assert Needs(view, c, other);
    }
  }

  lemma {:induction false} CompleteCovers(volumes: seq<Edition>, r: Record, covered: set<Id>)
    ensures Complete(volumes, r, covered) <==> RecordChapters(volumes, r) <= covered
  {
    if volumes == [] {
    } else {
      CompleteCovers(volumes[..|volumes| - 1], r, covered);
    }
  }

  lemma {:induction false} SingleChapters(volumes: seq<Edition>, r: Record)
    requires !IsVolume(volumes, r)
    ensures RecordChapters(volumes, r) == {r.release}
  {
    if volumes == [] {
    } else {
      var front := volumes[..|volumes| - 1];
      assert volumes[|volumes| - 1] in volumes;
      SingleChapters(front, r);
    }
  }

  /** A retirement only removes bytes whose chapters the candidates cover. */
  lemma RetiredIsCovered(view: View, r: Record, retired: Record)
    requires Faithful(view) && r in view.records && r.status == Published && Holds(view.files, r)
    requires view.Retires(retired) && retired.ref == r.ref
    ensures RecordChapters(view.volumes, r) <= view.Coverage()
  {
    CompleteCovers(view.volumes, retired, view.Coverage());
    if r.artifact.sha != retired.artifact.sha {
      var s :| s in view.records && retired.release != "" && s.release == retired.release && s.artifact.sha == r.artifact.sha;
      SingleChapters(view.volumes, s);
      SingleChapters(view.volumes, retired);
    }
  }

  /* ---- A finished delivery is a fixpoint ---- */

  ghost predicate Materialized(candidates: seq<Candidate>) {
    forall c :: c in candidates ==> !c.planned
  }

  /** Planning the delivered candidates again: nothing to deliver, nothing to retire. */
  lemma FinishedIsFixpoint(view: View, files: Files, ledger: seq<Record>, base: nat, nextId: nat)
    requires Coherent(view) && Materialized(view.candidates)
    requires ValidLedger(view.records, base) && ValidLedger(ledger, nextId)
    requires Finished(view, files, ledger)
    ensures var again := View(files, ledger, view.volumes, view.candidates);
            && (forall c :: c in view.candidates ==> again.Action(c) == Unchanged)
            && (forall r :: !again.Superfluous(r))
  {
    var again := View(files, ledger, view.volumes, view.candidates);
    forall c | c in view.candidates
      ensures again.Action(c) == Unchanged
    {
      SettledIsUnchanged(view, files, ledger, base, c);
    }
    forall r
      ensures !again.Superfluous(r)
    {
      if again.Superfluous(r) {
        NothingSuperfluous(view, files, ledger, base, nextId, r);
      }
    }
  }

  /** The record an unchanged candidate relies on is still the first one that matches. */
  lemma KeepsFirstExact(view: View, files: Files, ledger: seq<Record>, base: nat, c: Candidate)
    requires Coherent(view) && ValidLedger(view.records, base) && Reached(view, files, ledger)
    requires c in view.candidates && view.Action(c) == Unchanged
    ensures var k := FirstExact(view.records, c);
            k < |view.records| && k < |ledger| && FirstExact(ledger, c) == k && ledger[k] == view.records[k]
  {
    var k := FirstExact(view.records, c);
    var kept := view.records[k];
    assert RecordKey(kept) in KeysOf(view.files, view.records, c);
    assert RecordKey(kept) in view.Desired();
    assert RowEvolves(view, files, kept, ledger[k]);
    forall other | Delivers(view, other)
      ensures other.Ref() != c.Ref()
    {
      if other.Ref() == c.Ref() {
        CandidateAt(view, c, other);
      }
    }
    assert ledger[k] == kept;
    forall j | 0 <= j < k
      ensures !Exact(c, ledger[j])
    {
      assert RowEvolves(view, files, view.records[j], ledger[j]);
    }
    FirstExactIs(ledger, c, k);
  }

  lemma FirstExactIs(records: seq<Record>, c: Candidate, k: nat)
    requires k < |records| && Exact(c, records[k]) && forall j :: 0 <= j < k ==> !Exact(c, records[j])
    ensures FirstExact(records, c) == k
  {
  }

  lemma SettledIsUnchanged(view: View, files: Files, ledger: seq<Record>, base: nat, c: Candidate)
    requires Coherent(view) && Materialized(view.candidates) && ValidLedger(view.records, base)
    requires Reached(view, files, ledger) && c in view.candidates && Settled(view, files, ledger, c)
    ensures View(files, ledger, view.volumes, view.candidates).Action(c) == Unchanged
  {
    var i: nat;
    if view.Action(c) == Unchanged {
      KeepsFirstExact(view, files, ledger, base, c);
      i := FirstExact(ledger, c);
    } else {
      i :| 0 <= i < |ledger| && IsRow(ledger[i], c) && ledger[i].status == Published;
    }
    assert Exact(c, ledger[i]);
    assert ledger[i] in ledger && ledger[i].Live();
    assert c.artifact.sha in OwnedAt(ledger, c.Ref());
    assert FirstExact(ledger, c) <= i;
  }

  /** A row after the run: as before, or some candidate's, or superseded. */
  lemma RowAfter(view: View, files: Files, ledger: seq<Record>, i: nat)
    requires Reached(view, files, ledger) && i < |ledger|
    ensures || (i < |view.records| && ledger[i] == view.records[i])
            || (exists c :: c in view.candidates && IsRow(ledger[i], c))
            || (i < |view.records| && ledger[i].status == Superseded && view.Retires(view.records[i]))
  {
    if i < |view.records| {
      assert RowEvolves(view, files, view.records[i], ledger[i]);
    } else {
      assert NewRow(view, ledger[i]);
    }
  }

  /** A published row of a candidate carries the candidate's own key. */
  lemma OwnRowIsDesired(view: View, r: Record, c: Candidate)
    requires c in view.candidates && IsRow(r, c) && ValidRecord(r) && r.status == Published
    ensures RecordKey(r) in view.Desired()
  {
    assert CandidateKey(c) in KeysOf(view.files, view.records, c);
  }

  lemma NothingSuperfluous(view: View, files: Files, ledger: seq<Record>, base: nat, nextId: nat, r: Record)
    requires Coherent(view) && Materialized(view.candidates)
    requires ValidLedger(view.records, base) && ValidLedger(ledger, nextId) && Finished(view, files, ledger)
    ensures !View(files, ledger, view.volumes, view.candidates).Superfluous(r)
  {
    var again := View(files, ledger, view.volumes, view.candidates);
    if r in ledger && r.status == Published && RecordKey(r) !in again.Desired() {
      var i :| 0 <= i < |ledger| && ledger[i] == r;
      RowAfter(view, files, ledger, i);
      hide Coherent, Reached, View.Desired;
      if c :| c in view.candidates && IsRow(r, c) {
        assert ValidRecord(ledger[i]);
        OwnRowIsDesired(again, r, c);
      } else if RecordKey(r) in view.Desired() {
        KeptStaysKept(view, files, ledger, base, r);
      }
    }
  }

  /** A record some candidate keeps is kept again. */
  lemma KeptStaysKept(view: View, files: Files, ledger: seq<Record>, base: nat, r: Record)
    requires Coherent(view) && Materialized(view.candidates) && ValidLedger(view.records, base)
    requires Finished(view, files, ledger) && RecordKey(r) in view.Desired()
    ensures RecordKey(r) in View(files, ledger, view.volumes, view.candidates).Desired()
  {
    var c :| c in view.candidates && RecordKey(r) in KeysOf(view.files, view.records, c);
    SettledIsUnchanged(view, files, ledger, base, c);
    if view.Action(c) == Unchanged {
      KeepsFirstExact(view, files, ledger, base, c);
    }
    assert RecordKey(r) in KeysOf(files, ledger, c);
  }

  /* ---- Files nobody accounts for, over many runs ---- */

  datatype Library = Library(files: Files, ledger: seq<Record>)

  ghost predicate Runs(states: seq<Library>, outputs: seq<set<(Path, Hash)>>) {
    && |states| == |outputs| + 1
    && forall k :: 0 <= k < |outputs| ==>
         Spares(states[k].files, states[k].ledger, outputs[k], states[k + 1].files, states[k + 1].ledger)
  }

  /** A file no record and no candidate ever accounts for survives any number of runs and crashes. */
  lemma {:induction false} ForeignFileSurvives(states: seq<Library>, outputs: seq<set<(Path, Hash)>>, path: Path,
          k: nat)
    requires Runs(states, outputs) && k < |states|
    requires path in states[0].files && (path, states[0].files[path]) !in Owns(states[0].ledger)
    requires forall j :: 0 <= j < |outputs| ==> (path, states[0].files[path]) !in outputs[j]
    ensures SameAt(states[0].files, states[k].files, path)
    ensures (path, states[0].files[path]) !in Owns(states[k].ledger)
  {
    hide Owns;
    if k == 0 {
    } else {
      ForeignFileSurvives(states, outputs, path, k - 1);
      assert Spares(states[k - 1].files, states[k - 1].ledger, outputs[k - 1], states[k].files, states[k].ledger);
    }
  }

  /* ---- Interrupted and run again ---- */

  lemma DesiredIsOccupied(view: View)
    ensures forall key :: key in view.Desired() ==> Occupied(view, key.ref)
  {
    forall key | key in view.Desired()
      ensures Occupied(view, key.ref)
    {
      var c :| c in view.candidates && key in KeysOf(view.files, view.records, c);
      assert c.Ref() == key.ref;
    }
  }

  /** Away from the candidates' paths, only coverage decides what is superfluous. */
  lemma FreeSuperfluous(view: View, r: Record)
    requires !Occupied(view, r.ref)
    ensures view.Superfluous(r) <==>
            r in view.records && r.status == Published && Complete(view.volumes, r, view.Coverage())
  {
    DesiredIsOccupied(view);
    assert RecordKey(r).ref == r.ref;
  }

  ghost predicate RetiredAt(view: View, path: Path) {
    exists r :: view.Superfluous(r) && r.ref == path
  }

  /** A finished run removes exactly the superfluous files, away from the candidates' paths. */
  lemma FinishedFreePath(view: View, files: Files, ledger: seq<Record>, path: Path)
    requires Finished(view, files, ledger) && !Occupied(view, path)
    ensures if RetiredAt(view, path) then path !in files else SameAt(view.files, files, path)
  {
    assert FreePathEvolves(view, files, path);
    if r :| view.Superfluous(r) && r.ref == path {
      var i :| 0 <= i < |view.records| && view.records[i] == r;
      assert RowEvolves(view, files, view.records[i], ledger[i]);
    }
  }

  /** What an interrupted run leaves at a free path, the rerun treats as the first plan would have. */
  lemma InterruptedFreePath(view: View, files: Files, ledger: seq<Record>, path: Path)
    requires Reached(view, files, ledger) && !Occupied(view, path)
    ensures var rerun := View(files, ledger, view.volumes, view.candidates);
            if path in files then SameAt(view.files, files, path) && (RetiredAt(rerun, path) <==> RetiredAt(view, path))
            else path in view.files ==> RetiredAt(view, path)
  {
    var rerun := View(files, ledger, view.volumes, view.candidates);
    assert !Occupied(rerun, path);
    assert FreePathEvolves(view, files, path);
    if path in files {
      if r :| view.Superfluous(r) && r.ref == path {
        FreeSuperfluous(view, r);
        var i :| 0 <= i < |view.records| && view.records[i] == r;
        assert RowEvolves(view, files, view.records[i], ledger[i]);
        FreeSuperfluous(rerun, r);
        assert rerun.Superfluous(r);
      }
      if r :| rerun.Superfluous(r) && r.ref == path {
        FreeSuperfluous(rerun, r);
        var i :| 0 <= i < |ledger| && ledger[i] == r;
        RowAfter(view, files, ledger, i);
        FreeSuperfluous(view, r);
        assert view.Superfluous(r);
      }
    }
  }

  /** How the files end, seen from a plan: every candidate in place, the superfluous gone, the rest as it was. */
  ghost predicate Ends(view: View, files: Files) {
    && AllIntact(view, files)
    && forall path :: !Occupied(view, path) ==> if RetiredAt(view, path) then path !in files else SameAt(view.files, files, path)
  }

  lemma FinishedEnds(view: View, files: Files, ledger: seq<Record>)
    requires Finished(view, files, ledger)
    ensures Ends(view, files)
  {
    forall c | c in view.candidates
      ensures Intact(files, c)
    {
      assert Settled(view, files, ledger, c);
    }
    forall path | !Occupied(view, path)
      ensures if RetiredAt(view, path) then path !in files else SameAt(view.files, files, path)
    {
      FinishedFreePath(view, files, ledger, path);
    }
  }

  /** What ends as the rerun wants it ends as the interrupted plan wanted it. */
  lemma EndsBefore(view: View, files1: Files, ledger1: seq<Record>, files: Files)
    requires Reached(view, files1, ledger1) && Ends(View(files1, ledger1, view.volumes, view.candidates), files)
    ensures Ends(view, files)
  {
    var rerun := View(files1, ledger1, view.volumes, view.candidates);
    forall path | !Occupied(view, path)
      ensures if RetiredAt(view, path) then path !in files else SameAt(view.files, files, path)
    {
      assert !Occupied(rerun, path);
      InterruptedFreePath(view, files1, ledger1, path);
    }
    assert forall c :: c in view.candidates ==> c in rerun.candidates;
  }

  lemma EndsAreOne(view: View, a: Files, b: Files)
    requires Ends(view, a) && Ends(view, b)
    ensures a == b
  {
    forall path
      ensures SameAt(a, b, path)
    {
      if Occupied(view, path) {
        var c :| c in view.candidates && c.Ref() == path;
        assert Intact(a, c) && Intact(b, c);
      }
    }
    SameFiles(a, b);
  }

  /** Runs of the same candidates, each interrupted where the next one starts. */
  ghost predicate Interrupted(view: View, stops: seq<Library>)
    decreases |stops|
  {
    stops == [] ||
    (&& Reached(view, stops[0].files, stops[0].ledger)
     && Interrupted(View(stops[0].files, stops[0].ledger, view.volumes, view.candidates), stops[1..]))
  }

  /** The plan of the last run. */
  ghost function LastView(view: View, stops: seq<Library>): View
    decreases |stops|
  {
    if stops == [] then view
    else LastView(View(stops[0].files, stops[0].ledger, view.volumes, view.candidates), stops[1..])
  }

  lemma {:induction false} InterruptedEnds(view: View, stops: seq<Library>, files: Files)
    requires Interrupted(view, stops) && Ends(LastView(view, stops), files)
    ensures Ends(view, files)
    decreases |stops|
  {
    hide Ends, Reached;
    if stops == [] {
    } else {
      InterruptedEnds(View(stops[0].files, stops[0].ledger, view.volumes, view.candidates), stops[1..], files);
      EndsBefore(view, stops[0].files, stops[0].ledger, files);
    }
  }

  /** Interrupted any number of times and then finished, or finished at once: the files end up the same. */
  lemma InterruptionsConverge(view: View, stops: seq<Library>, files2: Files, ledger2: seq<Record>, files: Files, ledger: seq<Record>)
    requires Interrupted(view, stops) && Finished(LastView(view, stops), files2, ledger2)
    requires Finished(view, files, ledger)
    ensures files2 == files
  {
    hide Interrupted, LastView, Finished, Ends;
    FinishedEnds(LastView(view, stops), files2, ledger2);
    InterruptedEnds(view, stops, files2);
    FinishedEnds(view, files, ledger);
    EndsAreOne(view, files2, files);
  }

  lemma SameFiles(a: Files, b: Files)
    requires forall path :: SameAt(a, b, path)
    ensures a == b
  {
    assert forall path :: path in a <==> path in b by {
      forall path
        ensures path in a <==> path in b
      {
        assert SameAt(a, b, path);
      }
    }
    forall path | path in a
      ensures a[path] == b[path]
    {
      assert SameAt(a, b, path);
    }
  }
}
