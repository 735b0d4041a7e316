/**
 * Running again after an interruption: exactly when every place a run can stop leaves a library whose
 * next plan for the same candidates is not blocked.
 */
module Resumption {
  import opened Common
  import opened Ledger
  import opened Planner
  import opened Delivery
  import opened Execution
  import opened Schedules
  import opened DeliverySafety
  import R = Reorder

  /** The plan for the same candidates against the library a run left behind. */
  ghost function Rerun(view: View, files: Files, ledger: seq<Record>): View {
    View(files, ledger, view.volumes, view.candidates)
  }

  /** Records are joined with their artifacts: one artifact id is one artifact. */
  ghost predicate Joined(records: seq<Record>) {
    forall r, s :: r in records && s in records && r.artifact.id == s.artifact.id ==> r.artifact == s.artifact
  }

  /** `s` lets the bytes of `c` count as owned when `r` is retired: same single release, same path. */
  predicate Vouches(view: View, c: Candidate, r: Record, s: Record) {
    && s in view.records && s.status == Published && r.release != "" && s.release == r.release
    && s.ref == r.ref && s.artifact.sha == c.artifact.sha
  }

  /** While `c` is written but not yet recorded, its own row vouches for nothing. */
  ghost predicate SafeWhileWritten(view: View, c: Candidate, r: Record) {
    c.artifact.sha == r.artifact.sha || exists s :: Vouches(view, c, r, s) && s.artifact.id != c.artifact.id
  }

  /** While old records are superseded one by one, only those that stay can be relied on. */
  ghost predicate SafeWhileCleaned(view: View, c: Candidate, r: Record) {
    || c.artifact.sha == r.artifact.sha
    || (Delivers(view, c) && r.release != "" && c.release == r.release)
    || exists s :: Vouches(view, c, r, s) && !view.Superfluous(s)
  }

  /** No record to retire shares its path with a candidate whose bytes it may come to disown. */
  ghost predicate Resumable(view: View) {
    forall c, r :: c in view.candidates && view.Superfluous(r) && r.ref == c.Ref() ==>
      (Delivers(view, c) ==> SafeWhileWritten(view, c, r)) && SafeWhileCleaned(view, c, r)
  }

  /* ---- The order never stands in the way ---- */

  /** A record of the later ledger that some candidate overwrites was overwritten before. */
  lemma StillOverwrites(view: View, files: Files, ledger: seq<Record>, c: Candidate, r: Record)
    requires Coherent(view) && Reached(view, files, ledger) && c in view.candidates && r in ledger && R.Overwrites(c, r)
    ensures r in view.records
  {
    var i :| 0 <= i < |ledger| && ledger[i] == r;
    RowAfter(view, files, ledger, i);
    if other :| other in view.candidates && IsRow(r, other) {
      CandidateAt(view, c, other);
    }
  }

  lemma RerunOrderable(view: View, files: Files, ledger: seq<Record>)
    requires Coherent(view) && view.Orderable() && Reached(view, files, ledger)
    ensures Rerun(view, files, ledger).Orderable()
  {
    var rerun := Rerun(view, files, ledger);
    RerunCovers(view, files, ledger);
    forall a, b | R.Edge(rerun.Graph(), a, b)
      ensures R.Edge(view.Graph(), a, b)
    {
      RerunEdge(view, files, ledger, a, b);
    }
    hide Reached, Coherent, R.AllCovered;
    forall path | R.IsCycle(rerun.Graph(), path)
      ensures R.IsCycle(view.Graph(), path)
    {
    }
  }

  lemma RerunCovers(view: View, files: Files, ledger: seq<Record>)
    requires Coherent(view) && R.AllCovered(view.candidates, view.records, view.volumes) && Reached(view, files, ledger)
    ensures R.AllCovered(view.candidates, ledger, view.volumes)
  {
    hide Reached, Coherent, R.Misses;
    forall c, prior, m | R.Misses(view.candidates, ledger, view.volumes, c, prior, m)
      ensures R.Misses(view.candidates, view.records, view.volumes, c, prior, m)
    {
      MissedBefore(view, files, ledger, c, prior, m);
    }
    forall c | c in view.candidates
      ensures R.Covered(view.candidates, ledger, view.volumes, c)
    {
      assert R.Covered(view.candidates, view.records, view.volumes, c);
    }
  }

  lemma MissedBefore(view: View, files: Files, ledger: seq<Record>, c: Candidate, prior: Record, m: Id)
    requires Coherent(view) && Reached(view, files, ledger) && R.Misses(view.candidates, ledger, view.volumes, c, prior, m)
    ensures R.Misses(view.candidates, view.records, view.volumes, c, prior, m)
  {
    StillOverwrites(view, files, ledger, c, prior);
  }

  lemma RerunEdge(view: View, files: Files, ledger: seq<Record>, a: Id, b: Id)
    requires Coherent(view) && Reached(view, files, ledger)
    requires R.Edge(Rerun(view, files, ledger).Graph(), a, b)
    ensures R.Edge(view.Graph(), a, b)
  {
    hide Reached, Coherent, R.Carries;
    var c :| c in view.candidates && c.artifact.id == a && R.Awaits(view.candidates, ledger, view.volumes, c, b);
    var prior :| prior in ledger && R.Overwrites(c, prior) &&
      R.Carries(view.candidates, R.EditionMembers(view.volumes, prior.artifact.id), c, b);
    StillOverwrites(view, files, ledger, c, prior);
    assert R.Awaits(view.candidates, view.records, view.volumes, c, b);
    assert R.IdAwaits(view.candidates, view.records, view.volumes, a, b);
  }

  /* ---- No candidate comes to be blocked ---- */

  lemma RerunIdentifies(view: View, files: Files, ledger: seq<Record>, base: nat, c: Candidate)
    requires Coherent(view) && ValidLedger(view.records, base)
    requires Reached(view, files, ledger) && c in view.candidates && Identified(view.files, view.records, c)
    ensures Identified(files, ledger, c)
  {
    if Cleaning(view, ledger) {
      SettledIsIdentified(view, files, ledger, base, c);
    } else {
      WorkingIdentifies(view, files, ledger, c);
    }
  }

  lemma SettledIsIdentified(view: View, files: Files, ledger: seq<Record>, base: nat, c: Candidate)
    requires Coherent(view) && ValidLedger(view.records, base)
    requires Reached(view, files, ledger) && c in view.candidates && Settled(view, files, ledger, c)
    ensures Identified(files, ledger, c)
  {
    hide Reached, Coherent, ValidLedger, ActionFor;
    if view.Action(c) == Unchanged {
      KeepsFirstExact(view, files, ledger, base, c);
      var k := FirstExact(view.records, c);
      assert ledger[k] in ledger && ledger[k].Live();
    } else {
      var i :| 0 <= i < |ledger| && IsRow(ledger[i], c) && ledger[i].status == Published;
      assert ledger[i] in ledger && ledger[i].Live();
    }
  }

  lemma WorkingIdentifies(view: View, files: Files, ledger: seq<Record>, c: Candidate)
    requires Reached(view, files, ledger) && !Cleaning(view, ledger)
    requires c in view.candidates && Identified(view.files, view.records, c)
    ensures Identified(files, ledger, c)
  {
    hide View.Superfluous, Startable, Gated, EverySettled, ActionFor;
    assert CandidatePathEvolves(view, files, ledger, c);
    if SameAt(view.files, files, c.Ref()) {
      if c.Ref() in files {
        var r :| r in view.records && r.ref == c.Ref() && r.Live() && r.artifact.sha == files[c.Ref()];
        var i :| 0 <= i < |view.records| && view.records[i] == r;
        assert RowEvolves(view, files, r, ledger[i]);
        assert !Superseding(r, ledger[i]);
        assert ledger[i] in ledger;
      }
    } else {
      var i :| 0 <= i < |ledger| && IsRow(ledger[i], c) && ledger[i].Live();
      assert ledger[i] in ledger;
    }
  }

  /* ---- No retirement comes to be blocked ---- */

  /** What the rerun would retire, the plan would have retired, and the record is as it was. */
  lemma StillSuperfluous(view: View, files: Files, ledger: seq<Record>, base: nat, nextId: nat, r: Record)
    requires Coherent(view) && ValidLedger(view.records, base) && ValidLedger(ledger, nextId) && Reached(view, files, ledger)
    requires view.Unblocked() && Rerun(view, files, ledger).Superfluous(r)
    ensures view.Superfluous(r)
  {
    var rerun := Rerun(view, files, ledger);
    var i :| 0 <= i < |ledger| && ledger[i] == r;
    RowAfter(view, files, ledger, i);
    assert ValidRecord(r);
    if c :| c in view.candidates && IsRow(r, c) {
      OwnRowIsDesired(rerun, r, c);
    }
    if RecordKey(r) in view.Desired() {
      DesiredAgain(view, files, ledger, base, RecordKey(r));
    }
    SameCoverage(view, rerun);
  }

  lemma SameCoverage(a: View, b: View)
    requires a.candidates == b.candidates
    ensures a.Coverage() == b.Coverage()
  {
  }

  /** A key the plan keeps is kept by the rerun. */
  lemma DesiredAgain(view: View, files: Files, ledger: seq<Record>, base: nat, key: Key)
    requires Coherent(view) && ValidLedger(view.records, base) && Reached(view, files, ledger) && view.Unblocked()
    requires key in view.Desired()
    ensures key in Rerun(view, files, ledger).Desired()
  {
    var c :| c in view.candidates && key in KeysOf(view.files, view.records, c);
    if view.Action(c) == Unchanged {
      KeepsFirstExact(view, files, ledger, base, c);
      RerunIdentifies(view, files, ledger, base, c);
      StillIntact(view, files, ledger, c);
    }
    hide Coherent, ValidLedger, Reached, View.Unblocked, Settled, FirstExact;
    assert key in KeysOf(files, ledger, c);
  }

  /** A row at a candidate's path: untouched, the candidate's own, or superseded in the clean-up. */
  lemma RowAtPath(view: View, files: Files, ledger: seq<Record>, c: Candidate, j: nat)
    requires Coherent(view) && Reached(view, files, ledger) && c in view.candidates && j < |view.records|
    requires view.records[j].ref == c.Ref()
    ensures j < |ledger|
    ensures || ledger[j] == view.records[j]
            || (Delivers(view, c) && IsRow(view.records[j], c) && IsRow(ledger[j], c) && ledger[j].Live())
            || (view.Superfluous(view.records[j]) && Cleaning(view, ledger) && ledger[j].status == Superseded)
  {
    hide View.Superfluous, EverySettled, CandidatePathEvolves, FreePathEvolves, ActionFor;
    assert RowEvolves(view, files, view.records[j], ledger[j]);
    if other :| Delivers(view, other) && IsRow(view.records[j], other) && IsRow(ledger[j], other) && ledger[j].Live() {
      CandidateAt(view, c, other);
    } else if ledger[j] != view.records[j] {
      RetiresIsPublished(view, view.records[j]);
      assert Superseding(view.records[j], ledger[j]);
    }
  }

  /** The one row of a delivered candidate. */
  lemma OneRow(ledger: seq<Record>, nextId: nat, c: Candidate, status: Status, j: nat)
    requires ValidLedger(ledger, nextId) && HasRow(ledger, c, status) && j < |ledger|
    requires ledger[j].artifact.id == c.artifact.id && ledger[j].ref == c.Ref() && ledger[j].artifact.sha == c.artifact.sha
    ensures ledger[j].status == status && IsRow(ledger[j], c)
  {
    var k :| 0 <= k < |ledger| && IsRow(ledger[k], c) && ledger[k].status == status;
    assert ValidRecord(ledger[j]) && ValidRecord(ledger[k]);
    assert SameRow(ledger[j], ledger[k]) && SameRow(ledger[k], ledger[j]);
  }

  lemma OwnsBytes(ledger: seq<Record>, r: Record, s: Record)
    requires s in ledger && s.status == Published && r.release != "" && s.release == r.release && s.ref == r.ref
    ensures s.artifact.sha in RetirementOwned(ledger, r)
  {
  }

  /** In the clean-up, every candidate is in place. */
  lemma CleanedOwns(view: View, files: Files, ledger: seq<Record>, nextId: nat, c: Candidate, r: Record)
    requires Coherent(view) && ValidLedger(ledger, nextId) && Reached(view, files, ledger) && EverySettled(view, files, ledger)
    requires c in view.candidates && r.ref == c.Ref() && SafeWhileCleaned(view, c, r)
    ensures c.artifact.sha in RetirementOwned(ledger, r)
  {
    hide View.Superfluous, Reached, EverySettled, Coherent, ValidLedger, ActionFor;
    assert Settled(view, files, ledger, c) by {
      EverySettledHas(view, files, ledger, c);
    }
    if c.artifact.sha == r.artifact.sha {
    } else if Delivers(view, c) && r.release != "" && c.release == r.release {
      var k :| 0 <= k < |ledger| && IsRow(ledger[k], c) && ledger[k].status == Published;
      OwnsBytes(ledger, r, ledger[k]);
    } else {
      var s :| Vouches(view, c, r, s) && !view.Superfluous(s);
      var j: nat :| j < |view.records| && view.records[j] == s;
      RowAtPath(view, files, ledger, c, j);
      if ledger[j] != s {
        OneRow(ledger, nextId, c, Published, j);
      }
      OwnsBytes(ledger, r, ledger[j]);
    }
  }

  lemma EverySettledHas(view: View, files: Files, ledger: seq<Record>, c: Candidate)
    requires EverySettled(view, files, ledger) && c in view.candidates
    ensures Settled(view, files, ledger, c)
  {
  }

  /** Before the clean-up, a candidate's bytes are owned by a record that is not its own. */
  lemma WrittenOwns(view: View, files: Files, ledger: seq<Record>, c: Candidate, r: Record)
    requires Coherent(view) && Reached(view, files, ledger) && !Cleaning(view, ledger)
    requires c in view.candidates && r.ref == c.Ref() && SafeWhileWritten(view, c, r)
    ensures c.artifact.sha in RetirementOwned(ledger, r)
  {
    hide View.Superfluous, Reached, Coherent, ActionFor;
    if c.artifact.sha != r.artifact.sha {
      var s :| Vouches(view, c, r, s) && s.artifact.id != c.artifact.id;
      var j :| 0 <= j < |view.records| && view.records[j] == s;
      RowAtPath(view, files, ledger, c, j);
      OwnsBytes(ledger, r, ledger[j]);
    }
  }

  /** Bytes that were there from the start keep their owner, unless they are the candidate's own. */
  lemma OldBytesOwned(view: View, files: Files, ledger: seq<Record>, c: Candidate, r: Record, h: Hash)
    requires Coherent(view) && Reached(view, files, ledger) && !Cleaning(view, ledger)
    requires c in view.candidates && r.ref == c.Ref() && h in RetirementOwned(view.records, r)
    requires Delivers(view, c) ==> h != c.artifact.sha
    ensures h in RetirementOwned(ledger, r)
  {
    hide View.Superfluous, Reached, Coherent, ActionFor;
    if h != r.artifact.sha {
      var s :| s in view.records && r.release != "" && s.status == Published && s.release == r.release && s.ref == r.ref &&
        s.artifact.sha == h;
      var j :| 0 <= j < |view.records| && view.records[j] == s;
      RowAtPath(view, files, ledger, c, j);
      OwnsBytes(ledger, r, ledger[j]);
    }
  }

  lemma RerunRetires(view: View, files: Files, ledger: seq<Record>, base: nat, nextId: nat, r: Record)
    requires Coherent(view) && ValidLedger(view.records, base) && ValidLedger(ledger, nextId) && Reached(view, files, ledger)
    requires view.Unblocked() && Resumable(view) && Rerun(view, files, ledger).Superfluous(r)
    ensures Retirable(files, ledger, r)
  {
    StillSuperfluous(view, files, ledger, base, nextId, r);
    hide View.Superfluous, ValidLedger, Coherent, RetirementOwned;
    if r.ref in files {
      if Occupied(view, r.ref) {
        var c :| c in view.candidates && c.Ref() == r.ref;
        OccupiedIsOwned(view, files, ledger, nextId, c, r);
      } else {
        FreeIsOwned(view, files, ledger, r);
      }
    }
  }

  lemma FreeIsOwned(view: View, files: Files, ledger: seq<Record>, r: Record)
    requires Reached(view, files, ledger) && Retirable(view.files, view.records, r)
    requires !Occupied(view, r.ref) && r.ref in files
    ensures files[r.ref] in RetirementOwned(ledger, r)
  {
    hide View.Superfluous, LedgerEvolves;
    assert FreePathEvolves(view, files, r.ref);
    OwnersSurvive(view, files, ledger, r);
  }

  /** At a free path whose file is still there, no owner has been superseded. */
  lemma OwnersSurvive(view: View, files: Files, ledger: seq<Record>, r: Record)
    requires Reached(view, files, ledger) && !Occupied(view, r.ref) && r.ref in files
    ensures RetirementOwned(view.records, r) <= RetirementOwned(ledger, r)
  {
    hide View.Superfluous, EverySettled, CandidatePathEvolves, FreePathEvolves, ActionFor;
    forall h | h in RetirementOwned(view.records, r) && h != r.artifact.sha
      ensures h in RetirementOwned(ledger, r)
    {
      var s :| s in view.records && r.release != "" && s.status == Published && s.release == r.release && s.ref == r.ref
        && s.artifact.sha == h;
      var i :| 0 <= i < |view.records| && view.records[i] == s;
      assert RowEvolves(view, files, s, ledger[i]);
      assert s in ledger;
    }
  }

  lemma OccupiedIsOwned(view: View, files: Files, ledger: seq<Record>, nextId: nat, c: Candidate, r: Record)
    requires Coherent(view) && ValidLedger(ledger, nextId) && Reached(view, files, ledger)
    requires c in view.candidates && r.ref == c.Ref() && r.ref in files && Retirable(view.files, view.records, r)
    requires (Delivers(view, c) ==> SafeWhileWritten(view, c, r)) && SafeWhileCleaned(view, c, r)
    ensures files[r.ref] in RetirementOwned(ledger, r)
  {
    FileThere(view, files, ledger, c);
    hide View.Superfluous, Reached, Coherent, ValidLedger, RetirementOwned, SafeWhileWritten, SafeWhileCleaned, ActionFor;
    if Cleaning(view, ledger) {
      CleanedOwns(view, files, ledger, nextId, c, r);
    } else if Delivers(view, c) && files[r.ref] == c.artifact.sha {
      WrittenOwns(view, files, ledger, c, r);
    } else {
      OldBytesOwned(view, files, ledger, c, r, files[r.ref]);
    }
  }

  /** What is at a candidate's path: what was there, or the bytes of a candidate in delivery. */
  lemma FileThere(view: View, files: Files, ledger: seq<Record>, c: Candidate)
    requires Reached(view, files, ledger) && c in view.candidates
    ensures SameAt(view.files, files, c.Ref()) || (Intact(files, c) && Delivers(view, c))
    ensures Cleaning(view, ledger) ==> EverySettled(view, files, ledger) && Intact(files, c)
  {
    assert CandidatePathEvolves(view, files, ledger, c);
    if Cleaning(view, ledger) {
      EverySettledHas(view, files, ledger, c);
    }
  }

  /** A resumable plan can be run again from wherever a run of it may have stopped. */
  lemma ResumableMeansUnblocked(view: View, files: Files, ledger: seq<Record>, base: nat, nextId: nat)
    requires Coherent(view) && ValidLedger(view.records, base) && ValidLedger(ledger, nextId) && Reached(view, files, ledger)
    requires view.Unblocked() && Resumable(view)
    ensures Rerun(view, files, ledger).Unblocked()
  {
    hide View.Superfluous, Reached, Coherent, ValidLedger, Resumable, Identified, Retirable;
    var rerun := Rerun(view, files, ledger);
    forall c | c in view.candidates
      ensures Identified(files, ledger, c)
    {
      RerunIdentifies(view, files, ledger, base, c);
    }
    forall r | rerun.Superfluous(r)
      ensures Retirable(files, ledger, r)
    {
      RerunRetires(view, files, ledger, base, nextId, r);
    }
  }

  /** No candidate takes the path of a published record of another artifact. */
  ghost predicate NoReuse(view: View) {
    forall c, r :: c in view.candidates && r in view.records && r.status == Published && r.ref == c.Ref() ==>
      r.artifact.id == c.artifact.id
  }

  /** Without path reuse an interruption never blocks the rerun, wherever it struck. */
  lemma InterruptionNeverBlocks(view: View, files: Files, ledger: seq<Record>, base: nat, nextId: nat)
    requires Coherent(view) && ValidLedger(view.records, base) && ValidLedger(ledger, nextId)
    requires view.Orderable() && view.Unblocked() && NoReuse(view) && Reached(view, files, ledger)
    ensures Rerun(view, files, ledger).Unblocked() && Rerun(view, files, ledger).Orderable()
  {
    NoReuseIsResumable(view);
    hide Reached, Coherent, ValidLedger, Resumable, View.Orderable;
    ResumableMeansUnblocked(view, files, ledger, base, nextId);
    RerunOrderable(view, files, ledger);
  }

  lemma NoReuseIsResumable(view: View)
    requires Coherent(view) && NoReuse(view)
    ensures Resumable(view)
  {
    forall c, r | c in view.candidates && view.Superfluous(r) && r.ref == c.Ref()
      ensures c.artifact.sha == r.artifact.sha
    {
      RetiresIsPublished(view, r);
    }
  }

  /* ---- Where a plan that is not resumable gets stuck ---- */

  /** A row at a candidate's path afterwards: an old one, the candidate's own, or a superseded one. */
  lemma RowAtCandidate(view: View, files: Files, ledger: seq<Record>, c: Candidate, j: nat)
    requires Coherent(view) && Reached(view, files, ledger) && c in view.candidates
    requires j < |ledger| && ledger[j].ref == c.Ref()
    ensures || (j < |view.records| && ledger[j] == view.records[j])
            || (Delivers(view, c) && Startable(view, c) && IsRow(ledger[j], c))
            || ledger[j].status == Superseded
  {
    hide View.Superfluous, EverySettled, CandidatePathEvolves, FreePathEvolves, ActionFor;
    if j < |view.records| {
      assert RowEvolves(view, files, view.records[j], ledger[j]);
    } else {
      assert NewRow(view, ledger[j]);
    }
    if other :| Delivers(view, other) && Startable(view, other) && IsRow(ledger[j], other) {
      CandidateAt(view, c, other);
    }
  }

  /** A record to retire stays up for retirement until it is superseded. */
  lemma StaysSuperfluous(view: View, files: Files, ledger: seq<Record>, c: Candidate, r: Record)
    requires Coherent(view) && Joined(view.records) && Reached(view, files, ledger)
    requires c in view.candidates && view.Superfluous(r) && r.ref == c.Ref() && r.artifact.sha != c.artifact.sha && r in ledger
    ensures Rerun(view, files, ledger).Superfluous(r)
  {
    var rerun := Rerun(view, files, ledger);
    SameCoverage(view, rerun);
    RetiresIsPublished(view, r);
    assert RecordKey(r) !in KeysOf(files, ledger, c) by {
      NotKept(view, files, ledger, c, r);
    }
    hide Reached, Joined, View.Desired, View.Coverage, KeysOf, Complete;
    if RecordKey(r) in rerun.Desired() {
      DesiredThere(rerun, RecordKey(r), c);
    }
  }

  /** Only the candidate at a key's path can desire it. */
  lemma DesiredThere(view: View, key: Key, c: Candidate)
    requires R.DistinctIds(view.candidates) && DistinctRefs(view.candidates)
    requires key in view.Desired() && c in view.candidates && c.Ref() == key.ref
    ensures key in KeysOf(view.files, view.records, c)
  {
    var other :| other in view.candidates && key in KeysOf(view.files, view.records, other);
    assert other.Ref() == key.ref;
    assert other == c;
  }

  lemma NotKept(view: View, files: Files, ledger: seq<Record>, c: Candidate, r: Record)
    requires Coherent(view) && Joined(view.records) && Reached(view, files, ledger)
    requires c in view.candidates && view.Superfluous(r) && r.ref == c.Ref() && r.artifact.sha != c.artifact.sha
    ensures RecordKey(r) !in KeysOf(files, ledger, c)
  {
    hide Reached, Complete;
    assert CandidateKey(c) in KeysOf(view.files, view.records, c);
    assert CandidateKey(c) in view.Desired();
    var k := FirstExact(ledger, c);
    if k < |ledger| {
      RowAtCandidate(view, files, ledger, c, k);
      assert k < |view.records| && ledger[k] == view.records[k] ==> ledger[k] in view.records;
      assert ledger[k].artifact.id != r.artifact.id;
    }
  }

  lemma RecordStays(view: View, files: Files, ledger: seq<Record>, base: nat, i: nat)
    requires Coherent(view) && ValidLedger(view.records, base) && Reached(view, files, ledger) && !Cleaning(view, ledger)
    requires i < |view.records| && view.Retires(view.records[i])
    ensures i < |ledger| && ledger[i] == view.records[i]
  {
    hide View.Retires, EverySettled, CandidatePathEvolves, FreePathEvolves;
    RetiredRow(view, files, ledger, base, i);
    assert view.records[i].status == Published by {
      assert view.Superfluous(view.records[i]) by {
        RetiresSuperfluous(view, view.records[i]);
      }
      RetiresIsPublished(view, view.records[i]);
    }
    assert !Superseding(view.records[i], ledger[i]);
  }

  lemma RetiresSuperfluous(view: View, r: Record)
    requires view.Retires(r)
    ensures view.Superfluous(r)
  {
  }

  lemma NothingStuck(view: View, c: Candidate)
    requires view.Unblocked() && c in view.candidates
    ensures !Stuck(view, c)
  {
    hide View.Superfluous, Retirable, Identified;
    forall r | view.Superfluous(r)
      ensures Retirable(view.files, view.records, r)
    {
      RetiresIsPublished(view, r);
    }
  }

  lemma UnblockedStarts(view: View, c: Candidate)
    requires view.Unblocked() && c in view.candidates
    ensures Startable(view, c)
  {
    hide Stuck, View.Unblocked, Needs;
    forall other | other in view.candidates
      ensures !Stuck(view, other)
    {
      NothingStuck(view, other);
    }
  }

  /** Stopped right after the rename, only the candidate's own row could vouch for its bytes, and it is not published. */
  lemma WrittenIsDisowned(job: Job, base: nat, c: Candidate, r: Record) returns (s: Site)
    requires Sound(job, base) && Joined(job.view.records) && job.view.Unblocked()
    requires Delivers(job.view, c) && job.view.Superfluous(r) && r.ref == c.Ref() && !SafeWhileWritten(job.view, c, r)
    ensures Stops(job, base, s)
    ensures Rerun(job.view, s.files, s.ledger).Superfluous(r) && !Retirable(s.files, s.ledger, r)
  {
    hide Stops, Progress, StageKept, PhaseKept, IsPlan, Startable, Coherent, Reached, View.Superfluous, View.Unblocked, Cleaning,
         ValidLedger, Joined, Intact, HasRow, SafeWhileWritten, Retirable, ActionFor, SameAt, ArtifactsAgree;
    UnblockedStarts(job.view, c);
    s := CanReplace(job, base, c);
    Disowned(job.view, s.files, s.ledger, base, s.nextId, c, r);
  }

  lemma Disowned(view: View, files: Files, ledger: seq<Record>, base: nat, nextId: nat, c: Candidate, r: Record)
    requires Coherent(view) && ValidLedger(view.records, base) && ValidLedger(ledger, nextId) && Joined(view.records)
    requires Reached(view, files, ledger) && view.Unblocked() && !Cleaning(view, ledger)
    requires Delivers(view, c) && view.Superfluous(r) && r.ref == c.Ref() && !SafeWhileWritten(view, c, r)
    requires Intact(files, c) && HasRow(ledger, c, Publishing)
    ensures Rerun(view, files, ledger).Superfluous(r) && !Retirable(files, ledger, r)
  {
    hide ActionFor, Coherent, Reached, View.Superfluous, View.Unblocked, Cleaning, ValidLedger, Joined, HasRow;
    SuperfluousStays(view, files, ledger, base, r);
    StaysSuperfluous(view, files, ledger, c, r);
    forall t | t in ledger && t.status == Published && r.release != "" && t.release == r.release && t.ref == r.ref
      ensures t.artifact.sha != c.artifact.sha
    {
      var j: nat :| j < |ledger| && ledger[j] == t;
      PublishedIsOther(view, files, ledger, nextId, c, r, j);
    }
  }

  lemma SuperfluousStays(view: View, files: Files, ledger: seq<Record>, base: nat, r: Record)
    requires Coherent(view) && ValidLedger(view.records, base) && Reached(view, files, ledger)
    requires view.Unblocked() && view.Superfluous(r) && !Cleaning(view, ledger)
    ensures r in ledger
  {
    RetiresIsPublished(view, r);
    var i :| 0 <= i < |view.records| && view.records[i] == r;
    hide View.Superfluous, Cleaning, Reached, Retirable, Coherent, ValidLedger;
    RecordStays(view, files, ledger, base, i);
  }

  lemma PublishedIsOther(view: View, files: Files, ledger: seq<Record>, nextId: nat, c: Candidate, r: Record, j: nat)
    requires Coherent(view) && ValidLedger(ledger, nextId) && Reached(view, files, ledger)
    requires c in view.candidates && r.ref == c.Ref() && !SafeWhileWritten(view, c, r) && HasRow(ledger, c, Publishing)
    requires j < |ledger| && ledger[j].status == Published && r.release != "" && ledger[j].release == r.release && ledger[j].ref == r.ref
    ensures ledger[j].artifact.sha != c.artifact.sha
  {
    hide Reached, Coherent, ActionFor, ValidLedger;
    RowAtCandidate(view, files, ledger, c, j);
    if ledger[j].artifact.id == c.artifact.id && ledger[j].artifact.sha == c.artifact.sha {
      OneRow(ledger, nextId, c, Publishing, j);
    } else if j < |view.records| && ledger[j] == view.records[j] {
      assert Vouches(view, c, r, ledger[j]) <==> ledger[j].artifact.sha == c.artifact.sha;
    }
  }

  lemma AllTogether(view: View)
    requires view.Unblocked()
    ensures SelfContained(view, R.Ids(view.candidates))
  {
    hide View.Unblocked, Stuck;
    forall c | c in view.candidates
      ensures !Stuck(view, c)
    {
      NothingStuck(view, c);
    }
  }

  lemma PastIsPlanned(view: View, plan: Plan, turn: nat)
    requires IsPlan(view, plan)
    ensures Past(Job(view, plan), turn) <= R.Ids(view.candidates)
  {
    hide R.Acyclic, R.AllCovered, R.Topological, R.Lists, View.Superfluous, View.Retires, View.Orderable, DecidesAll;
    forall id | id in R.OrderIds(plan.order)
      ensures id in R.Ids(view.candidates)
    {
      var k :| 0 <= k < |plan.order| && plan.order[k].artifact.id == id;
      assert plan.order[k] in multiset(plan.order);
    }
  }

  /** A run of an unblocked plan can deliver everything. */
  lemma CanDeliverAll(job: Job, base: nat) returns (s: Site)
    requires Sound(job, base) && job.view.Unblocked()
    ensures Stops(job, base, s) && s.turn == |job.plan.order| && !s.failed
  {
    SoundPlan(job, base);
    hide Sound, Stops, IsPlan, View.Unblocked, SelfContained, Past, Untouched, HasBlocked;
    AllTogether(job.view);
    NothingBlocked(job.view, job.plan);
    PastIsPlanned(job.view, job.plan, |job.plan.order|);
    s := DeliverWanted(job, base, R.Ids(job.view.candidates), |job.plan.order|);
  }

  /** Of the records to retire, only `r` is not superseded yet. */
  ghost predicate OnlyLeft(view: View, ledger: seq<Record>, r: Record) {
    forall j :: 0 <= j < |view.records| && j < |ledger| && view.records[j] != r && view.Superfluous(view.records[j]) ==>
      ledger[j].status == Superseded
  }

  /** Stopped when all other records are superseded, none is left to vouch for the candidate's bytes. */
  lemma CleanedIsDisowned(job: Job, base: nat, c: Candidate, r: Record) returns (s: Site)
    requires Sound(job, base) && Joined(job.view.records) && job.view.Unblocked()
    requires c in job.view.candidates && job.view.Superfluous(r) && r.ref == c.Ref() && !SafeWhileCleaned(job.view, c, r)
    ensures Stops(job, base, s)
    ensures Rerun(job.view, s.files, s.ledger).Superfluous(r) && !Retirable(s.files, s.ledger, r)
  {
    hide Sound, Stops, Joined, Reached, View.Superfluous, View.Unblocked, SafeWhileCleaned, Retirable, Intact, OnlyLeft;
    s := CanRetireOthers(job, base, r);
    StopsInPlace(job, base, s, c);
    SoundBase(job, base);
    DisownedInCleaning(job.view, s.files, s.ledger, c, r);
  }

  lemma SoundBase(job: Job, base: nat)
    requires Sound(job, base)
    ensures Coherent(job.view) && ValidLedger(job.view.records, base)
  {
  }

  /** Once retirement has begun, every candidate is in place. */
  lemma StopsInPlace(job: Job, base: nat, s: Site, c: Candidate)
    requires Sound(job, base) && Stops(job, base, s) && s.turn >= |job.plan.order| && !s.failed && c in job.view.candidates
    ensures Reached(job.view, s.files, s.ledger) && Intact(s.files, c)
  {
    StopsKept(job, base, s);
    hide Sound, Stops, Reached, Progress, StageKept, ValidLedger, ArtifactsAgree;
    EverySettledHas(job.view, s.files, s.ledger, c);
  }

  lemma StillThere(job: Job, base: nat, s: Site, i: nat)
    requires Sound(job, base) && Stops(job, base, s) && s.turn <= |job.plan.order|
    requires i < |job.view.records| && job.view.Retires(job.view.records[i])
    ensures i < |s.ledger| && s.ledger[i] == job.view.records[i]
  {
    StopsKept(job, base, s);
    hide IsPlan, Stops, Reached, Progress, StageKept, Cleaning, ArtifactsAgree, View.Retires, Coherent, ValidLedger;
    RecordStays(job.view, s.files, s.ledger, base, i);
  }

  lemma CanRetireOthers(job: Job, base: nat, r: Record) returns (s: Site)
    requires Sound(job, base) && job.view.Unblocked() && job.view.Superfluous(r)
    ensures Stops(job, base, s) && s.turn >= |job.plan.order| && !s.failed
    ensures r in s.ledger && OnlyLeft(job.view, s.ledger, r)
  {
    RetiresIsPublished(job.view, r);
    assert job.view.Retires(r);
    hide Sound, Stops, View.Superfluous, View.Retires, View.Unblocked, Retirable;
    var i: nat :| i < |job.view.records| && job.view.records[i] == r;
    var s0 := CanDeliverAll(job, base);
    StillThere(job, base, s0, i);
    s := RetireOthers(job, base, s0, i, |job.plan.retirements|);
    assert job.plan.retirements[..|job.plan.retirements|] == job.plan.retirements;
    forall j | 0 <= j < |job.view.records| && job.view.records[j] != r && job.view.Superfluous(job.view.records[j])
      ensures s.ledger[j].status == Superseded
    {
      IsRetired(job, base, job.view.records[j]);
    }
  }

  lemma IsRetired(job: Job, base: nat, r: Record)
    requires Sound(job, base) && job.view.Unblocked() && job.view.Superfluous(r)
    ensures r.id in job.plan.retirements
  {
    RetiresIsPublished(job.view, r);
    SoundPlan(job, base);
    hide Sound, Coherent, View.Superfluous, R.Acyclic, R.AllCovered, R.Topological, R.Lists, DecidesAll, Retirable, Identified;
  }

  lemma DisownedInCleaning(view: View, files: Files, ledger: seq<Record>, c: Candidate, r: Record)
    requires Coherent(view) && Joined(view.records) && Reached(view, files, ledger)
    requires c in view.candidates && view.Superfluous(r) && r.ref == c.Ref() && !SafeWhileCleaned(view, c, r)
    requires Intact(files, c) && r in ledger && OnlyLeft(view, ledger, r)
    ensures Rerun(view, files, ledger).Superfluous(r) && !Retirable(files, ledger, r)
  {
    hide Coherent, Reached, View.Superfluous, Joined, ActionFor, OnlyLeft;
    StaysSuperfluous(view, files, ledger, c, r);
    forall t | t in ledger && t.status == Published && r.release != "" && t.release == r.release && t.ref == r.ref
      ensures t.artifact.sha != c.artifact.sha
    {
      var j: nat :| j < |ledger| && ledger[j] == t;
      LeftIsOther(view, files, ledger, c, r, j);
    }
  }

  lemma LeftIsOther(view: View, files: Files, ledger: seq<Record>, c: Candidate, r: Record, j: nat)
    requires Coherent(view) && Reached(view, files, ledger) && OnlyLeft(view, ledger, r)
    requires c in view.candidates && r.ref == c.Ref() && !SafeWhileCleaned(view, c, r)
    requires j < |ledger| && ledger[j].status == Published && r.release != "" && ledger[j].release == r.release && ledger[j].ref == r.ref
    ensures ledger[j].artifact.sha != c.artifact.sha
  {
    hide Reached, Coherent, ActionFor, View.Superfluous;
    RowAtCandidate(view, files, ledger, c, j);
    if j < |view.records| && ledger[j] == view.records[j] && ledger[j] != r {
      assert Vouches(view, c, r, ledger[j]) <==> ledger[j].artifact.sha == c.artifact.sha;
    }
  }

  /**
   * A plan in which nothing is blocked can be run again from every place where a run of it can stop
   * exactly when it is resumable, and its order never stands in the way.
   */
  lemma ResumesExactly(job: Job, base: nat)
    requires Sound(job, base) && Joined(job.view.records) && job.view.Unblocked()
    ensures (forall s :: Stops(job, base, s) ==> Rerun(job.view, s.files, s.ledger).Unblocked()) <==> Resumable(job.view)
    ensures forall s :: Stops(job, base, s) ==> Rerun(job.view, s.files, s.ledger).Orderable()
  {
    hide Sound, Stops, Joined, Resumable, View.Unblocked, View.Superfluous, View.Orderable, Retirable, SafeWhileWritten, SafeWhileCleaned;
    forall s | Stops(job, base, s)
      ensures Rerun(job.view, s.files, s.ledger).Orderable()
      ensures Resumable(job.view) ==> Rerun(job.view, s.files, s.ledger).Unblocked()
    {
      StopsResumes(job, base, s);
    }
    if !Resumable(job.view) {
      var s := NotResumableBlocks(job, base);
    }
  }

  lemma StopsResumes(job: Job, base: nat, s: Site)
    requires Sound(job, base) && Stops(job, base, s) && job.view.Unblocked()
    ensures Rerun(job.view, s.files, s.ledger).Orderable()
    ensures Resumable(job.view) ==> Rerun(job.view, s.files, s.ledger).Unblocked()
  {
    StopsKept(job, base, s);
    SoundPlan(job, base);
    SoundBase(job, base);
    assert job.view.Orderable();
    hide Sound, Stops, IsPlan, Progress, StageKept, PhaseKept, Coherent, ValidLedger, Reached, View.Orderable, View.Unblocked, Resumable,
         ArtifactsAgree;
    RerunOrderable(job.view, s.files, s.ledger);
    if Resumable(job.view) {
      ResumableMeansUnblocked(job.view, s.files, s.ledger, base, s.nextId);
    }
  }

  lemma NotResumableBlocks(job: Job, base: nat) returns (s: Site)
    requires Sound(job, base) && Joined(job.view.records) && job.view.Unblocked() && !Resumable(job.view)
    ensures Stops(job, base, s) && !Rerun(job.view, s.files, s.ledger).Unblocked()
  {
    var c, r :| c in job.view.candidates && job.view.Superfluous(r) && r.ref == c.Ref() &&
      !((Delivers(job.view, c) ==> SafeWhileWritten(job.view, c, r)) && SafeWhileCleaned(job.view, c, r));
    hide Sound, Stops, Joined, Resumable, View.Superfluous, Retirable, SafeWhileWritten, SafeWhileCleaned, Delivers;
    if Delivers(job.view, c) && !SafeWhileWritten(job.view, c, r) {
      s := WrittenIsDisowned(job, base, c, r);
    } else {
      s := CleanedIsDisowned(job, base, c, r);
    }
    RetiresIsPublished(Rerun(job.view, s.files, s.ledger), r);
  }

  /* ---- Volumes replaced in place ---- */

  /** A volume's record at a path that a candidate fills with other bytes is to be retired. */
  lemma ReplacedVolumeIsSuperfluous(view: View, c: Candidate, r: Record)
    requires Coherent(view) && Joined(view.records) && R.AllCovered(view.candidates, view.records, view.volumes)
    requires c in view.candidates && r in view.records && r.status == Published && IsVolume(view.volumes, r)
    requires r.ref == c.Ref() && r.artifact.sha != c.artifact.sha
    ensures view.Superfluous(r)
  {
    CompleteCovers(view.volumes, r, view.Coverage());
    forall m | m in RecordChapters(view.volumes, r)
      ensures m in view.Coverage()
    {
      OverwrittenIsCovered(view, c, r, m);
    }
    OtherBytesOtherKey(view, c, r);
    hide R.AllCovered, RecordChapters, Complete, View.Coverage, KeysOf;
    if RecordKey(r) in view.Desired() {
      DesiredThere(view, RecordKey(r), c);
    }
  }

  lemma OtherBytesOtherKey(view: View, c: Candidate, r: Record)
    requires Coherent(view) && Joined(view.records) && c in view.candidates && r in view.records
    requires r.artifact.sha != c.artifact.sha
    ensures RecordKey(r) !in KeysOf(view.files, view.records, c)
  {
    var k := FirstExact(view.records, c);
    if k < |view.records| {
      assert view.records[k] in view.records && view.records[k].artifact.id != r.artifact.id;
    }
  }

  /** So a plan that puts other bytes in the place of a volume cannot be run again from everywhere. */
  lemma ReplacedVolumeNeverResumes(view: View, c: Candidate, r: Record)
    requires Coherent(view) && Joined(view.records) && Faithful(view)
    requires R.AllCovered(view.candidates, view.records, view.volumes)
    requires c in view.candidates && r in view.records && r.status == Published && IsVolume(view.volumes, r)
    requires r.ref == c.Ref() && r.artifact.sha != c.artifact.sha
    ensures !Resumable(view)
  {
    ReplacedVolumeIsSuperfluous(view, c, r);
    hide View.Superfluous, R.AllCovered, Coherent, Joined;
    assert !SafeWhileCleaned(view, c, r);
  }
}
