/**
 * Executing a delivery plan against the file map and the ledger. A fault or a crash may strike
 * between any two effects, so what holds on every exit of RunPlan holds after every step.
 */
module Delivery {
  import opened Common
  import opened Ledger
  import opened Planner
  import R = Reorder

  /* ---- What one plan may do ---- */

  /** Candidates with distinct ids and destinations, built, and named as in the ledger. */
  ghost predicate Deliverable(candidates: seq<Candidate>, ledger: seq<Record>) {
    && R.DistinctIds(candidates)
    && DistinctRefs(candidates)
    && (forall c :: c in candidates ==> c.artifact.sha != "")
    && ArtifactsAgree(candidates, ledger)
  }

  ghost predicate Coherent(view: View) {
    Deliverable(view.candidates, view.records)
  }

  ghost predicate DistinctRefs(candidates: seq<Candidate>) {
    forall i, j :: 0 <= i < j < |candidates| ==> candidates[i].Ref() != candidates[j].Ref()
  }

  ghost predicate Occupied(view: View, path: Path) {
    exists c :: c in view.candidates && c.Ref() == path
  }

  predicate Delivers(view: View, c: Candidate) {
    c in view.candidates && view.Action(c) in {Add, Replace, Repair}
  }

  predicate SameAt(before: Files, after: Files, path: Path) {
    if path in before then path in after && after[path] == before[path] else path !in after
  }

  ghost predicate HasRow(ledger: seq<Record>, c: Candidate, status: Status) {
    exists i :: 0 <= i < |ledger| && IsRow(ledger[i], c) && ledger[i].status == status
  }

  ghost predicate HasLiveRow(ledger: seq<Record>, c: Candidate) {
    exists i :: 0 <= i < |ledger| && IsRow(ledger[i], c) && ledger[i].Live()
  }

  /** A blocked retirement of the same artifact takes the place of the candidate's own item. */
  ghost predicate Shadowed(view: View, c: Candidate) {
    exists r :: view.Superfluous(r) && !Retirable(view.files, view.records, r) && r.artifact.id == c.artifact.id
  }

  /** The plan will not touch the candidate. */
  ghost predicate Stuck(view: View, c: Candidate) {
    view.Action(c) == Blocked || Shadowed(view, c)
  }

  /** `c` waits for `other`, directly or through others. */
  ghost predicate Needs(view: View, c: Candidate, other: Candidate) {
    R.Connected(view.Graph(), c.artifact.id, other.artifact.id)
  }

  /** Neither the candidate nor anything it needs is stuck. */
  ghost predicate Startable(view: View, c: Candidate) {
    !Stuck(view, c) && forall other :: other in view.candidates && Needs(view, c, other) ==> !Stuck(view, other)
  }

  ghost predicate AllIntact(view: View, files: Files) {
    forall c :: c in view.candidates ==> Intact(files, c)
  }

  /** A row is untouched, is the row of a delivered candidate, or was superseded once its file was gone. */
  ghost predicate RowEvolves(view: View, files: Files, before: Record, after: Record) {
    || after == before
    || (exists c :: Delivers(view, c) && Startable(view, c) && IsRow(before, c) && IsRow(after, c) && after.Live() && after.id == before.id)
    || (&& view.Retires(before) && after == before.(status := Superseded)
        && (Occupied(view, before.ref) || before.ref !in files))
  }

  ghost predicate NewRow(view: View, r: Record) {
    exists c :: Delivers(view, c) && Startable(view, c) && IsRow(r, c) && r.Live()
  }

  ghost predicate LedgerEvolves(view: View, files: Files, ledger: seq<Record>) {
    && |view.records| <= |ledger|
    && (forall i :: 0 <= i < |view.records| ==> RowEvolves(view, files, view.records[i], ledger[i]))
    && (forall i :: |view.records| <= i < |ledger| ==> NewRow(view, ledger[i]))
  }

  /** Away from the candidates' paths a file may only disappear by retirement, after every delivery. */
  ghost predicate FreePathEvolves(view: View, files: Files, path: Path) {
    || SameAt(view.files, files, path)
    || (path !in files && AllIntact(view, files) && exists r :: view.Retires(r) && r.ref == path)
  }

  /** A candidate's path changes only to its bytes, behind its ledger row and its dependencies. */
  ghost predicate CandidatePathEvolves(view: View, files: Files, ledger: seq<Record>, c: Candidate) {
    || SameAt(view.files, files, c.Ref())
    || (Intact(files, c) && Delivers(view, c) && HasLiveRow(ledger, c) && Startable(view, c) && Gated(view, files, c))
  }

  ghost predicate Gated(view: View, files: Files, c: Candidate) {
    forall other :: other in view.candidates && Needs(view, c, other) ==> Intact(files, other)
  }

  /** The plan has superseded a record. */
  ghost predicate Cleaning(view: View, ledger: seq<Record>) {
    exists i :: 0 <= i < |view.records| && i < |ledger| && Superseding(view.records[i], ledger[i])
  }

  predicate Superseding(before: Record, after: Record) {
    before.status != Superseded && after.status == Superseded
  }

  /** Everything a run of the plan can have done so far, wherever it stopped. */
  ghost predicate Reached(view: View, files: Files, ledger: seq<Record>) {
    && LedgerEvolves(view, files, ledger)
    && (forall path :: !Occupied(view, path) ==> FreePathEvolves(view, files, path))
    && (forall c :: c in view.candidates ==> CandidatePathEvolves(view, files, ledger, c))
    && (Cleaning(view, ledger) ==> EverySettled(view, files, ledger))
  }

  ghost predicate EverySettled(view: View, files: Files, ledger: seq<Record>) {
    forall c :: c in view.candidates ==> Settled(view, files, ledger, c)
  }

  ghost predicate Settled(view: View, files: Files, ledger: seq<Record>, c: Candidate) {
    Intact(files, c) && (view.Action(c) == Unchanged || HasRow(ledger, c, Published))
  }

  /** What a successful run has done. */
  ghost predicate Finished(view: View, files: Files, ledger: seq<Record>) {
    && Reached(view, files, ledger) && view.Unblocked()
    && (forall c :: c in view.candidates ==> Settled(view, files, ledger, c))
    && (forall i :: 0 <= i < |view.records| && view.Superfluous(view.records[i]) ==>
          ledger[i] == view.records[i].(status := Superseded))
  }

  /* ---- Each effect keeps Reached ---- */

  lemma ReachedAtStart(view: View)
    ensures Reached(view, view.files, view.records)
  {
  }

  lemma CandidateAt(view: View, c: Candidate, other: Candidate)
    requires Coherent(view) && c in view.candidates && other in view.candidates
    requires c.Ref() == other.Ref() || c.artifact.id == other.artifact.id
    ensures c == other
  {
    var i :| 0 <= i < |view.candidates| && view.candidates[i] == c;
    var j :| 0 <= j < |view.candidates| && view.candidates[j] == other;
  }

  /** A ledger that differs in one row `k`: live rows stay live elsewhere. */
  ghost predicate OneRowChanged(ledger: seq<Record>, next: seq<Record>, k: nat) {
    && |ledger| <= |next|
    && (forall i :: 0 <= i < |ledger| && i != k ==> next[i] == ledger[i])
    && (forall i {:trigger next[i]} :: |ledger| <= i < |next| ==> i == k)
  }

  lemma LedgerStep(view: View, files: Files, ledger: seq<Record>, next: seq<Record>, k: nat)
    requires Reached(view, files, ledger) && OneRowChanged(ledger, next, k)
    requires Cleaning(view, next) ==> EverySettled(view, files, next)
    requires k < |next| && k < |view.records| ==> RowEvolves(view, files, view.records[k], next[k])
    requires k < |next| && k >= |view.records| ==> NewRow(view, next[k])
    requires k < |ledger| ==> next[k].Live() || forall c :: c in view.candidates ==> !IsRow(ledger[k], c)
    requires k < |ledger| ==> forall c :: c in view.candidates && IsRow(ledger[k], c) ==> IsRow(next[k], c)
    ensures Reached(view, files, next)
  {
    forall i | 0 <= i < |view.records|
      ensures RowEvolves(view, files, view.records[i], next[i])
    {
      assert RowEvolves(view, files, view.records[i], ledger[i]);
    }
    forall i | |view.records| <= i < |next|
      ensures NewRow(view, next[i])
    {
      var row := next[i];
      if i != k {
        assert NewRow(view, ledger[i]);
      }
    }
    forall c | c in view.candidates
      ensures CandidatePathEvolves(view, files, next, c)
    {
      assert CandidatePathEvolves(view, files, ledger, c);
      if HasLiveRow(ledger, c) {
        var i :| 0 <= i < |ledger| && IsRow(ledger[i], c) && ledger[i].Live();
        assert IsRow(next[i], c) && next[i].Live();
      }
    }
  }

  lemma KeepsPublished(ledger: seq<Record>, next: seq<Record>, k: nat, c: Candidate)
    requires OneRowChanged(ledger, next, k) && HasRow(ledger, c, Published)
    requires k < |ledger| ==> !IsRow(ledger[k], c)
    ensures HasRow(next, c, Published)
  {
    var i :| 0 <= i < |ledger| && IsRow(ledger[i], c) && ledger[i].status == Published;
    assert IsRow(next[i], c);
  }

  lemma KeepsAgreement(candidates: seq<Candidate>, ledger: seq<Record>, next: seq<Record>, k: nat)
    requires ArtifactsAgree(candidates, ledger) && OneRowChanged(ledger, next, k) && k < |next|
    requires forall c :: c in candidates && c.artifact.id == next[k].artifact.id ==>
               c.artifact == next[k].artifact && c.release == next[k].release
    ensures ArtifactsAgree(candidates, next)
  {
    forall c, r | c in candidates && r in next && c.artifact.id == r.artifact.id
      ensures c.artifact == r.artifact && c.release == r.release
    {
      var i :| 0 <= i < |next| && next[i] == r;
      assert i != k ==> r in ledger;
    }
  }

  lemma DeliveryRowStep(view: View, files: Files, ledger: seq<Record>, c: Candidate, id: nat, status: Status)
    requires Coherent(view) && ValidLedger(ledger, id) && ArtifactsAgree(view.candidates, ledger)
    requires Reached(view, files, ledger) && Delivers(view, c) && Startable(view, c)
    requires status in {Publishing, Published} && !Cleaning(view, ledger)
    ensures var next := Upserted(ledger, DeliveryRow(c, id, status));
            && ValidLedger(next, id + 1) && ArtifactsAgree(view.candidates, next)
            && Reached(view, files, next) && HasRow(next, c, status) && !Cleaning(view, next)
            && forall other :: other in view.candidates && other != c && HasRow(ledger, other, Published) ==>
                 HasRow(next, other, Published)
  {
    hide View.Retires, ActionFor, FreePathEvolves, CandidatePathEvolves;
    var next := Upserted(ledger, DeliveryRow(c, id, status));
    var k := Row(ledger, DeliveryRow(c, id, status));
    UpsertDelivery(ledger, c, id, status);
    if k < |view.records| {
      assert RowEvolves(view, files, view.records[k], ledger[k]);
    }
    assert !Cleaning(view, next) by {
      forall i | 0 <= i < |view.records| && i < |next|
        ensures !Superseding(view.records[i], next[i])
      {
        assert !Superseding(view.records[i], ledger[i]);
      }
    }
    LedgerStep(view, files, ledger, next, k);
    forall other | other in view.candidates && IsRow(next[k], other)
      ensures other == c
    {
      CandidateAt(view, c, other);
    }
    forall other | other in view.candidates && other != c && HasRow(ledger, other, Published)
      ensures HasRow(next, other, Published)
    {
      KeepsPublished(ledger, next, k, other);
    }
    forall other | other in view.candidates && other.artifact.id == next[k].artifact.id
      ensures other == c
    {
      CandidateAt(view, c, other);
    }
    KeepsAgreement(view.candidates, ledger, next, k);
  }

  lemma WriteStep(view: View, files: Files, ledger: seq<Record>, c: Candidate)
    requires Coherent(view) && Reached(view, files, ledger) && Delivers(view, c)
    requires HasLiveRow(ledger, c) && Startable(view, c) && Gated(view, files, c) && !Cleaning(view, ledger)
    ensures Reached(view, files[c.Ref() := c.artifact.sha], ledger)
    ensures forall other :: other in view.candidates && Intact(files, other) ==>
              Intact(files[c.Ref() := c.artifact.sha], other)
    ensures Intact(files[c.Ref() := c.artifact.sha], c)
  {
    hide View.Retires, ActionFor, Needs, Startable, Cleaning;
    var next := files[c.Ref() := c.artifact.sha];
    forall other | other in view.candidates
      ensures Intact(files, other) ==> Intact(next, other)
    {
      if other.Ref() == c.Ref() {
        CandidateAt(view, c, other);
      }
    }
    forall other | other in view.candidates
      ensures CandidatePathEvolves(view, next, ledger, other)
    {
      if other.Ref() == c.Ref() {
        CandidateAt(view, c, other);
      }
      assert CandidatePathEvolves(view, files, ledger, other);
    }
    forall path | !Occupied(view, path)
      ensures FreePathEvolves(view, next, path)
    {
      assert path != c.Ref();
      assert FreePathEvolves(view, files, path);
    }
    forall i | 0 <= i < |view.records|
      ensures RowEvolves(view, next, view.records[i], ledger[i])
    {
      assert RowEvolves(view, files, view.records[i], ledger[i]);
      if !Occupied(view, view.records[i].ref) {
        assert view.records[i].ref != c.Ref();
      }
    }
  }

  lemma RemoveStep(view: View, files: Files, ledger: seq<Record>, prior: Record)
    requires Reached(view, files, ledger) && EverySettled(view, files, ledger)
    requires view.Retires(prior) && !Occupied(view, prior.ref)
    ensures Reached(view, files - {prior.ref}, ledger) && EverySettled(view, files - {prior.ref}, ledger)
  {
    var next := files - {prior.ref};
    forall c | c in view.candidates
      ensures Intact(next, c)
      ensures CandidatePathEvolves(view, next, ledger, c)
    {
      assert c.Ref() != prior.ref;
      assert CandidatePathEvolves(view, files, ledger, c);
    }
    forall path | !Occupied(view, path)
      ensures FreePathEvolves(view, next, path)
    {
      assert FreePathEvolves(view, files, path);
    }
    forall i | 0 <= i < |view.records|
      ensures RowEvolves(view, next, view.records[i], ledger[i])
    {
      assert RowEvolves(view, files, view.records[i], ledger[i]);
    }
  }

  /** A retired record is no candidate's row. */
  lemma RetiredIsNoRow(view: View, nextId: nat, prior: Record, c: Candidate)
    requires ValidLedger(view.records, nextId) && view.Retires(prior) && c in view.candidates
    ensures !IsRow(prior, c)
  {
    assert CandidateKey(c) in KeysOf(view.files, view.records, c);
    assert CandidateKey(c) in view.Desired();
    assert ValidRecord(prior);
  }

  lemma RetiredRow(view: View, files: Files, ledger: seq<Record>, nextId: nat, i: nat)
    requires Coherent(view) && ValidLedger(view.records, nextId) && Reached(view, files, ledger)
    requires i < |view.records| && view.Retires(view.records[i])
    ensures ledger[i] == view.records[i] || ledger[i] == view.records[i].(status := Superseded)
    ensures forall c :: c in view.candidates ==> !IsRow(ledger[i], c)
  {
    assert RowEvolves(view, files, view.records[i], ledger[i]);
    forall c | c in view.candidates
      ensures !IsRow(view.records[i], c)
    {
      RetiredIsNoRow(view, nextId, view.records[i], c);
    }
  }

  /** Superseding a retired record: one row changes, which is no candidate's. */
  lemma SupersededRow(view: View, files: Files, ledger: seq<Record>, base: nat, nextId: nat, i: nat)
    requires Coherent(view) && ValidLedger(view.records, base) && ValidLedger(ledger, nextId)
    requires Reached(view, files, ledger)
    requires i < |view.records| && view.Retires(view.records[i])
    ensures i < |ledger| && !exists c :: c in view.candidates && IsRow(ledger[i], c)
    ensures var prior := view.records[i].(status := Superseded);
            Upserted(ledger, prior) == ledger[i := prior] && ValidLedger(ledger[i := prior], nextId)
    ensures ledger[i].artifact == view.records[i].artifact && ledger[i].release == view.records[i].release
  {
    var prior := view.records[i];
    RetiredRow(view, files, ledger, base, i);
    assert ValidRecord(prior);
    UpsertExisting(ledger, i, nextId, prior.(status := Superseded));
  }

  lemma StaysSettled(view: View, files: Files, ledger: seq<Record>, next: seq<Record>, k: nat)
    requires EverySettled(view, files, ledger) && OneRowChanged(ledger, next, k)
    requires k < |ledger| ==> !exists c :: c in view.candidates && IsRow(ledger[k], c)
    ensures EverySettled(view, files, next)
  {
    hide ActionFor, Intact, HasRow;
    forall c | c in view.candidates
      ensures Settled(view, files, next, c)
    {
      if view.Action(c) != Unchanged {
        KeepsPublished(ledger, next, k, c);
      }
    }
  }

  lemma SupersedeStep(view: View, files: Files, ledger: seq<Record>, base: nat, nextId: nat, i: nat)
    requires Coherent(view) && ValidLedger(view.records, base) && ValidLedger(ledger, nextId)
    requires ArtifactsAgree(view.candidates, ledger) && Reached(view, files, ledger) && EverySettled(view, files, ledger)
    requires i < |view.records| && view.Retires(view.records[i])
    requires Occupied(view, view.records[i].ref) || view.records[i].ref !in files
    ensures var next := Upserted(ledger, view.records[i].(status := Superseded));
            && next == ledger[i := view.records[i].(status := Superseded)]
            && ValidLedger(next, nextId) && ArtifactsAgree(view.candidates, next) && Reached(view, files, next)
            && EverySettled(view, files, next)
  {
    hide View.Retires, EverySettled, Coherent, ValidLedger, Reached, Upserted, Cleaning, ArtifactsAgree, IsRow;
    SupersededRow(view, files, ledger, base, nextId, i);
    var next := ledger[i := view.records[i].(status := Superseded)];
    StaysSettled(view, files, ledger, next, i);
    LedgerStep(view, files, ledger, next, i);
    AgreesAt(view.candidates, ledger, i);
    KeepsAgreement(view.candidates, ledger, next, i);
  }

  lemma AgreesAt(candidates: seq<Candidate>, ledger: seq<Record>, i: nat)
    requires ArtifactsAgree(candidates, ledger) && i < |ledger|
    ensures forall c :: c in candidates && c.artifact.id == ledger[i].artifact.id ==>
              c.artifact == ledger[i].artifact && c.release == ledger[i].release
  {
    assert ledger[i] in ledger;
  }

  /* ---- Files nobody accounts for ---- */

  /** The pairs of path and bytes some live record accounts for. */
  ghost function Owns(ledger: seq<Record>): set<(Path, Hash)> {
    set r | r in ledger && r.Live() :: (r.ref, r.artifact.sha)
  }

  ghost function Outputs(candidates: seq<Candidate>): set<(Path, Hash)> {
    set c | c in candidates :: (c.Ref(), c.artifact.sha)
  }

  /** Only `outputs` become owned, and a file that is neither owned nor an output stays as it is. */
  ghost predicate Spares(files0: Files, ledger0: seq<Record>, outputs: set<(Path, Hash)>, files: Files,
          ledger: seq<Record>) {
    && Owns(ledger) <= Owns(ledger0) + outputs
    && forall path :: path in files0 && (path, files0[path]) !in Owns(ledger0) + outputs ==> SameAt(files0, files, path)
  }

  lemma OwnedMeansOwns(records: seq<Record>, path: Path)
    ensures forall h :: h in OwnedAt(records, path) ==> (path, h) in Owns(records)
  {
    forall h | h in OwnedAt(records, path)
      ensures (path, h) in Owns(records)
    {
      var r :| r in records && r.ref == path && r.Live() && r.artifact.sha == h;
    }
  }

  lemma RetirableOwns(view: View, r: Record)
    requires view.Retires(r) && r.ref in view.files
    ensures (r.ref, view.files[r.ref]) in Owns(view.records)
  {
    hide View.Superfluous;
    assert r in view.records && r.status == Published by {
      assert view.Superfluous(r);
      RetiresIsPublished(view, r);
    }
    assert view.files[r.ref] in RetirementOwned(view.records, r);
  }

  lemma RetiresIsPublished(view: View, r: Record)
    requires view.Superfluous(r)
    ensures r in view.records && r.status == Published
  {
  }

  /** Whatever a plan has done so far, it has spared the files nobody accounts for. */
  lemma ReachedSpares(view: View, files: Files, ledger: seq<Record>)
    requires Coherent(view) && Reached(view, files, ledger)
    ensures Spares(view.files, view.records, Outputs(view.candidates), files, ledger)
  {
    forall path | path in view.files && (path, view.files[path]) !in Owns(view.records) + Outputs(view.candidates)
      ensures SameAt(view.files, files, path)
    {
      OwnedMeansOwns(view.records, path);
      if Occupied(view, path) {
        var c :| c in view.candidates && c.Ref() == path;
        assert CandidatePathEvolves(view, files, ledger, c);
      } else {
        assert FreePathEvolves(view, files, path);
        if !SameAt(view.files, files, path) {
          var r :| view.Retires(r) && r.ref == path;
          RetirableOwns(view, r);
        }
      }
    }
    ReachedOwns(view, files, ledger);
  }

  lemma ReachedOwns(view: View, files: Files, ledger: seq<Record>)
    requires Reached(view, files, ledger)
    ensures Owns(ledger) <= Owns(view.records) + Outputs(view.candidates)
  {
    forall r | r in ledger && r.Live()
      ensures (r.ref, r.artifact.sha) in Owns(view.records) + Outputs(view.candidates)
    {
      var i :| 0 <= i < |ledger| && ledger[i] == r;
      if i < |view.records| {
        assert RowEvolves(view, files, view.records[i], ledger[i]);
        if r != view.records[i] {
          var c :| Delivers(view, c) && IsRow(r, c);
          assert (c.Ref(), c.artifact.sha) in Outputs(view.candidates);
        }
      } else {
        assert NewRow(view, ledger[i]);
        var c :| Delivers(view, c) && IsRow(r, c);
        assert (c.Ref(), c.artifact.sha) in Outputs(view.candidates);
      }
    }
  }

  lemma SparesTransitive(files0: Files, ledger0: seq<Record>, out1: set<(Path, Hash)>, files1: Files,
          ledger1: seq<Record>,
                         out2: set<(Path, Hash)>, files2: Files, ledger2: seq<Record>)
    requires Spares(files0, ledger0, out1, files1, ledger1) && Spares(files1, ledger1, out2, files2, ledger2)
    ensures Spares(files0, ledger0, out1 + out2, files2, ledger2)
  {
    hide Owns;
  }
}
