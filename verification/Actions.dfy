/** What each planned action and each retirement means, read off the files, the records and the candidates. */
module Actions {
  import opened Common
  import opened Ledger
  import opened Planner
  import R = Reorder

  /** What lies at the candidate's destination is vouched for by a record that was written there, or is being written. */
  predicate Vouched(files: Files, records: seq<Record>, c: Candidate) {
    c.Ref() in files ==>
      exists r :: r in records && r.ref == c.Ref() && (r.status == Published || r.status == Publishing) && r.artifact.sha == files[c.Ref()]
  }

  /** This very release with these very bytes was published there before. */
  predicate PublishedBefore(records: seq<Record>, c: Candidate) {
    && !c.planned && c.artifact.sha != ""
    && exists r :: && r in records && r.status == Published && r.ref == c.Ref() && r.artifact.sha == c.artifact.sha
                   && r.artifact.release == c.artifact.release && r.artifact.track == c.artifact.track
                   && r.hash == PublishHash(c.artifact.sha, c.Ref())
  }

  predicate SomethingPublished(records: seq<Record>, c: Candidate) {
    exists r :: r in records && r.status == Published && r.ref == c.Ref()
  }

  predicate InPlace(files: Files, c: Candidate) {
    c.Ref() in files && files[c.Ref()] == c.artifact.sha
  }

  lemma ExactIs(records: seq<Record>, c: Candidate)
    ensures FirstExact(records, c) < |records| <==> PublishedBefore(records, c)
  {
    if PublishedBefore(records, c) {
      var r :| && r in records && r.status == Published && r.ref == c.Ref() && r.artifact.sha == c.artifact.sha
               && r.artifact.release == c.artifact.release && r.artifact.track == c.artifact.track
               && r.hash == PublishHash(c.artifact.sha, c.Ref());
      var i :| 0 <= i < |records| && records[i] == r;
      assert Exact(c, records[i]);
    }
  }

  /** Exactly when a candidate is blocked, unchanged, repaired, replaced or added. */
  lemma ActionExactly(files: Files, records: seq<Record>, c: Candidate)
    ensures var action := ActionFor(files, records, c);
            && (action == Blocked <==> !Vouched(files, records, c))
            && (action == Unchanged <==> PublishedBefore(records, c) && InPlace(files, c))
            && (action == Repair <==> Vouched(files, records, c) && PublishedBefore(records, c) && !InPlace(files, c))
            && (action == Replace <==>
                  Vouched(files, records, c) && !PublishedBefore(records, c) && SomethingPublished(records, c))
            && (action == Add <==> Vouched(files, records, c) && !SomethingPublished(records, c))
  {
    ExactIs(records, c);
    hide FirstExact;
    if PublishedBefore(records, c) && InPlace(files, c) {
      assert Vouched(files, records, c);
    }
  }

  /* ---- Retirement ---- */

  predicate Covers(c: Candidate, chapter: Id) {
    match c.volume
    case Some(members) => chapter in members
    case None => chapter == c.release
  }

  predicate IsCovered(candidates: seq<Candidate>, chapter: Id) {
    exists c :: c in candidates && Covers(c, chapter)
  }

  /** The last edition stored of an artifact. */
  predicate IsLastOf(volumes: seq<Edition>, artifact: Id, k: int) {
    && 0 <= k < |volumes| && volumes[k].artifact == artifact
    && forall j :: k < j < |volumes| ==> volumes[j].artifact != artifact
  }

  /** All that the record delivered is in the candidates: its last edition's members, or the release. */
  ghost predicate AllCovered(volumes: seq<Edition>, candidates: seq<Candidate>, r: Record) {
    && (forall k, m :: IsLastOf(volumes, r.artifact.id, k) && m in volumes[k].members ==> IsCovered(candidates, m))
    && ((forall k :: 0 <= k < |volumes| ==> volumes[k].artifact != r.artifact.id) ==> IsCovered(candidates, r.release))
  }

  predicate SameOutput(r: Record, ref: Path, artifact: Id, filename: string) {
    r.ref == ref && r.artifact.id == artifact && r.filename == filename
  }

  /** A candidate is this output, or leaves the output of this record as it is. */
  predicate Kept(view: View, r: Record) {
    exists c :: c in view.candidates
      && (|| SameOutput(r, c.Ref(), c.artifact.id, c.filename)
          || (&& PublishedBefore(view.records, c) && InPlace(view.files, c)
              && var first := view.records[FirstExact(view.records, c)];
                 SameOutput(r, first.ref, first.artifact.id, first.filename)))
  }

  /** Nothing lies there, or the record's own bytes, or those of another published record of its release at its place. */
  predicate Removable(files: Files, records: seq<Record>, r: Record) {
    r.ref in files && files[r.ref] != r.artifact.sha ==>
      r.release != "" && exists s :: s in records && s.status == Published && s.release == r.release && s.ref == r.ref
                                     && s.artifact.sha == files[r.ref]
  }

  lemma {:induction false} CompleteIs(view: View, volumes: seq<Edition>, r: Record)
    ensures Complete(volumes, r, view.Coverage()) <==> AllCovered(volumes, view.candidates, r)
  {
    CoverageIs(view);
    hide View.Coverage, IsCovered;
    if volumes == [] {
    } else {
      var front, last := volumes[..|volumes| - 1], volumes[|volumes| - 1];
      CompleteIs(view, front, r);
      assert volumes == front + [last];
      OneMoreEdition(front, last, view.candidates, r);
    }
  }

  lemma OneMoreEdition(front: seq<Edition>, last: Edition, candidates: seq<Candidate>, r: Record)
    ensures AllCovered(front + [last], candidates, r) <==>
              if last.artifact == r.artifact.id then forall m :: m in last.members ==> IsCovered(candidates, m)
              else AllCovered(front, candidates, r)
  {
    var volumes := front + [last];
    forall k
      ensures IsLastOf(volumes, r.artifact.id, k) <==>
                if last.artifact == r.artifact.id then k == |front| else IsLastOf(front, r.artifact.id, k)
    {
      LastNext(front, last, r.artifact.id, k);
    }
    assert forall j :: 0 <= j < |front| ==> volumes[j] == front[j];
    assert volumes[|front|] == last;
    hide IsLastOf, IsCovered;
  }

  lemma LastNext(front: seq<Edition>, last: Edition, artifact: Id, k: int)
    ensures IsLastOf(front + [last], artifact, k) <==> if last.artifact == artifact then k == |front| else IsLastOf(front, artifact, k)
  {
    var volumes := front + [last];
    assert forall j :: 0 <= j < |front| ==> volumes[j] == front[j];
    assert volumes[|front|] == last;
  }

  lemma CoverageIs(view: View)
    ensures forall m :: m in view.Coverage() <==> IsCovered(view.candidates, m)
  {
    forall c: Candidate, m: Id
      ensures m in c.Chapters() <==> Covers(c, m)
    {
    }
    hide Candidate.Chapters, Covers;
  }

  lemma KeptIs(view: View, r: Record)
    ensures RecordKey(r) in view.Desired() <==> Kept(view, r)
  {
    forall c | c in view.candidates
      ensures RecordKey(r) in KeysOf(view.files, view.records, c) <==>
                (|| SameOutput(r, c.Ref(), c.artifact.id, c.filename)
                 || (&& PublishedBefore(view.records, c) && InPlace(view.files, c)
                     && var first := view.records[FirstExact(view.records, c)];
                        SameOutput(r, first.ref, first.artifact.id, first.filename)))
    {
      ExactIs(view.records, c);
      ActionExactly(view.files, view.records, c);
      hide ActionFor, PublishedBefore, FirstExact;
    }
    hide KeysOf, SameOutput, PublishedBefore, FirstExact;
  }

  lemma RemovableIs(files: Files, records: seq<Record>, r: Record)
    ensures Retirable(files, records, r) <==> Removable(files, records, r)
  {
  }

  /** Exactly which records a plan retires, and which ones block it. */
  lemma RetiresExactly(view: View, r: Record)
    requires r in view.records
    ensures view.Superfluous(r) <==> r.status == Published && !Kept(view, r) && AllCovered(view.volumes, view.candidates, r)
    ensures view.Retires(r) <==>
              && r.status == Published && !Kept(view, r) && AllCovered(view.volumes, view.candidates, r)
              && Removable(view.files, view.records, r)
  {
    KeptIs(view, r);
    CompleteIs(view, view.volumes, r);
    RemovableIs(view.files, view.records, r);
    hide Kept, AllCovered, Removable, Retirable, Complete, View.Desired, View.Coverage;
  }

  /** A plan is unblocked exactly when every destination is vouched for and everything to retire can be removed. */
  lemma UnblockedExactly(view: View)
    ensures view.Unblocked() <==>
              && (forall c :: c in view.candidates ==> Vouched(view.files, view.records, c))
              && (forall r :: r in view.records && r.status == Published && !Kept(view, r) && AllCovered(view.volumes, view.candidates, r) ==>
                    Removable(view.files, view.records, r))
  {
    forall c | c in view.candidates
      ensures Identified(view.files, view.records, c) <==> Vouched(view.files, view.records, c)
    {
    }
    forall r | r in view.records
      ensures view.Superfluous(r) <==> r.status == Published && !Kept(view, r) && AllCovered(view.volumes, view.candidates, r)
      ensures Retirable(view.files, view.records, r) <==> Removable(view.files, view.records, r)
    {
      RetiresExactly(view, r);
      RemovableIs(view.files, view.records, r);
    }
    hide Identified, Vouched, Kept, AllCovered, Removable, Retirable, View.Superfluous;
  }

  /* ---- The order ---- */

  /** A chapter of an edition whose file the candidate is about to overwrite. */
  predicate Endangers(records: seq<Record>, volumes: seq<Edition>, c: Candidate, chapter: Id) {
    exists prior, v :: && prior in records && prior.status == Published && prior.ref == c.Ref() && prior.artifact.id != c.artifact.id
                       && v in volumes && v.artifact == prior.artifact.id && chapter in v.members
  }

  /** The last candidate with the chapter. */
  predicate IsCarrier(candidates: seq<Candidate>, chapter: Id, k: int) {
    && 0 <= k < |candidates| && Covers(candidates[k], chapter)
    && forall j :: k < j < |candidates| ==> !Covers(candidates[j], chapter)
  }

  lemma {:induction false} ReplacementIs(candidates: seq<Candidate>, chapter: Id)
    ensures forall k :: IsCarrier(candidates, chapter, k) ==> R.Replacement(candidates, chapter) == candidates[k].artifact.id
    ensures (forall k :: !IsCarrier(candidates, chapter, k)) ==> R.Replacement(candidates, chapter) == ""
  {
    hide Covers, Candidate.Chapters;
    if candidates == [] {
    } else {
      var front, last := candidates[..|candidates| - 1], candidates[|candidates| - 1];
      ReplacementIs(front, chapter);
      assert chapter in last.Chapters() <==> Covers(last, chapter) by {
        ChaptersAre(last, chapter);
      }
      if Covers(last, chapter) {
        assert IsCarrier(candidates, chapter, |front|);
      } else {
        forall k
          ensures IsCarrier(candidates, chapter, k) <==> IsCarrier(front, chapter, k)
        {
          CarrierNext(front, last, chapter, k);
          assert candidates == front + [last];
        }
      }
    }
  }

  lemma ChaptersAre(c: Candidate, chapter: Id)
    ensures chapter in c.Chapters() <==> Covers(c, chapter)
  {
  }

  lemma CarrierNext(front: seq<Candidate>, last: Candidate, chapter: Id, k: int)
    requires !Covers(last, chapter)
    ensures IsCarrier(front + [last], chapter, k) <==> IsCarrier(front, chapter, k)
  {
    hide Covers;
    var all := front + [last];
    assert forall j :: 0 <= j < |front| ==> all[j] == front[j];
    assert all[|front|] == last;
  }

  lemma {:induction false} MembersAre(volumes: seq<Edition>, artifact: Id)
    ensures forall m :: m in R.EditionMembers(volumes, artifact) <==> exists v :: v in volumes && v.artifact == artifact && m in v.members
  {
    if volumes == [] {
    } else {
      var front, last := volumes[..|volumes| - 1], volumes[|volumes| - 1];
      MembersAre(front, artifact);
      assert volumes == front + [last];
      assert forall v: Edition :: v in volumes <==> v in front || v == last;
    }
  }

  /** The last candidate with the chapter has a proper id. */
  ghost predicate HasCarrier(candidates: seq<Candidate>, chapter: Id) {
    exists k :: IsCarrier(candidates, chapter, k) && candidates[k].artifact.id != ""
  }

  /** Every chapter that would be lost has a candidate. */
  ghost predicate Rescued(view: View) {
    forall c, m :: c in view.candidates && Endangers(view.records, view.volumes, c, m) ==> HasCarrier(view.candidates, m)
  }

  lemma EndangersIs(records: seq<Record>, volumes: seq<Edition>, c: Candidate, m: Id)
    ensures Endangers(records, volumes, c, m) <==>
              exists prior :: prior in records && R.Overwrites(c, prior) && m in R.EditionMembers(volumes, prior.artifact.id)
  {
    forall prior | prior in records
      ensures m in R.EditionMembers(volumes, prior.artifact.id) <==> exists v :: v in volumes && v.artifact == prior.artifact.id && m in v.members
    {
      MembersAre(volumes, prior.artifact.id);
    }
    hide R.EditionMembers;
  }

  lemma HasCarrierIs(candidates: seq<Candidate>, m: Id)
    ensures HasCarrier(candidates, m) <==> R.Replacement(candidates, m) != ""
  {
    ReplacementIs(candidates, m);
    hide R.Replacement, Covers;
  }

  lemma MissesIs(view: View, c: Candidate, m: Id)
    requires c in view.candidates
    ensures (exists prior :: R.Misses(view.candidates, view.records, view.volumes, c, prior, m)) <==>
              Endangers(view.records, view.volumes, c, m) && !HasCarrier(view.candidates, m)
  {
    EndangersIs(view.records, view.volumes, c, m);
    HasCarrierIs(view.candidates, m);
    hide HasCarrier, Endangers, R.Replacement, R.EditionMembers, R.Overwrites;
    if Endangers(view.records, view.volumes, c, m) && !HasCarrier(view.candidates, m) {
      var prior :| prior in view.records && R.Overwrites(c, prior) && m in R.EditionMembers(view.volumes, prior.artifact.id);
      assert R.Misses(view.candidates, view.records, view.volumes, c, prior, m);
    }
  }

  /** An order is refused for a chapter exactly when overwriting would lose it. */
  lemma RescuedIs(view: View)
    ensures R.AllCovered(view.candidates, view.records, view.volumes) <==> Rescued(view)
  {
    forall c, m | c in view.candidates
      ensures (exists prior :: R.Misses(view.candidates, view.records, view.volumes, c, prior, m)) <==>
                Endangers(view.records, view.volumes, c, m) && !HasCarrier(view.candidates, m)
    {
      MissesIs(view, c, m);
    }
    hide R.Misses, Endangers, HasCarrier;
    if !Rescued(view) {
      var c, m :| c in view.candidates && Endangers(view.records, view.volumes, c, m) && !HasCarrier(view.candidates, m);
      var prior :| R.Misses(view.candidates, view.records, view.volumes, c, prior, m);
      assert !R.Covered(view.candidates, view.records, view.volumes, c);
    }
    if !R.AllCovered(view.candidates, view.records, view.volumes) {
      var c :| c in view.candidates && !R.Covered(view.candidates, view.records, view.volumes, c);
      var prior, m :| R.Misses(view.candidates, view.records, view.volumes, c, prior, m);
      assert Endangers(view.records, view.volumes, c, m) && !HasCarrier(view.candidates, m);
    }
  }

  /** A candidate waits exactly for the others that carry what it would overwrite. */
  lemma WaitsExactly(view: View, c: Candidate, id: Id)
    requires c in view.candidates && Rescued(view)
    ensures R.Awaits(view.candidates, view.records, view.volumes, c, id) <==>
              exists m, k :: && Endangers(view.records, view.volumes, c, m) && IsCarrier(view.candidates, m, k)
                             && view.candidates[k].artifact.id == id != c.artifact.id
  {
    var candidates, records, volumes := view.candidates, view.records, view.volumes;
    forall m
      ensures Endangers(records, volumes, c, m) <==>
                exists prior :: prior in records && R.Overwrites(c, prior) && m in R.EditionMembers(volumes, prior.artifact.id)
      ensures Endangers(records, volumes, c, m) ==>
                exists k :: IsCarrier(candidates, m, k) && R.Replacement(candidates, m) == candidates[k].artifact.id
    {
      EndangersIs(records, volumes, c, m);
      ReplacementIs(candidates, m);
    }
    forall m, k | IsCarrier(candidates, m, k)
      ensures R.Replacement(candidates, m) == candidates[k].artifact.id
    {
      ReplacementIs(candidates, m);
    }
    hide R.Replacement, R.EditionMembers, R.Overwrites, Endangers, Rescued, Covers;
  }
}
