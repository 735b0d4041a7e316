/** Two libraries in which a new output takes the path of an old one: the least that goes wrong. */
module Reuse {
  import opened Common
  import opened Ledger
  import opened Planner
  import opened Delivery
  import opened Execution
  import opened DeliverySafety
  import opened Resumption
  import opened Recovery
  import R = Reorder

  const PATH := Dest("source", "track", "book.epub")

  function Output(id: Id, release: Id, sha: Hash, volume: Option<seq<Id>>): Candidate {
    Candidate(Artifact(id, release, "track", sha), release, "source", "track", "book.epub", volume, false)
  }

  function Delivered(id: Id, release: Id, sha: Hash): Record {
    Record(0, Artifact(id, release, "track", sha), release, PATH, "book.epub", PublishHash(sha, PATH), Published)
  }

  /** One published file, and one candidate of another artifact for the same path. */
  function Taken(prior: Record, volumes: seq<Edition>, c: Candidate): View {
    View(map[prior.ref := prior.artifact.sha], [prior], volumes, [c])
  }

  function OldVolume(): Record {
    Delivered("old", "", "old bytes")
  }

  function NewVolume(): Candidate {
    Output("new", "", "new bytes", Some(["chapter 1"]))
  }

  /** A volume rebuilt under the same name: the new edition takes the place of the old one. */
  function RebuiltVolume(): View {
    Taken(OldVolume(), [Edition("old", ["chapter 1"])], NewVolume())
  }

  function OldChapter(): Record {
    Delivered("old", "chapter 1", "old bytes")
  }

  /** A chapter that takes the name of a chapter that is no longer among the candidates. */
  function RenamedChapter(): View {
    Taken(OldChapter(), [], Output("new", "chapter 2", "new bytes", None))
  }

  lemma TakenIsCoherent(prior: Record, volumes: seq<Edition>, c: Candidate)
    requires prior.artifact.id != c.artifact.id && c.artifact.sha != "" && prior.id == 0
    requires ValidRecord(prior) && prior.status == Published
    ensures var view := Taken(prior, volumes, c);
            Coherent(view) && ValidLedger(view.records, 1) && Joined(view.records)
  {
  }

  lemma NoEdgeNoCycle(graph: map<Id, set<Id>>)
    requires forall a, b :: !R.Edge(graph, a, b)
    ensures R.Acyclic(graph)
  {
    forall path
      ensures !R.IsCycle(graph, path)
    {
      if |path| >= 2 {
        assert !R.Edge(graph, path[0], path[0 + 1]);
      }
    }
  }

  /** A lone candidate waits for nothing. */
  lemma LoneIsOrderable(view: View, c: Candidate)
    requires view.candidates == [c] && c.artifact.id != ""
    requires forall r, m :: r in view.records && m in R.EditionMembers(view.volumes, r.artifact.id) ==> m in c.Chapters()
    ensures view.Orderable()
  {
    forall m
      ensures R.Replacement(view.candidates, m) == if m in c.Chapters() then c.artifact.id else ""
    {
      assert view.candidates[..0] == [];
    }
    assert forall a, b :: !R.Edge(view.Graph(), a, b);
    NoEdgeNoCycle(view.Graph());
  }

  lemma RebuiltVolumeIsPlanned()
    ensures var view := RebuiltVolume();
            && Coherent(view) && ValidLedger(view.records, 1) && Joined(view.records)
            && view.Orderable() && view.Unblocked() && !Resumable(view)
  {
    var view := RebuiltVolume();
    var prior, c := view.records[0], view.candidates[0];
    TakenIsCoherent(prior, view.volumes, c);
    LoneIsOrderable(view, c);
    assert prior in view.records && c in view.candidates;
    assert FirstExact(view.records, c) == 1;
    assert KeysOf(view.files, view.records, c) == {CandidateKey(c)};
    assert c.Chapters() == {"chapter 1"} && view.Coverage() == {"chapter 1"};
    assert view.Superfluous(prior);
  }

  lemma OldVolumeIsReplaced()
    ensures var view := RebuiltVolume();
            && Faithful(view) && OldVolume() in view.records && NewVolume() in view.candidates
            && IsVolume(view.volumes, OldVolume())
    ensures OldVolume().ref == NewVolume().Ref() && OldVolume().artifact.sha != NewVolume().artifact.sha
  {
    assert Edition("old", ["chapter 1"]) in RebuiltVolume().volumes;
    assert OldVolume() in RebuiltVolume().records;
  }

  /**
   * Whatever the plan, a run of it can stop where the rerun is blocked, and so is every rerun after it:
   * the old record disowns the new bytes.
   */
  lemma RebuiltVolumeBlocks(plan: Plan) returns (s: Site)
    requires IsPlan(RebuiltVolume(), plan)
    ensures Stops(Job(RebuiltVolume(), plan), 1, s) && !Rerun(RebuiltVolume(), s.files, s.ledger).Unblocked()
    ensures forall stops :: Reruns(Rerun(RebuiltVolume(), s.files, s.ledger), stops) ==>
              !LastView(Rerun(RebuiltVolume(), s.files, s.ledger), stops).Unblocked()
  {
    RebuiltVolumeIsPlanned();
    OldVolumeIsReplaced();
    hide IsPlan, Stops, Coherent, ValidLedger, Joined, Faithful, IsVolume, View.Orderable, View.Unblocked, Refused, RebuiltVolume,
         OldVolume, NewVolume;
    s := ReplacedVolumeNeverRecovers(Job(RebuiltVolume(), plan), 1, NewVolume(), OldVolume());
    var rerun := Rerun(RebuiltVolume(), s.files, s.ledger);
    forall stops | Reruns(rerun, stops)
      ensures !LastView(rerun, stops).Unblocked()
    {
      RefusedIsBlocked(LastView(rerun, stops), OldVolume());
    }
    assert Reruns(rerun, []) && LastView(rerun, []) == rerun;
  }

  lemma RefusedIsBlocked(view: View, r: Record)
    requires Refused(view, r)
    ensures !view.Unblocked()
  {
    RetiresIsPublished(view, r);
  }

  lemma RenamedChapterIsPlanned()
    ensures var view := RenamedChapter();
            && Coherent(view) && ValidLedger(view.records, 1) && Faithful(view)
            && view.Orderable() && view.Unblocked() && OldChapter() in view.records && Holds(view.files, OldChapter())
  {
    var view := RenamedChapter();
    var prior, c := view.records[0], view.candidates[0];
    TakenIsCoherent(prior, view.volumes, c);
    LoneIsOrderable(view, c);
    assert "chapter 1" !in view.Coverage();
  }

  lemma OldChapterIsNotGuarded()
    ensures !Guarded(RenamedChapter(), OldChapter(), "chapter 1")
  {
    var view := RenamedChapter();
    var c := view.candidates[0];
    RenamedChapterIsPlanned();
    UnblockedStarts(view, c);
    hide View.Superfluous, View.Unblocked, Startable, Needs;
    assert FirstExact(view.records, c) == 1;
    assert c in view.candidates && Displaces(view, c, OldChapter());
    assert "chapter 1" !in c.Chapters() && !Held(view, c, "chapter 1");
  }

  /** Whatever the plan, a run of it can stop where the old chapter is gone and no candidate holds it. */
  lemma RenamedChapterIsLost(plan: Plan) returns (s: Site)
    requires IsPlan(RenamedChapter(), plan)
    ensures Stops(Job(RenamedChapter(), plan), 1, s) && !Holds(s.files, OldChapter())
    ensures !Readable(RenamedChapter(), s.files, "chapter 1")
  {
    RenamedChapterIsPlanned();
    OldChapterIsNotGuarded();
    hide IsPlan, Stops, Coherent, ValidLedger, View.Orderable, View.Unblocked, Guarded, Readable, Holds, RenamedChapter;
    s := UnguardedIsLost(Job(RenamedChapter(), plan), 1, OldChapter(), "chapter 1");
  }
}
