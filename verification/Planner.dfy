/**
 * The delivery planner: from the candidates, the files on disk and the ledger to one action per
 * candidate and the set of records to retire.
 */
module Planner {
  import opened Common
  import opened Ledger
  import R = Reorder

  datatype Action = Add | Replace | Repair | Unchanged | Retire | Blocked

  datatype Item = Item(artifact: Id, ref: Path, action: Action)

  datatype Plan = Plan(order: seq<Candidate>, dependencies: map<Id, seq<Id>>,
                       items: seq<Item>, retirements: seq<nat>)

  /** Identifies a delivered output: a record whose key no candidate desires is up for retirement. */
  datatype Key = Key(ref: Path, artifact: Id, filename: string)

  function CandidateKey(c: Candidate): Key {
    Key(c.Ref(), c.artifact.id, c.filename)
  }

  function RecordKey(r: Record): Key {
    Key(r.ref, r.artifact.id, r.filename)
  }

  /* ---- Ownership ---- */

  /** CheckFilesystemDestination: nothing there, or bytes the caller owns. */
  predicate Clear(files: Files, path: Path, owned: set<Hash>) {
    path in files ==> files[path] in owned
  }

  function OwnedAt(records: seq<Record>, path: Path): set<Hash> {
    set r | r in records && r.ref == path && r.Live() :: r.artifact.sha
  }

  function RetirementOwned(records: seq<Record>, prior: Record): set<Hash> {
    {prior.artifact.sha} +
    set r | r in records && prior.release != "" && r.status == Published &&
            r.release == prior.release && r.ref == prior.ref :: r.artifact.sha
  }

  method OwnedHashesForPath(records: seq<Record>, path: Path) returns (hashes: seq<Hash>)
    ensures Elems(hashes) == OwnedAt(records, path)
  {
    hashes := [];
    for i := 0 to |records|
      invariant Elems(hashes) == OwnedAt(records[..i], path)
    {
      var r := records[i];
      assert records[..i + 1] == records[..i] + [r];
      assert OwnedAt(records[..i + 1], path) == OwnedAt(records[..i], path) + OwnedAt([r], path);
      if r.ref == path && r.Live() {
        assert Elems(hashes + [r.artifact.sha]) == Elems(hashes) + {r.artifact.sha};
        assert r in [r] && OwnedAt([r], path) == {r.artifact.sha};
        hashes := hashes + [r.artifact.sha];
      }
    }
    assert records[..|records|] == records;
  }

  method RetirementOwnedHashes(records: seq<Record>, prior: Record) returns (hashes: seq<Hash>)
    ensures Elems(hashes) == RetirementOwned(records, prior)
  {
    hashes := [prior.artifact.sha];
    if prior.release == "" {
      return;
    }
    for i := 0 to |records|
      invariant Elems(hashes) == RetirementOwned(records[..i], prior)
    {
      var r := records[i];
      assert records[..i + 1] == records[..i] + [r];
      assert RetirementOwned(records[..i + 1], prior) == RetirementOwned(records[..i], prior) + RetirementOwned([r], prior);
      if r.status == Published && r.release == prior.release && r.ref == prior.ref {
        assert Elems(hashes + [r.artifact.sha]) == Elems(hashes) + {r.artifact.sha};
        assert r in [r] && RetirementOwned([r], prior) == {prior.artifact.sha, r.artifact.sha};
        hashes := hashes + [r.artifact.sha];
      }
    }
    assert records[..|records|] == records;
  }

  /* ---- One candidate ---- */

  predicate Intact(files: Files, c: Candidate) {
    c.Ref() in files && files[c.Ref()] == c.artifact.sha
  }

  predicate Identified(files: Files, records: seq<Record>, c: Candidate) {
    Clear(files, c.Ref(), OwnedAt(records, c.Ref()))
  }

  /** A published record of the same release, at the same place, with the same bytes. */
  predicate Exact(c: Candidate, r: Record) {
    && r.status == Published && !c.planned
    && c.artifact.release == r.artifact.release && c.artifact.track == r.artifact.track
    && r.ref == c.Ref() && c.artifact.sha == r.artifact.sha && c.artifact.sha != ""
    && r.hash == c.Hash()
  }

  function FirstExact(records: seq<Record>, c: Candidate): (k: nat)
    ensures k <= |records|
    ensures k < |records| ==> Exact(c, records[k])
    ensures forall i :: 0 <= i < k ==> !Exact(c, records[i])
  {
    if records == [] || Exact(c, records[0]) then 0 else 1 + FirstExact(records[1..], c)
  }

  predicate AtDestination(records: seq<Record>, c: Candidate) {
    exists r :: r in records && r.status == Published && r.ref == c.Ref()
  }

  function ActionFor(files: Files, records: seq<Record>, c: Candidate): Action {
    if !Identified(files, records, c) then Blocked
    else if FirstExact(records, c) < |records| then (if Intact(files, c) then Unchanged else Repair)
    else if AtDestination(records, c) then Replace
    else Add
  }

  /** The keys one candidate keeps: its own, and that of the record it is unchanged from. */
  function KeysOf(files: Files, records: seq<Record>, c: Candidate): set<Key> {
    var k := FirstExact(records, c);
    if k < |records| && ActionFor(files, records, c) == Unchanged
    then {CandidateKey(c), RecordKey(records[k])}
    else {CandidateKey(c)}
  }

  /** What one planning pass looks at. */
  datatype View = View(files: Files, records: seq<Record>, volumes: seq<Edition>, candidates: seq<Candidate>)
  {
    function Action(c: Candidate): Action {
      ActionFor(files, records, c)
    }

    function Desired(): set<Key> {
      set c, key | c in candidates && key in KeysOf(files, records, c) :: key
    }

    function Coverage(): set<Id> {
      set c, m | c in candidates && m in c.Chapters() :: m
    }

    /** Published, desired by no candidate, and all its chapters are covered. */
    predicate Superfluous(r: Record) {
      && r in records && r.status == Published && RecordKey(r) !in Desired()
      && Complete(volumes, r, Coverage())
    }

    predicate Retires(r: Record) {
      Superfluous(r) && Retirable(files, records, r)
    }

    ghost predicate RetiresId(id: nat) {
      exists r :: r in records && Retires(r) && r.id == id
    }

    ghost predicate HasRetireItem(item: Item) {
      exists r :: r in records && Superfluous(r) && item == RetireItem(files, records, r)
    }

    /** Nothing in the plan is blocked. */
    ghost predicate Unblocked() {
      && (forall c :: c in candidates ==> Identified(files, records, c))
      && (forall r :: r in records && Superfluous(r) ==> Retirable(files, records, r))
    }

    ghost function Graph(): map<Id, set<Id>> {
      R.Graph(candidates, records, volumes)
    }

    ghost predicate Orderable() {
      R.AllCovered(candidates, records, volumes) && R.Acyclic(Graph())
    }
  }

  /** planDelivery's loop over the records, for one candidate. */
  method Decide(files: Files, records: seq<Record>, c: Candidate) returns (action: Action, kept: Option<Key>)
    ensures action == ActionFor(files, records, c)
    ensures KeysOf(files, records, c) == {CandidateKey(c)} + (if kept.Some? then {kept.value} else {})
  {
    var owned := OwnedHashesForPath(records, c.Ref());
    assert forall h :: h in owned <==> h in Elems(owned);
    if c.Ref() in files && files[c.Ref()] !in owned {
      return Blocked, None;
    }
    action := Add;
    kept := None;
    for i := 0 to |records|
      invariant kept.None?
      invariant action == if AtDestination(records[..i], c) then Replace else Add
      invariant forall j :: 0 <= j < i ==> !Exact(c, records[j])
    {
      var r := records[i];
      if r.status != Published {
        continue;
      }
      if r.ref == c.Ref() {
        assert r in records[..i + 1];
        action := Replace;
      }
      if Exact(c, r) {
        assert FirstExact(records, c) == i;
        if Intact(files, c) {
          return Unchanged, Some(RecordKey(r));
        }
        return Repair, None;
      }
    }
    assert records[..|records|] == records;
    assert FirstExact(records, c) == |records|;
  }

  /* ---- Retirement ---- */

  /** Everything the record delivered is covered: the members of its edition, or its release. */
  predicate Complete(volumes: seq<Edition>, prior: Record, covered: set<Id>) {
    if volumes == [] then prior.release in covered
    else
      var last := volumes[|volumes| - 1];
      if last.artifact == prior.artifact.id then Elems(last.members) <= covered
      else Complete(volumes[..|volumes| - 1], prior, covered)
  }

  predicate Retirable(files: Files, records: seq<Record>, r: Record) {
    Clear(files, r.ref, RetirementOwned(records, r))
  }

  method IsComplete(volumes: seq<Edition>, prior: Record, covered: set<Id>) returns (complete: bool)
    ensures complete == Complete(volumes, prior, covered)
  {
    complete := prior.release in covered;
    for i := 0 to |volumes|
      invariant complete == Complete(volumes[..i], prior, covered)
    {
      var v := volumes[i];
      assert volumes[..i + 1][..i] == volumes[..i];
      if v.artifact == prior.artifact.id {
        complete := true;
        for k := 0 to |v.members|
          invariant complete == (Elems(v.members[..k]) <= covered)
        {
          assert Elems(v.members[..k + 1]) == Elems(v.members[..k]) + {v.members[k]};
          if v.members[k] !in covered {
            complete := false;
          }
        }
        assert v.members[..|v.members|] == v.members;
      }
    }
    assert volumes[..|volumes|] == volumes;
  }

  /* ---- The plan ---- */

  function CandidateItem(files: Files, records: seq<Record>, c: Candidate): Item {
    Item(c.artifact.id, c.Ref(), ActionFor(files, records, c))
  }

  function RetireItem(files: Files, records: seq<Record>, r: Record): Item {
    Item(r.artifact.id, r.ref, if Retirable(files, records, r) then Retire else Blocked)
  }

  ghost predicate IsPlan(view: View, plan: Plan) {
    && view.Orderable()
    && multiset(plan.order) == multiset(view.candidates)
    && R.Topological(view.Graph(), R.OrderIds(plan.order))
    && (forall c :: c in view.candidates ==> R.Lists(view.candidates, view.records, view.volumes, plan.dependencies, c))
    && DecidesAll(view, plan.items)
    && (forall i :: |view.candidates| <= i < |plan.items| ==> view.HasRetireItem(plan.items[i]))
    && (forall r :: view.Superfluous(r) ==> RetireItem(view.files, view.records, r) in plan.items)
    && (forall r :: view.Retires(r) ==> r.id in plan.retirements)
    && (forall id :: id in plan.retirements ==> view.RetiresId(id))
  }

  ghost predicate DecidesAll(view: View, items: seq<Item>) {
    && |items| >= |view.candidates|
    && forall i :: 0 <= i < |view.candidates| ==>
         items[i] == CandidateItem(view.files, view.records, view.candidates[i])
  }

  /** None when the target rejects the order: a chapter without a candidate, or a cycle. */
  method PlanDelivery(view: View) returns (plan: Option<Plan>, cyclic: bool)
    requires R.DistinctIds(view.candidates)
    ensures plan.Some? <==> view.Orderable()
    ensures plan.Some? ==> IsPlan(view, plan.value)
    ensures plan.Some? ==> R.AsListed(view.Graph(), R.OrderIds(view.candidates), R.OrderIds(plan.value.order))
    ensures cyclic <==>
            R.AllCovered(view.candidates, view.records, view.volumes) && !R.Acyclic(view.Graph())
  {
    var ordering := R.Reorder(view.candidates, view.records, view.volumes);
    if !ordering.Ordered? {
      return None, ordering.Cyclic?;
    }
    var items, desired, covered := DecideAll(view);
    var retired, retirements := PlanRetirements(view, desired, covered);
    plan := Some(Plan(ordering.order, ordering.dependencies, items + retired, retirements));
    cyclic := false;
    forall r | view.Superfluous(r)
      ensures RetireItem(view.files, view.records, r) in items + retired
    {
      assert RetireItem(view.files, view.records, r) in retired;
    }
  }

  method DecideAll(view: View) returns (items: seq<Item>, desired: set<Key>, covered: set<Id>)
    ensures |items| == |view.candidates| && DecidesAll(view, items)
    ensures desired == view.Desired() && covered == view.Coverage()
  {
    hide KeysOf, View.Desired, View.Coverage, Candidate.Chapters;
    var candidates := view.candidates;
    items, desired, covered := [], {}, {};
    NoCandidate(view);
    for i := 0 to |candidates|
      invariant |items| == i
      invariant forall j :: 0 <= j < i ==> items[j] == CandidateItem(view.files, view.records, candidates[j])
      invariant desired == view.(candidates := candidates[..i]).Desired()
      invariant covered == view.(candidates := candidates[..i]).Coverage()
    {
      var c := candidates[i];
      OneMoreCandidate(view, i);
      var action, kept := Decide(view.files, view.records, c);
      desired := desired + {CandidateKey(c)};
      if kept.Some? {
        desired := desired + {kept.value};
      }
      covered := covered + c.Chapters();
      items := items + [Item(c.artifact.id, c.Ref(), action)];
    }
    assert candidates[..|candidates|] == candidates;
  }

  lemma NoCandidate(view: View)
    ensures view.(candidates := view.candidates[..0]).Desired() == {} && view.(candidates := view.candidates[..0]).Coverage() == {}
  {
  }

  lemma OneMoreCandidate(view: View, i: nat)
    requires i < |view.candidates|
    ensures var before, after := view.(candidates := view.candidates[..i]), view.(candidates := view.candidates[..i + 1]);
            && after.Desired() == before.Desired() + KeysOf(view.files, view.records, view.candidates[i])
            && after.Coverage() == before.Coverage() + view.candidates[i].Chapters()
  {
    hide KeysOf;
    assert view.candidates[..i + 1] == view.candidates[..i] + [view.candidates[i]];
  }

  method PlanRetirements(view: View, desired: set<Key>, covered: set<Id>)
    returns (items: seq<Item>, retirements: seq<nat>)
    requires desired == view.Desired() && covered == view.Coverage()
    ensures forall r :: view.Superfluous(r) ==> RetireItem(view.files, view.records, r) in items
    ensures forall item :: item in items ==> view.HasRetireItem(item)
    ensures forall r :: view.Retires(r) ==> r.id in retirements
    ensures forall id :: id in retirements ==> view.RetiresId(id)
  {
    var records := view.records;
    items, retirements := [], [];
    for i := 0 to |records|
      invariant forall j :: 0 <= j < i && view.Superfluous(records[j]) ==> RetireItem(view.files, records, records[j]) in items
      invariant forall item :: item in items ==> view.HasRetireItem(item)
      invariant forall j :: 0 <= j < i && view.Retires(records[j]) ==> records[j].id in retirements
      invariant forall id :: id in retirements ==> view.RetiresId(id)
    {
      var prior := records[i];
      var planned := false;
      if prior.status == Published && RecordKey(prior) !in desired {
        planned := IsComplete(view.volumes, prior, covered);
      }
      if planned {
        var owned := RetirementOwnedHashes(records, prior);
        assert forall h :: h in owned <==> h in Elems(owned);
        var clear := prior.ref in view.files ==> view.files[prior.ref] in owned;
        assert view.Superfluous(prior) && clear == Retirable(view.files, records, prior);
        assert view.HasRetireItem(RetireItem(view.files, records, prior));
        items := items + [Item(prior.artifact.id, prior.ref, if clear then Retire else Blocked)];
        if clear {
          assert view.RetiresId(prior.id);
          retirements := retirements + [prior.id];
        }
      }
    }
  }
}
