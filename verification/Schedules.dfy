/** Runs that exist: ways through a plan that deliver what is wanted and fail everything else. */
module Schedules {
  import opened Common
  import opened Ledger
  import opened Planner
  import opened Delivery
  import opened Execution
  import R = Reorder

  /** Candidates that can be delivered without the rest: none is stuck and they need only each other. */
  ghost predicate SelfContained(view: View, wanted: set<Id>) {
    NoneStuck(view, wanted) && Closed(view, wanted)
  }

  /** Where nothing was delivered, nothing changed. */
  ghost predicate Untouched(view: View, files: Files, delivered: set<Id>) {
    forall c :: c in view.candidates && c.artifact.id !in delivered ==> SameAt(view.files, files, c.Ref())
  }

  ghost predicate OnSchedule(job: Job, base: nat, wanted: set<Id>, n: nat, s: Site) {
    && Stops(job, base, s) && s.turn == n && s.stage == Idle
    && s.delivered == wanted * Past(job, n)
    && Untouched(job.view, s.files, s.delivered)
    && (!HasBlocked(job.plan.items) && Past(job, n) <= wanted ==> !s.failed)
  }

  /** What a candidate waits for comes before it. */
  lemma NeededIsPast(job: Job, base: nat, n: nat, d: Id)
    requires Sound(job, base) && n < |job.plan.order|
    requires d in R.Lookup(job.plan.dependencies, job.plan.order[n].artifact.id)
    ensures R.Edge(job.view.Graph(), job.plan.order[n].artifact.id, d) && d in Past(job, n)
  {
    hide Coherent, ValidLedger, R.AllCovered, R.Acyclic, View.Orderable, R.Lists, DecidesAll, View.Superfluous, View.Retires;
    var c := job.plan.order[n];
    assert c in multiset(job.plan.order);
    DependsOnEdges(job.view, job.plan, c, d);
    var ids := R.OrderIds(job.plan.order);
    assert R.Edge(job.view.Graph(), ids[n], d);
    assert d in ids[..n];
  }

  lemma GateIsOpen(job: Job, base: nat, wanted: set<Id>, n: nat, s: Site)
    requires Sound(job, base) && OnSchedule(job, base, wanted, n, s) && n < |job.plan.order|
    requires forall d :: R.Edge(job.view.Graph(), job.plan.order[n].artifact.id, d) ==> d in wanted
    ensures Open(job, s)
  {
    hide Sound, Past, Stops, Untouched;
    forall d | d in R.Lookup(job.plan.dependencies, job.plan.order[n].artifact.id)
      ensures d in s.delivered
    {
      NeededIsPast(job, base, n, d);
    }
  }

  /** A candidate that is not stuck and whose path is as it was passes the ownership check. */
  lemma StillIdentified(view: View, files: Files, c: Candidate)
    requires !Stuck(view, c) && SameAt(view.files, files, c.Ref())
    ensures Identified(files, view.records, c) && Identified(view.files, view.records, c)
  {
  }

  lemma UntouchedElsewhere(view: View, files: Files, delivered: set<Id>, c: Candidate)
    requires Coherent(view) && c in view.candidates && Untouched(view, files, delivered)
    ensures Untouched(view, files[c.Ref() := c.artifact.sha], delivered + {c.artifact.id})
  {
    forall other | other in view.candidates && other.artifact.id !in delivered + {c.artifact.id}
      ensures SameAt(view.files, files[c.Ref() := c.artifact.sha], other.Ref())
    {
      if other.Ref() == c.Ref() {
        CandidateAt(view, c, other);
      }
    }
  }

  /** Behind an open gate, a candidate in need of delivery can be announced and written. */
  lemma CanWrite(job: Job, base: nat, s: Site) returns (t: Site)
    requires Sound(job, base) && Stops(job, base, s) && SiteKept(job, s) && Delivering(job, s) && s.stage == Idle && Open(job, s)
    requires Turn(job, s) in job.view.candidates && Delivers(job.view, Turn(job, s)) && !Stuck(job.view, Turn(job, s))
    requires SameAt(job.view.files, s.files, Turn(job, s).Ref())
    ensures Stops(job, base, t) && t.turn == s.turn && t.delivered == s.delivered && t.failed == s.failed
    ensures Enabled(job, t, Publish)
    ensures t.files == (if Intact(s.files, Turn(job, s)) then s.files else s.files[Turn(job, s).Ref() := Turn(job, s).artifact.sha])
    ensures t.ledger == Upserted(s.ledger, DeliveryRow(Turn(job, s), s.nextId, Publishing))
  {
    hide Sound, Stops, SiteKept, IsPlan, Stuck, Upserted, ActionOf, R.Lookup, OwnedAt, ActionFor, Clear, Coherent, R.DistinctIds;
    var c := Turn(job, s);
    StillIdentified(job.view, s.files, c);
    SoundPlan(job, base);
    ActsOn(job.view, job.plan, c);
    StopsAfter(job, base, s, Announce);
    t := Apply(job, s, Announce);
    if !Intact(t.files, c) {
      StopsAfter(job, base, t, Write);
      t := Apply(job, t, Write);
    }
  }

  lemma SoundPlan(job: Job, base: nat)
    requires Sound(job, base)
    ensures IsPlan(job.view, job.plan) && R.DistinctIds(job.view.candidates) && Coherent(job.view)
  {
  }

  /** One more turn of the schedule: deliver the candidate if it is wanted, else let it fail. */
  lemma NextTurn(job: Job, base: nat, wanted: set<Id>, n: nat, s: Site) returns (t: Site)
    requires Sound(job, base) && SelfContained(job.view, wanted) && n < |job.plan.order|
    requires OnSchedule(job, base, wanted, n, s)
    ensures OnSchedule(job, base, wanted, n + 1, t)
  {
    hide Sound, Stops, Reached, IsPlan, Past, Untouched, Stuck, Progress, StageKept, PhaseKept, ValidLedger, ArtifactsAgree,
         Coherent, R.DistinctIds, Open;
    var c := Turn(job, s);
    StopsKept(job, base, s);
    SoundPlan(job, base);
    TurnIsNext(job, s);
    if c.artifact.id in wanted {
      GateIsOpen(job, base, wanted, n, s);
      t := WantedTurn(job, base, wanted, n, s);
    } else {
      StopsAfter(job, base, s, Skip);
      t := Apply(job, s, Skip);
    }
  }

  lemma WantedTurn(job: Job, base: nat, wanted: set<Id>, n: nat, s: Site) returns (t: Site)
    requires Sound(job, base) && SiteKept(job, s) && n < |job.plan.order| && OnSchedule(job, base, wanted, n, s)
    requires Turn(job, s) in job.view.candidates && Turn(job, s).artifact.id in wanted && !Stuck(job.view, Turn(job, s))
    requires Open(job, s) && Turn(job, s).artifact.id !in s.delivered
    requires Past(job, n + 1) == Past(job, n) + {Turn(job, s).artifact.id}
    ensures OnSchedule(job, base, wanted, n + 1, t)
  {
    hide Sound, Stops, SiteKept, IsPlan, Past, Stuck, ActionFor, ActionOf, R.Lookup, Coherent, R.DistinctIds, Upserted,
         HasBlocked, Clear, Untouched, Intact;
    var c := Turn(job, s);
    SoundPlan(job, base);
    UntouchedAt(job.view, s.files, s.delivered, c);
    UntouchedMore(job.view, s.files, s.delivered, c);
    StillIdentified(job.view, s.files, c);
    NotStuckActs(job.view, c);
    if job.view.Action(c) == Unchanged {
      ActsOn(job.view, job.plan, c);
      StopsAfter(job, base, s, Keep);
      t := Apply(job, s, Keep);
    } else {
      var w := CanWrite(job, base, s);
      UntouchedElsewhere(job.view, s.files, s.delivered, c);
      StopsAfter(job, base, w, Publish);
      t := Apply(job, w, Publish);
    }
  }

  lemma UntouchedAt(view: View, files: Files, delivered: set<Id>, c: Candidate)
    requires Untouched(view, files, delivered) && c in view.candidates && c.artifact.id !in delivered
    ensures SameAt(view.files, files, c.Ref())
  {
  }

  lemma NotStuckActs(view: View, c: Candidate)
    requires !Stuck(view, c) && c in view.candidates
    ensures view.Action(c) == Unchanged || Delivers(view, c)
  {
  }

  lemma UntouchedMore(view: View, files: Files, delivered: set<Id>, c: Candidate)
    requires Untouched(view, files, delivered)
    ensures Untouched(view, files, delivered + {c.artifact.id})
  {
  }

  /** Exactly the wanted candidates among the first `n` can be delivered. */
  lemma {:induction false} DeliverWanted(job: Job, base: nat, wanted: set<Id>, n: nat) returns (s: Site)
    requires Sound(job, base) && SelfContained(job.view, wanted) && n <= |job.plan.order|
    ensures OnSchedule(job, base, wanted, n, s)
  {
    if n == 0 {
      s := Start(job, base);
      StopsAtStart(job, base);
    } else {
      hide Sound, SelfContained, OnSchedule;
      var p := DeliverWanted(job, base, wanted, n - 1);
      s := NextTurn(job, base, wanted, n - 1, p);
    }
  }

  /* ---- Writing one candidate ---- */

  ghost function NeededIds(view: View, c: Candidate): set<Id> {
    set d | d in R.Ids(view.candidates) && R.Connected(view.Graph(), c.artifact.id, d)
  }

  lemma NeededIsSelfContained(view: View, c: Candidate)
    requires Startable(view, c)
    ensures SelfContained(view, NeededIds(view, c))
    ensures forall d :: R.Edge(view.Graph(), c.artifact.id, d) ==> d in NeededIds(view, c)
  {
    var graph := view.Graph();
    hide Stuck, R.Connected;
    forall d | R.Edge(graph, c.artifact.id, d)
      ensures d in NeededIds(view, c)
    {
      R.EdgeConnects(graph, c.artifact.id, d);
    }
    forall a, b | a in NeededIds(view, c) && R.Edge(graph, a, b)
      ensures b in NeededIds(view, c)
    {
      R.ConnectedFurther(graph, c.artifact.id, a, b);
    }
  }

  /** The run stands at a candidate that is announced and in place but not yet recorded as published. */
  ghost predicate Replacing(job: Job, base: nat, c: Candidate, s: Site) {
    && Stops(job, base, s) && SiteKept(job, s) && s.turn < |job.plan.order|
    && Turn(job, s) == c && Enabled(job, s, Publish)
    && Intact(s.files, c) && HasRow(s.ledger, c, Publishing) && !Cleaning(job.view, s.ledger)
    && forall other :: other in job.view.candidates && other != c && !Needs(job.view, c, other) ==>
         SameAt(job.view.files, s.files, other.Ref())
  }

  /** Any candidate that can be started can be written while everything it does not need is left alone. */
  lemma CanReplace(job: Job, base: nat, c: Candidate) returns (s: Site)
    requires Sound(job, base) && Delivers(job.view, c) && Startable(job.view, c)
    ensures Replacing(job, base, c, s)
  {
    SoundPlan(job, base);
    var n := PlaceInOrder(job, c);
    var wanted := NeededIds(job.view, c);
    NeededIsSelfContained(job.view, c);
    var p := DeliverWanted(job, base, wanted, n);
    GateIsOpen(job, base, wanted, n, p);
    StopsKept(job, base, p);
    s := ReplaceFrom(job, base, c, n, p);
  }

  lemma PlaceInOrder(job: Job, c: Candidate) returns (n: nat)
    requires IsPlan(job.view, job.plan) && c in job.view.candidates
    ensures n < |job.plan.order| && job.plan.order[n] == c
  {
    assert c in multiset(job.plan.order);
    n :| 0 <= n < |job.plan.order| && job.plan.order[n] == c;
  }

  lemma ReplaceFrom(job: Job, base: nat, c: Candidate, n: nat, p: Site) returns (s: Site)
    requires Sound(job, base) && Delivers(job.view, c) && Startable(job.view, c) && SiteKept(job, p)
    requires n < |job.plan.order| && job.plan.order[n] == c
    requires OnSchedule(job, base, NeededIds(job.view, c), n, p) && Open(job, p)
    ensures Replacing(job, base, c, s)
  {
    hide Sound, Stops, IsPlan, Past, Stuck, ActionFor, R.Lookup, Upserted, HasRow, Cleaning, Reached, ValidLedger, Open,
         Coherent, R.DistinctIds, Progress, StageKept, ArtifactsAgree, Untouched, HasBlocked, Needs, NeededIds, Startable;
    SoundPlan(job, base);
    TurnIsNext(job, p);
    UntouchedAt(job.view, p.files, p.delivered, c);
    StartableIsFree(job.view, c);
    s := CanWrite(job, base, p);
    StopsKept(job, base, s);
    DeliveryRowStep(job.view, p.files, p.ledger, c, p.nextId, Publishing);
    forall other | other in job.view.candidates && other != c && !Needs(job.view, c, other)
      ensures SameAt(job.view.files, s.files, other.Ref())
    {
      NotNeeded(job.view, c, other);
      UntouchedAt(job.view, p.files, p.delivered, other);
      DifferentPlace(job.view, c, other);
    }
  }

  lemma StartableIsFree(view: View, c: Candidate)
    requires Startable(view, c)
    ensures !Stuck(view, c)
  {
  }

  lemma NotNeeded(view: View, c: Candidate, other: Candidate)
    requires !Needs(view, c, other)
    ensures other.artifact.id !in NeededIds(view, c)
  {
  }

  lemma DifferentPlace(view: View, c: Candidate, other: Candidate)
    requires Coherent(view) && c in view.candidates && other in view.candidates && other != c
    ensures other.Ref() != c.Ref()
  {
    if other.Ref() == c.Ref() {
      CandidateAt(view, c, other);
    }
  }

  /* ---- Retiring all but one ---- */

  /** Every record retired in the first `n` turns is superseded, but for record `i`, which is as it was. */
  ghost predicate RetiredOthers(job: Job, base: nat, ledger0: seq<Record>, i: nat, n: nat, s: Site)
    requires n <= |job.plan.retirements|
  {
    && Stops(job, base, s) && s.turn == |job.plan.order| + n && !s.failed
    && |s.ledger| == |ledger0| && |job.view.records| <= |ledger0|
    && (i < |ledger0| ==> s.ledger[i] == ledger0[i])
    && forall j :: 0 <= j < |job.view.records| && j != i && job.view.records[j].id in job.plan.retirements[..n] ==>
         s.ledger[j].status == Superseded
  }

  lemma AtFreePath(job: Job, base: nat, s: Site)
    requires Sound(job, base) && Stops(job, base, s) && Retiring(job, s)
    ensures Retiree(job, s) < |job.view.records|
    ensures var r := job.view.records[Retiree(job, s)];
            !Occupied(job.view, r.ref) && r.ref in s.files ==> s.files[r.ref] in RetirementOwned(job.view.records, r)
  {
    StopsKept(job, base, s);
    SoundPlan(job, base);
    hide IsPlan, Stops, Progress, StageKept, PhaseKept, View.Superfluous, RetirementOwned, LedgerEvolves, AllIntact;
    assert ValidLedger(job.view.records, base);
    PlannedRetires(job, base, s);
    var r := job.view.records[Retiree(job, s)];
    if !Occupied(job.view, r.ref) {
      assert FreePathEvolves(job.view, s.files, r.ref);
    }
  }

  /** The record whose turn it is can be superseded. */
  lemma CanSupersede(job: Job, base: nat, s: Site) returns (t: Site)
    requires Sound(job, base) && Stops(job, base, s) && Retiring(job, s)
    ensures Stops(job, base, t) && t.turn == s.turn + 1 && !t.failed
    ensures Retiree(job, s) < |job.view.records|
    ensures t.ledger == Upserted(s.ledger, job.view.records[Retiree(job, s)].(status := Superseded))
  {
    hide Sound, Stops, Occupied, RetirementOwned, Upserted, RecordAt;
    AtFreePath(job, base, s);
    var r := job.view.records[Retiree(job, s)];
    t := s;
    if !Occupied(job.view, r.ref) && r.ref in s.files {
      StopsAfter(job, base, t, Remove);
      t := Apply(job, t, Remove);
    }
    StopsAfter(job, base, t, Supersede);
    t := Apply(job, t, Supersede);
  }

  lemma SupersedesRow(job: Job, base: nat, s: Site)
    requires Sound(job, base) && Stops(job, base, s) && Retiring(job, s)
    ensures Retiree(job, s) < |job.view.records| <= |s.ledger|
    ensures var k := Retiree(job, s);
            var prior := job.view.records[k].(status := Superseded);
            Upserted(s.ledger, prior) == s.ledger[k := prior]
  {
    StopsKept(job, base, s);
    SoundPlan(job, base);
    hide IsPlan, Stops, Progress, StageKept, PhaseKept, View.Retires, Upserted, RecordAt;
    assert ValidLedger(job.view.records, base);
    PlannedRetires(job, base, s);
    SupersededRow(job.view, s.files, s.ledger, base, s.nextId, Retiree(job, s));
  }

  lemma {:induction false} RetireOthers(job: Job, base: nat, s0: Site, i: nat, n: nat) returns (s: Site)
    requires Sound(job, base) && Stops(job, base, s0) && s0.turn == |job.plan.order| && !s0.failed
    requires n <= |job.plan.retirements|
    ensures RetiredOthers(job, base, s0.ledger, i, n, s)
  {
    if n == 0 {
      s := s0;
      LedgerIsLonger(job, base, s);
    } else {
      var p := RetireOthers(job, base, s0, i, n - 1);
      s := RetireNext(job, base, s0.ledger, i, n - 1, p);
    }
  }

  lemma LedgerIsLonger(job: Job, base: nat, s: Site)
    requires Sound(job, base) && Stops(job, base, s)
    ensures |job.view.records| <= |s.ledger|
  {
    StopsKept(job, base, s);
  }

  lemma RetireNext(job: Job, base: nat, ledger0: seq<Record>, i: nat, n: nat, p: Site) returns (s: Site)
    requires Sound(job, base) && n < |job.plan.retirements| && RetiredOthers(job, base, ledger0, i, n, p)
    ensures RetiredOthers(job, base, ledger0, i, n + 1, s)
  {
    hide Sound, Stops, Upserted, RecordAt;
    var ids := job.plan.retirements;
    assert ids[..n + 1] == ids[..n] + [ids[n]];
    OnlyOneId(job, base);
    var k := Retiree(job, p);
    SupersedesRow(job, base, p);
    if k == i {
      StopsAfter(job, base, p, Skip);
      s := Apply(job, p, Skip);
    } else {
      s := CanSupersede(job, base, p);
    }
    assert job.view.records[k].id == ids[n] by {
      RecordHasId(job.view.records, ids[n]);
    }
  }

  lemma RecordHasId(records: seq<Record>, id: nat)
    ensures RecordAt(records, id) < |records| ==> records[RecordAt(records, id)].id == id
  {
  }

  lemma OnlyOneId(job: Job, base: nat)
    requires Sound(job, base)
    ensures forall a, b :: 0 <= a < b < |job.view.records| ==> job.view.records[a].id != job.view.records[b].id
  {
  }
}
