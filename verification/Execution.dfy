/**
 * The steps of one plan: what the executor does to files and ledger, one effect at a time. A fault may
 * end any turn and a crash may stop at any site, so the sites are the states a run can leave behind.
 */
module Execution {
  import opened Common
  import opened Ledger
  import opened Planner
  import opened Delivery
  import R = Reorder

  datatype Job = Job(view: View, plan: Plan)

  /** How far the current candidate is: untouched, in the ledger, or written as well. */
  datatype Stage = Idle | Announced | Written

  /** `turn` counts the candidates in delivery order and then the retirements. */
  datatype Site = Site(files: Files, ledger: seq<Record>, nextId: nat, turn: nat, stage: Stage, delivered: set<Id>, failed: bool)

  datatype Effect = Skip | Keep | Announce | Write | Publish | Remove | Supersede

  /** itemByID: the last item of an artifact that is not a retirement. */
  function ActionOf(items: seq<Item>, id: Id): Option<Action> {
    if items == [] then None
    else
      var last := items[|items| - 1];
      if last.action != Retire && last.artifact == id then Some(last.action)
      else ActionOf(items[..|items| - 1], id)
  }

  /** The record with this id, or the number of records. */
  function RecordAt(records: seq<Record>, id: nat): (k: nat)
    ensures k <= |records|
    ensures k < |records| ==> records[k].id == id
    ensures forall i :: 0 <= i < k ==> records[i].id != id
  {
    if records == [] || records[0].id == id then 0 else 1 + RecordAt(records[1..], id)
  }

  predicate Delivering(job: Job, s: Site) {
    s.turn < |job.plan.order|
  }

  /** Retirement begins when every delivery succeeded. */
  predicate Retiring(job: Job, s: Site) {
    !s.failed && |job.plan.order| <= s.turn < |job.plan.order| + |job.plan.retirements|
  }

  function Turn(job: Job, s: Site): Candidate
    requires Delivering(job, s)
  {
    job.plan.order[s.turn]
  }

  function Retiree(job: Job, s: Site): nat
    requires Retiring(job, s)
  {
    RecordAt(job.view.records, job.plan.retirements[s.turn - |job.plan.order|])
  }

  /** The gate: everything the candidate waits for directly has been delivered. */
  predicate Open(job: Job, s: Site)
    requires Delivering(job, s)
  {
    Elems(R.Lookup(job.plan.dependencies, Turn(job, s).artifact.id)) <= s.delivered
  }

  function Planned(job: Job, s: Site): Option<Action>
    requires Delivering(job, s)
  {
    ActionOf(job.plan.items, Turn(job, s).artifact.id)
  }

  ghost predicate Enabled(job: Job, s: Site, e: Effect) {
    match e
    case Skip => Delivering(job, s) || Retiring(job, s)
    case Keep =>
      && Delivering(job, s) && s.stage == Idle && Open(job, s) && Planned(job, s) == Some(Unchanged)
      && Identified(s.files, job.view.records, Turn(job, s))
    case Announce =>
      && Delivering(job, s) && s.stage == Idle && Open(job, s) && Planned(job, s) in {Some(Add), Some(Replace), Some(Repair)}
      && Identified(s.files, job.view.records, Turn(job, s))
    case Write =>
      && Delivering(job, s) && s.stage == Announced && !Intact(s.files, Turn(job, s))
      && Clear(s.files, Turn(job, s).Ref(), OwnedAt(job.view.records, Turn(job, s).Ref()))
    case Publish => Delivering(job, s) && s.stage != Idle && Intact(s.files, Turn(job, s))
    case Remove =>
      && Retiring(job, s) && Retiree(job, s) < |job.view.records|
      && var r := job.view.records[Retiree(job, s)];
         !Occupied(job.view, r.ref) && r.ref in s.files && s.files[r.ref] in RetirementOwned(job.view.records, r)
    case Supersede =>
      && Retiring(job, s) && Retiree(job, s) < |job.view.records|
      && var r := job.view.records[Retiree(job, s)];
         Occupied(job.view, r.ref) || r.ref !in s.files
  }

  function Announcing(s: Site, c: Candidate, status: Status): Site {
    s.(ledger := Upserted(s.ledger, DeliveryRow(c, s.nextId, status)), nextId := s.nextId + 1)
  }

  function Passed(s: Site): Site {
    s.(turn := s.turn + 1, stage := Idle)
  }

  ghost function Apply(job: Job, s: Site, e: Effect): Site
    requires Enabled(job, s, e)
  {
    match e
    case Skip => Passed(s).(failed := s.failed || Delivering(job, s))
    case Keep => Passed(s).(delivered := s.delivered + {Turn(job, s).artifact.id})
    case Announce => Announcing(s, Turn(job, s), Publishing).(stage := Announced)
    case Write => s.(files := s.files[Turn(job, s).Ref() := Turn(job, s).artifact.sha], stage := Written)
    case Publish => Passed(Announcing(s, Turn(job, s), Published)).(delivered := s.delivered + {Turn(job, s).artifact.id})
    case Remove => s.(files := s.files - {job.view.records[Retiree(job, s)].ref})
    case Supersede => Passed(s).(ledger := Upserted(s.ledger, job.view.records[Retiree(job, s)].(status := Superseded)))
  }

  ghost predicate HasBlocked(items: seq<Item>) {
    exists item :: item in items && item.action == Blocked
  }

  ghost function Start(job: Job, base: nat): Site {
    Site(job.view.files, job.view.records, base, 0, Idle, {}, HasBlocked(job.plan.items))
  }

  ghost predicate Comes(job: Job, base: nat, s: Site, n: nat)
    decreases n
  {
    if n == 0 then s == Start(job, base) else exists p :: Comes(job, base, p, n - 1) && Follows(job, p, s)
  }

  ghost predicate Follows(job: Job, p: Site, s: Site) {
    exists e :: Enabled(job, p, e) && s == Apply(job, p, e)
  }

  /** A run of the plan can stop here. */
  ghost predicate Stops(job: Job, base: nat, s: Site) {
    exists n: nat :: Comes(job, base, s, n)
  }

  lemma StopsAtStart(job: Job, base: nat)
    ensures Stops(job, base, Start(job, base))
  {
    assert Comes(job, base, Start(job, base), 0);
  }

  lemma StopsAfter(job: Job, base: nat, s: Site, e: Effect)
    requires Stops(job, base, s) && Enabled(job, s, e)
    ensures Stops(job, base, Apply(job, s, e))
  {
    hide Enabled, Apply;
    var n: nat :| Comes(job, base, s, n);
    assert Follows(job, s, Apply(job, s, e));
    assert Comes(job, base, Apply(job, s, e), n + 1);
  }

  /* ---- The plan's items ---- */

  ghost predicate Itemized(view: View, items: seq<Item>) {
    && |view.candidates| <= |items|
    && (forall i :: 0 <= i < |view.candidates| ==>
          items[i].artifact == view.candidates[i].artifact.id && items[i].action == view.Action(view.candidates[i]) != Retire)
    && (forall i :: |view.candidates| <= i < |items| ==> items[i].action in {Retire, Blocked})
  }

  lemma PlanItems(view: View, plan: Plan)
    requires IsPlan(view, plan)
    ensures Itemized(view, plan.items)
  {
    hide R.Acyclic, R.Topological, R.AllCovered, R.Lists, View.Orderable, View.Superfluous, View.Retires;
    forall i | |view.candidates| <= i < |plan.items|
      ensures plan.items[i].action in {Retire, Blocked}
    {
      assert view.HasRetireItem(plan.items[i]);
    }
  }

  lemma NothingBlocked(view: View, plan: Plan)
    requires IsPlan(view, plan) && view.Unblocked()
    ensures !HasBlocked(plan.items)
  {
    hide R.Acyclic, R.AllCovered, R.Topological, R.Lists, View.Superfluous, Retirable, View.Orderable, Identified;
    forall i | 0 <= i < |plan.items|
      ensures plan.items[i].action != Blocked
    {
      if i >= |view.candidates| {
        assert view.HasRetireItem(plan.items[i]);
      }
    }
  }

  /** A blocked retirement of this artifact among the items from `from`. */
  ghost predicate BlockedLater(items: seq<Item>, from: nat, id: Id) {
    exists j :: from <= j < |items| && items[j].artifact == id && items[j].action == Blocked
  }

  /** The executor acts on a candidate as planned, unless a blocked retirement shadows its item. */
  lemma {:induction false} ActsAsPlanned(view: View, items: seq<Item>, i: nat, c: nat)
    requires Itemized(view, items) && R.DistinctIds(view.candidates)
    requires c < |view.candidates| && c < i <= |items|
    ensures var id := view.candidates[c].artifact.id;
            ActionOf(items[..i], id) == Some(if BlockedLater(items[..i], |view.candidates|, id) then Blocked else view.Action(view.candidates[c]))
  {
    hide ActionFor;
    var item, id := items[i - 1], view.candidates[c].artifact.id;
    var front := items[..i - 1];
    assert items[..i][..i - 1] == front;
    if i - 1 == c {
    } else {
      ActsAsPlanned(view, items, i - 1, c);
    }
    OneMoreItem(items[..i], |view.candidates|, id);
  }

  lemma OneMoreItem(items: seq<Item>, from: nat, id: Id)
    requires items != []
    ensures BlockedLater(items, from, id) <==>
              || BlockedLater(items[..|items| - 1], from, id)
              || (from <= |items| - 1 && items[|items| - 1].artifact == id && items[|items| - 1].action == Blocked)
  {
    var front := items[..|items| - 1];
    if j :| from <= j < |front| && front[j].artifact == id && front[j].action == Blocked {
      assert items[j] == front[j];
    }
    if j :| from <= j < |items| && items[j].artifact == id && items[j].action == Blocked {
      assert j < |front| ==> front[j] == items[j];
    }
  }

  /** What the executor acts on is the planned action, or blocked when the candidate is stuck. */
  lemma ActsOn(view: View, plan: Plan, c: Candidate)
    requires IsPlan(view, plan) && R.DistinctIds(view.candidates) && c in view.candidates
    ensures ActionOf(plan.items, c.artifact.id) == Some(if Stuck(view, c) then Blocked else view.Action(c))
  {
    PlanItems(view, plan);
    if view.Action(c) != Blocked {
      BlockedIsShadowed(view, plan, c);
    }
    hide IsPlan, Itemized, ActionFor, Shadowed, BlockedLater;
    var k :| 0 <= k < |view.candidates| && view.candidates[k] == c;
    PlanIsLongEnough(view, plan);
    ActsAsPlanned(view, plan.items, |plan.items|, k);
    assert plan.items[..|plan.items|] == plan.items;
  }

  lemma PlanIsLongEnough(view: View, plan: Plan)
    requires Itemized(view, plan.items)
    ensures |view.candidates| <= |plan.items|
  {
  }

  lemma BlockedIsShadowed(view: View, plan: Plan, c: Candidate)
    requires IsPlan(view, plan) && R.DistinctIds(view.candidates) && c in view.candidates && view.Action(c) != Blocked
    ensures BlockedLater(plan.items, |view.candidates|, c.artifact.id) <==> Shadowed(view, c)
  {
    hide R.Acyclic, R.Topological, R.AllCovered, R.Lists, View.Orderable, View.Superfluous, Retirable, ActionFor;
    var id := c.artifact.id;
    if j :| |view.candidates| <= j < |plan.items| && plan.items[j].artifact == id && plan.items[j].action == Blocked {
      assert view.HasRetireItem(plan.items[j]);
    }
    if r :| view.Superfluous(r) && !Retirable(view.files, view.records, r) && r.artifact.id == id {
      assert RetireItem(view.files, view.records, r) in plan.items;
      var j :| 0 <= j < |plan.items| && plan.items[j] == RetireItem(view.files, view.records, r);
      OwnItem(view, plan, c);
    }
  }

  lemma OwnItem(view: View, plan: Plan, c: Candidate)
    requires IsPlan(view, plan) && R.DistinctIds(view.candidates) && c in view.candidates
    ensures forall j :: 0 <= j < |view.candidates| <= |plan.items| && plan.items[j].artifact == c.artifact.id ==>
              plan.items[j].action == view.Action(c)
  {
    hide R.Acyclic, R.Topological, R.AllCovered, R.Lists, View.Orderable, View.Superfluous, Retirable, ActionFor;
    forall j | 0 <= j < |view.candidates| <= |plan.items| && plan.items[j].artifact == c.artifact.id
      ensures plan.items[j].action == view.Action(c)
    {
      assert plan.items[j] == CandidateItem(view.files, view.records, view.candidates[j]);
      var k :| 0 <= k < |view.candidates| && view.candidates[k] == c;
    }
  }

  /* ---- What every site keeps ---- */

  ghost predicate Sound(job: Job, base: nat) {
    Coherent(job.view) && ValidLedger(job.view.records, base) && IsPlan(job.view, job.plan)
  }

  ghost predicate SettledAll(view: View, files: Files, ledger: seq<Record>, delivered: set<Id>) {
    forall c :: c in view.candidates && c.artifact.id in delivered ==> Settled(view, files, ledger, c)
  }

  ghost predicate NoneStuck(view: View, delivered: set<Id>) {
    forall c :: c in view.candidates && c.artifact.id in delivered ==> !Stuck(view, c)
  }

  /** What has been delivered came after all it waits for. */
  ghost predicate Closed(view: View, delivered: set<Id>) {
    forall a, b :: a in delivered && R.Edge(view.Graph(), a, b) ==> b in delivered
  }

  /** The candidates whose turn has passed. */
  ghost function Past(job: Job, turn: nat): set<Id> {
    Elems(R.OrderIds(job.plan.order)[..if turn <= |job.plan.order| then turn else |job.plan.order|])
  }

  ghost predicate Progress(job: Job, s: Site) {
    && s.turn <= |job.plan.order| + |job.plan.retirements|
    && s.delivered <= Past(job, s.turn)
    && SettledAll(job.view, s.files, s.ledger, s.delivered)
    && NoneStuck(job.view, s.delivered) && Closed(job.view, s.delivered)
  }

  /** A candidate on its way is in the ledger, and everything it needs is in place. */
  ghost predicate StageKept(job: Job, s: Site) {
    s.stage != Idle ==>
      && Delivering(job, s) && Turn(job, s) in job.view.candidates && Open(job, s)
      && Delivers(job.view, Turn(job, s)) && HasLiveRow(s.ledger, Turn(job, s))
      && Startable(job.view, Turn(job, s)) && Gated(job.view, s.files, Turn(job, s))
  }

  /** No record is superseded before every candidate is delivered. */
  ghost predicate PhaseKept(job: Job, s: Site) {
    && (s.turn <= |job.plan.order| ==> !Cleaning(job.view, s.ledger))
    && (s.turn > |job.plan.order| ==> !s.failed)
    && (!s.failed ==> !HasBlocked(job.plan.items) && Past(job, s.turn) <= s.delivered)
    && (!s.failed && s.turn >= |job.plan.order| ==> EverySettled(job.view, s.files, s.ledger))
  }

  ghost predicate SiteKept(job: Job, s: Site) {
    && ValidLedger(s.ledger, s.nextId) && ArtifactsAgree(job.view.candidates, s.ledger)
    && Reached(job.view, s.files, s.ledger)
    && Progress(job, s) && StageKept(job, s) && PhaseKept(job, s)
  }

  /* ---- Lemmas about progress ---- */

  lemma PublishedSettles(view: View, files: Files, ledger: seq<Record>, c: Candidate)
    requires Intact(files, c) && HasRow(ledger, c, Published)
    ensures Settled(view, files, ledger, c)
  {
  }

  lemma StillIntact(view: View, files: Files, ledger: seq<Record>, c: Candidate)
    requires Reached(view, files, ledger) && c in view.candidates && view.Action(c) == Unchanged
    ensures Settled(view, files, ledger, c)
  {
    assert CandidatePathEvolves(view, files, ledger, c);
  }

  lemma SettledKept(view: View, files0: Files, ledger0: seq<Record>, files: Files, ledger: seq<Record>,
                    delivered: set<Id>, c: Candidate)
    requires SettledAll(view, files0, ledger0, delivered) && c.artifact.id !in delivered
    requires forall other :: other in view.candidates && Intact(files0, other) ==> Intact(files, other)
    requires forall other :: other in view.candidates && other != c && HasRow(ledger0, other, Published) ==>
               HasRow(ledger, other, Published)
    ensures SettledAll(view, files, ledger, delivered)
  {
    hide HasRow, ActionFor, Intact;
  }

  lemma SettleOne(view: View, files: Files, ledger: seq<Record>, delivered: set<Id>, c: Candidate)
    requires Coherent(view) && c in view.candidates && Settled(view, files, ledger, c)
    requires SettledAll(view, files, ledger, delivered)
    ensures SettledAll(view, files, ledger, delivered + {c.artifact.id})
  {
    hide Settled;
    forall other | other in view.candidates && other.artifact.id in delivered + {c.artifact.id}
      ensures Settled(view, files, ledger, other)
    {
      if other.artifact.id == c.artifact.id {
        CandidateAt(view, c, other);
      }
    }
  }

  /** The candidate whose turn it is: one of the plan's, not yet delivered, and next in the order. */
  lemma TurnIsNext(job: Job, s: Site)
    requires IsPlan(job.view, job.plan) && Progress(job, s) && Delivering(job, s)
    ensures Turn(job, s) in job.view.candidates && Turn(job, s).artifact.id !in s.delivered
    ensures Past(job, s.turn + 1) == Past(job, s.turn) + {Turn(job, s).artifact.id}
  {
    hide R.Acyclic, R.AllCovered, R.Lists, View.Orderable, View.Superfluous, View.Retires, DecidesAll, SettledAll, NoneStuck, Closed;
    assert Turn(job, s) in multiset(job.plan.order);
    var ids := R.OrderIds(job.plan.order);
    assert ids[..s.turn + 1] == ids[..s.turn] + [ids[s.turn]];
  }

  /** The plan's dependencies are the edges of the graph. */
  lemma DependsOnEdges(view: View, plan: Plan, c: Candidate, d: Id)
    requires Coherent(view) && IsPlan(view, plan) && c in view.candidates
    ensures d in R.Lookup(plan.dependencies, c.artifact.id) <==> R.Edge(view.Graph(), c.artifact.id, d)
  {
    hide R.Acyclic, R.Topological, View.Superfluous, View.Retires, DecidesAll;
    assert R.Lists(view.candidates, view.records, view.volumes, plan.dependencies, c);
    R.AwaitsIsEdge(view.candidates, view.records, view.volumes, c, d);
  }

  /** Behind an open gate, all that the candidate needs has been delivered, near or far. */
  lemma OpenMeansReady(job: Job, base: nat, s: Site)
    requires Sound(job, base) && Progress(job, s) && Delivering(job, s) && Open(job, s)
    requires !Stuck(job.view, Turn(job, s))
    ensures Startable(job.view, Turn(job, s)) && Gated(job.view, s.files, Turn(job, s))
    ensures Closed(job.view, s.delivered + {Turn(job, s).artifact.id})
  {
    var c := Turn(job, s);
    TurnIsNext(job, s);
    hide IsPlan, Coherent, ValidLedger, Stuck, ActionFor, HasRow, Past;
    forall d | R.Edge(job.view.Graph(), c.artifact.id, d)
      ensures d in s.delivered
    {
      DependsOnEdges(job.view, job.plan, c, d);
    }
    forall other | other in job.view.candidates && Needs(job.view, c, other)
      ensures other.artifact.id in s.delivered
    {
      R.ClosedHolds(job.view.Graph(), s.delivered, c.artifact.id, other.artifact.id);
    }
  }

  lemma AllPast(job: Job, files: Files, ledger: seq<Record>, delivered: set<Id>, turn: nat)
    requires IsPlan(job.view, job.plan) && SettledAll(job.view, files, ledger, delivered)
    requires turn >= |job.plan.order| && Past(job, turn) <= delivered
    ensures EverySettled(job.view, files, ledger)
  {
    hide R.Acyclic, R.Topological, R.AllCovered, R.Lists, View.Orderable, View.Superfluous, View.Retires, DecidesAll, Settled;
    var order := job.plan.order;
    forall c | c in job.view.candidates
      ensures Settled(job.view, files, ledger, c)
    {
      assert c in multiset(order);
      var i :| 0 <= i < |order| && order[i] == c;
      assert R.OrderIds(order)[..|order|][i] == c.artifact.id;
    }
  }

  lemma PastGrows(job: Job, turn: nat)
    ensures Past(job, turn) <= Past(job, turn + 1)
    ensures turn >= |job.plan.order| ==> Past(job, turn + 1) == Past(job, turn)
  {
  }

  /** A planned id names a record to retire. */
  lemma PlannedRetires(job: Job, base: nat, s: Site)
    requires IsPlan(job.view, job.plan) && ValidLedger(job.view.records, base) && Retiring(job, s)
    ensures Retiree(job, s) < |job.view.records| && job.view.Retires(job.view.records[Retiree(job, s)])
  {
    hide R.Acyclic, R.Topological, R.AllCovered, R.Lists, View.Orderable, View.Retires, DecidesAll;
    var view := job.view;
    var id := job.plan.retirements[s.turn - |job.plan.order|];
    assert id in job.plan.retirements;
    assert view.RetiresId(id);
    var r :| r in view.records && view.Retires(r) && r.id == id;
    var i :| 0 <= i < |view.records| && view.records[i] == r;
    assert i == RecordAt(view.records, id);
  }

  /* ---- Every effect keeps it ---- */

  lemma StartKept(job: Job, base: nat)
    requires Sound(job, base)
    ensures SiteKept(job, Start(job, base))
  {
    ReachedAtStart(job.view);
    hide IsPlan, Reached, ValidLedger, EverySettled, Settled;
    var s := Start(job, base);
    if |job.plan.order| == 0 {
      AllPast(job, s.files, s.ledger, {}, 0);
    }
  }

  lemma SkipKeeps(job: Job, base: nat, s: Site)
    requires Sound(job, base) && SiteKept(job, s) && Enabled(job, s, Skip)
    ensures SiteKept(job, Apply(job, s, Skip))
  {
    hide IsPlan, Reached, ValidLedger, EverySettled, SettledAll, NoneStuck, Closed, Cleaning, ArtifactsAgree, Past, Coherent;
    PastGrows(job, s.turn);
  }

  /** After a delivery the turn passes to the next candidate. */
  lemma TurnPasses(job: Job, base: nat, s: Site)
    requires Sound(job, base) && Delivering(job, s) && Progress(job, s) && Open(job, s)
    requires ValidLedger(s.ledger, s.nextId) && ArtifactsAgree(job.view.candidates, s.ledger)
    requires Reached(job.view, s.files, s.ledger) && !Cleaning(job.view, s.ledger)
    requires !s.failed ==> !HasBlocked(job.plan.items) && Past(job, s.turn) <= s.delivered
    requires !Stuck(job.view, Turn(job, s)) && Settled(job.view, s.files, s.ledger, Turn(job, s))
    ensures SiteKept(job, Passed(s).(delivered := s.delivered + {Turn(job, s).artifact.id}))
  {
    hide IsPlan, Reached, ValidLedger, EverySettled, SettledAll, NoneStuck, Closed, Cleaning, ArtifactsAgree, Past, Coherent,
         Stuck, Settled;
    var c := Turn(job, s);
    var next := Passed(s).(delivered := s.delivered + {c.artifact.id});
    TurnIsNext(job, s);
    OpenMeansReady(job, base, s);
    SettleOne(job.view, s.files, s.ledger, s.delivered, c);
    if !s.failed && next.turn >= |job.plan.order| {
      AllPast(job, next.files, next.ledger, next.delivered, next.turn);
    }
    UnstuckGrows(job.view, s.delivered, c);
  }

  lemma UnstuckGrows(view: View, delivered: set<Id>, c: Candidate)
    requires NoneStuck(view, delivered) && Coherent(view) && c in view.candidates && !Stuck(view, c)
    ensures NoneStuck(view, delivered + {c.artifact.id})
  {
    hide Stuck;
    forall other | other in view.candidates && other.artifact.id in delivered + {c.artifact.id}
      ensures !Stuck(view, other)
    {
      if other.artifact.id == c.artifact.id {
        CandidateAt(view, c, other);
      }
    }
  }

  lemma KeepKeeps(job: Job, base: nat, s: Site)
    requires Sound(job, base) && SiteKept(job, s) && Enabled(job, s, Keep)
    ensures SiteKept(job, Apply(job, s, Keep))
  {
    hide IsPlan, Reached, ValidLedger, EverySettled, SettledAll, NoneStuck, Closed, Cleaning, ArtifactsAgree, Past, Settled,
         Stuck, ActionFor, Identified, ActionOf;
    TurnIsNext(job, s);
    ActsOn(job.view, job.plan, Turn(job, s));
    StillIntact(job.view, s.files, s.ledger, Turn(job, s));
    TurnPasses(job, base, s);
  }

  lemma AnnounceKeeps(job: Job, base: nat, s: Site)
    requires Sound(job, base) && SiteKept(job, s) && Enabled(job, s, Announce)
    ensures SiteKept(job, Apply(job, s, Announce))
  {
    hide IsPlan, Reached, ValidLedger, EverySettled, SettledAll, NoneStuck, Closed, Cleaning, ArtifactsAgree, Past, Settled,
         Stuck, ActionFor, Identified, ActionOf, Startable, Gated, HasRow, Upserted;
    var c := Turn(job, s);
    TurnIsNext(job, s);
    ActsOn(job.view, job.plan, c);
    OpenMeansReady(job, base, s);
    DeliveryRowStep(job.view, s.files, s.ledger, c, s.nextId, Publishing);
    var next := Apply(job, s, Announce);
    RowIsLive(next.ledger, c, Publishing);
    SettledKept(job.view, s.files, s.ledger, next.files, next.ledger, s.delivered, c);
  }

  lemma RowIsLive(ledger: seq<Record>, c: Candidate, status: Status)
    requires HasRow(ledger, c, status) && status in {Publishing, Published}
    ensures HasLiveRow(ledger, c)
  {
    var i :| 0 <= i < |ledger| && IsRow(ledger[i], c) && ledger[i].status == status;
    assert ledger[i].Live();
  }

  lemma WriteKeeps(job: Job, base: nat, s: Site)
    requires Sound(job, base) && SiteKept(job, s) && Enabled(job, s, Write)
    ensures SiteKept(job, Apply(job, s, Write))
  {
    hide IsPlan, Reached, ValidLedger, EverySettled, SettledAll, NoneStuck, Closed, Cleaning, ArtifactsAgree, Past, Settled,
         Stuck, ActionFor, Startable, HasRow, HasLiveRow, Clear;
    var c := Turn(job, s);
    TurnIsNext(job, s);
    WriteStep(job.view, s.files, s.ledger, c);
    var next := Apply(job, s, Write);
    hide Intact, Needs;
    SettledKept(job.view, s.files, s.ledger, next.files, next.ledger, s.delivered, c);
  }

  lemma PublishKeeps(job: Job, base: nat, s: Site)
    requires Sound(job, base) && SiteKept(job, s) && Enabled(job, s, Publish)
    ensures SiteKept(job, Apply(job, s, Publish))
  {
    hide IsPlan, Reached, ValidLedger, EverySettled, SettledAll, NoneStuck, Closed, Cleaning, ArtifactsAgree, Past, Settled,
         Stuck, ActionFor, HasRow, HasLiveRow, Upserted, Intact, Gated;
    var c := Turn(job, s);
    TurnIsNext(job, s);
    DeliveryRowStep(job.view, s.files, s.ledger, c, s.nextId, Published);
    var next := Announcing(s, c, Published);
    SettledKept(job.view, s.files, s.ledger, next.files, next.ledger, s.delivered, c);
    PublishedSettles(job.view, next.files, next.ledger, c);
    TurnPasses(job, base, next.(stage := Idle));
  }

  lemma RemoveKeeps(job: Job, base: nat, s: Site)
    requires Sound(job, base) && SiteKept(job, s) && Enabled(job, s, Remove)
    ensures SiteKept(job, Apply(job, s, Remove))
  {
    hide IsPlan, Reached, ValidLedger, EverySettled, NoneStuck, Closed, Cleaning, ArtifactsAgree, Past, Settled, View.Retires,
         RetirementOwned, Occupied;
    PlannedRetires(job, base, s);
    RemoveStep(job.view, s.files, s.ledger, job.view.records[Retiree(job, s)]);
    AllSettled(job.view, Apply(job, s, Remove).files, s.ledger, s.delivered);
  }

  lemma AllSettled(view: View, files: Files, ledger: seq<Record>, delivered: set<Id>)
    requires EverySettled(view, files, ledger)
    ensures SettledAll(view, files, ledger, delivered)
  {
  }

  lemma SupersedeKeeps(job: Job, base: nat, s: Site)
    requires Sound(job, base) && SiteKept(job, s) && Enabled(job, s, Supersede)
    ensures SiteKept(job, Apply(job, s, Supersede))
  {
    hide IsPlan, Reached, ValidLedger, EverySettled, NoneStuck, Closed, Cleaning, ArtifactsAgree, Past, Settled, View.Retires,
         RetirementOwned, Occupied, Upserted, SettledAll;
    PlannedRetires(job, base, s);
    PastGrows(job, s.turn);
    SupersedeStep(job.view, s.files, s.ledger, base, s.nextId, Retiree(job, s));
    AllSettled(job.view, s.files, Apply(job, s, Supersede).ledger, s.delivered);
  }

  lemma EffectKeeps(job: Job, base: nat, s: Site, e: Effect)
    requires Sound(job, base) && SiteKept(job, s) && Enabled(job, s, e)
    ensures SiteKept(job, Apply(job, s, e))
  {
    hide Sound, SiteKept, Enabled, Apply;
    match e
    case Skip => SkipKeeps(job, base, s);
    case Keep => KeepKeeps(job, base, s);
    case Announce => AnnounceKeeps(job, base, s);
    case Write => WriteKeeps(job, base, s);
    case Publish => PublishKeeps(job, base, s);
    case Remove => RemoveKeeps(job, base, s);
    case Supersede => SupersedeKeeps(job, base, s);
  }

  lemma {:induction false} ComesKept(job: Job, base: nat, s: Site, n: nat)
    requires Sound(job, base) && Comes(job, base, s, n)
    ensures SiteKept(job, s)
    decreases n
  {
    hide Sound, SiteKept, Enabled, Apply;
    if n == 0 {
      StartKept(job, base);
    } else {
      var p :| Comes(job, base, p, n - 1) && Follows(job, p, s);
      ComesKept(job, base, p, n - 1);
      var e :| Enabled(job, p, e) && s == Apply(job, p, e);
      EffectKeeps(job, base, p, e);
    }
  }

  /** Wherever a run of the plan can stop, it is within what the plan may do. */
  lemma StopsKept(job: Job, base: nat, s: Site)
    requires Sound(job, base) && Stops(job, base, s)
    ensures SiteKept(job, s)
  {
    hide Sound, SiteKept;
    var n: nat :| Comes(job, base, s, n);
    ComesKept(job, base, s, n);
  }
}
