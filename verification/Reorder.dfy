/**
 * Delivery order for same-path replacements: a candidate that overwrites a delivered volume waits
 * for the candidates that carry the volume's other chapters.
 */
module Reorder {
  import opened Common
  import opened Ledger

  datatype Ordering =
    | Ordered(order: seq<Candidate>, dependencies: map<Id, seq<Id>>)
    | Uncovered(path: Path, release: Id)
    | Cyclic

  /* ---- What depends on what ---- */

  function EditionMembers(volumes: seq<Edition>, artifact: Id): seq<Id> {
    if volumes == [] then []
    else
      var last := volumes[|volumes| - 1];
      EditionMembers(volumes[..|volumes| - 1], artifact) +
      (if last.artifact == artifact then last.members else [])
  }

  /** Artifact id of the last candidate carrying `release`, or "" when none does. */
  function Replacement(candidates: seq<Candidate>, release: Id): Id {
    if candidates == [] then ""
    else
      var last := candidates[|candidates| - 1];
      if release in last.Chapters() then last.artifact.id
      else Replacement(candidates[..|candidates| - 1], release)
  }

  predicate Overwrites(c: Candidate, prior: Record) {
    prior.status == Published && prior.ref == c.Ref() && prior.artifact.id != c.artifact.id
  }

  /** Some chapter of some overwritten volume has no candidate. */
  ghost predicate Misses(candidates: seq<Candidate>, records: seq<Record>, volumes: seq<Edition>,
                         c: Candidate, prior: Record, release: Id) {
    && c in candidates && prior in records && Overwrites(c, prior)
    && release in EditionMembers(volumes, prior.artifact.id)
    && Replacement(candidates, release) == ""
  }

  ghost predicate AllCovered(candidates: seq<Candidate>, records: seq<Record>, volumes: seq<Edition>) {
    forall c :: c in candidates ==> Covered(candidates, records, volumes, c)
  }

  /** Every chapter of every volume that `c` overwrites has a candidate. */
  ghost predicate Covered(candidates: seq<Candidate>, records: seq<Record>, volumes: seq<Edition>, c: Candidate) {
    forall prior, release :: !Misses(candidates, records, volumes, c, prior, release)
  }

  /** `dependencies` lists exactly what `c` waits for. */
  ghost predicate Lists(candidates: seq<Candidate>, records: seq<Record>, volumes: seq<Edition>,
                        dependencies: map<Id, seq<Id>>, c: Candidate) {
    forall d :: d in Lookup(dependencies, c.artifact.id) <==> Awaits(candidates, records, volumes, c, d)
  }

  /** `c` may only be written once `id` has been delivered. */
  ghost predicate Awaits(candidates: seq<Candidate>, records: seq<Record>, volumes: seq<Edition>,
                         c: Candidate, id: Id) {
    exists prior ::
      prior in records && Overwrites(c, prior) && Carries(candidates, EditionMembers(volumes, prior.artifact.id), c, id)
  }

  /** The candidate that carries one of `members` is `id`, and it is not `c` itself. */
  ghost predicate Carries(candidates: seq<Candidate>, members: seq<Id>, c: Candidate, id: Id) {
    exists m :: m in members && Replacement(candidates, m) == id != c.artifact.id
  }

  ghost function Graph(candidates: seq<Candidate>, records: seq<Record>, volumes: seq<Edition>): map<Id, set<Id>> {
    map id | id in Ids(candidates) :: set d | d in Ids(candidates) && IdAwaits(candidates, records, volumes, id, d)
  }

  ghost predicate IdAwaits(candidates: seq<Candidate>, records: seq<Record>, volumes: seq<Edition>, id: Id, d: Id) {
    exists c :: c in candidates && c.artifact.id == id && Awaits(candidates, records, volumes, c, d)
  }

  function Ids(candidates: seq<Candidate>): set<Id> {
    set c | c in candidates :: c.artifact.id
  }

  function Lookup(m: map<Id, seq<Id>>, id: Id): seq<Id> {
    if id in m then m[id] else []
  }

  /* ---- Cycles, independently of any traversal ---- */

  ghost predicate IsCycle(graph: map<Id, set<Id>>, path: seq<Id>) {
    && |path| >= 2 && path[0] == path[|path| - 1]
    && forall i :: 0 <= i < |path| - 1 ==> Edge(graph, path[i], path[i + 1])
  }

  ghost predicate Edge(graph: map<Id, set<Id>>, a: Id, b: Id) {
    a in graph && b in graph[a]
  }

  ghost predicate Acyclic(graph: map<Id, set<Id>>) {
    forall path :: !IsCycle(graph, path)
  }

  /** Along the edges, from the first node of the path to the last. */
  ghost predicate IsPath(graph: map<Id, set<Id>>, path: seq<Id>) {
    |path| >= 2 && forall i :: 0 <= i < |path| - 1 ==> Edge(graph, path[i], path[i + 1])
  }

  /** `a` depends on `b`, directly or through others. */
  ghost predicate Connected(graph: map<Id, set<Id>>, a: Id, b: Id) {
    exists path :: IsPath(graph, path) && path[0] == a && path[|path| - 1] == b
  }

  lemma EdgeConnects(graph: map<Id, set<Id>>, a: Id, b: Id)
    requires Edge(graph, a, b)
    ensures Connected(graph, a, b)
  {
    var path := [a, b];
    assert IsPath(graph, path) && path[0] == a && path[|path| - 1] == b;
  }

  lemma ConnectedFurther(graph: map<Id, set<Id>>, a: Id, b: Id, c: Id)
    requires Connected(graph, a, b) && Edge(graph, b, c)
    ensures Connected(graph, a, c)
  {
    var path :| IsPath(graph, path) && path[0] == a && path[|path| - 1] == b;
    var longer := path + [c];
    forall i | 0 <= i < |longer| - 1
      ensures Edge(graph, longer[i], longer[i + 1])
    {
      if i < |path| - 1 {
        assert Edge(graph, path[i], path[i + 1]);
      }
    }
    assert IsPath(graph, longer);
  }

  /** A set that holds the direct dependencies of `a` and those of its own nodes holds all that `a` depends on. */
  lemma ClosedHolds(graph: map<Id, set<Id>>, nodes: set<Id>, a: Id, b: Id)
    requires forall x :: Edge(graph, a, x) ==> x in nodes
    requires forall x, y :: x in nodes && Edge(graph, x, y) ==> y in nodes
    requires Connected(graph, a, b)
    ensures b in nodes
  {
    var path :| IsPath(graph, path) && path[0] == a && path[|path| - 1] == b;
    ClosedAlong(graph, nodes, path, |path| - 1);
  }

  lemma {:induction false} ClosedAlong(graph: map<Id, set<Id>>, nodes: set<Id>, path: seq<Id>, n: nat)
    requires IsPath(graph, path) && 0 < n < |path|
    requires forall x :: Edge(graph, path[0], x) ==> x in nodes
    requires forall x, y :: x in nodes && Edge(graph, x, y) ==> y in nodes
    ensures path[n] in nodes
  {
    assert Edge(graph, path[n - 1], path[n - 1 + 1]);
    if n == 1 {
    } else {
      ClosedAlong(graph, nodes, path, n - 1);
    }
  }

  ghost predicate Topological(graph: map<Id, set<Id>>, order: seq<Id>) {
    && Distinct(order)
    && forall i, d :: 0 <= i < |order| && Edge(graph, order[i], d) ==> d in order[..i]
  }

  /** A topological order of all nodes leaves no room for a cycle. */
  lemma TopologicalMeansAcyclic(graph: map<Id, set<Id>>, order: seq<Id>)
    requires Topological(graph, order) && Elems(order) == graph.Keys
    ensures Acyclic(graph)
  {
    forall path | IsCycle(graph, path)
      ensures false
    {
      assert Edge(graph, path[0], path[1]);
      var k :| 0 <= k < |order| && order[k] == path[0];
      Descend(graph, order, path, k, |path| - 1);
    }
  }

  lemma {:induction false} Descend(graph: map<Id, set<Id>>, order: seq<Id>, path: seq<Id>, k: nat, n: nat)
    requires Topological(graph, order) && IsCycle(graph, path)
    requires k < |order| && order[k] == path[0] && n < |path|
    ensures n > 0 ==> path[n] in order[..k]
  {
    if n == 0 {
    } else {
      Descend(graph, order, path, k, n - 1);
      assert Edge(graph, path[n - 1], path[n]);
      var j :| 0 <= j <= k && order[j] == path[n - 1];
      assert path[n] in order[..j];
    }
  }

  /* ---- The depth-first traversal ---- */

  /** The calls in progress, outermost first: each was reached along an edge from the one before. */
  ghost predicate Chain(graph: map<Id, set<Id>>, stack: seq<Id>) {
    && Distinct(stack) && Elems(stack) <= graph.Keys
    && forall i :: 0 <= i < |stack| - 1 ==> Edge(graph, stack[i], stack[i + 1])
  }

  ghost predicate Reaches(graph: map<Id, set<Id>>, stack: seq<Id>, id: Id) {
    id in graph && (stack != [] ==> Edge(graph, stack[|stack| - 1], id))
  }

  lemma PushChain(graph: map<Id, set<Id>>, stack: seq<Id>, id: Id)
    requires Chain(graph, stack) && Reaches(graph, stack, id) && id !in stack
    ensures Chain(graph, stack + [id])
    ensures Elems(stack + [id]) == Elems(stack) + {id}
    ensures |stack| < |graph.Keys|
  {
    var t := stack + [id];
    assert Elems(t) == Elems(stack) + {id};
    DistinctLength(t);
    SubsetSize(Elems(t), graph.Keys);
    forall i | 0 <= i < |t| - 1
      ensures Edge(graph, t[i], t[i + 1])
    {
      if i < |stack| - 1 {
        assert Edge(graph, stack[i], stack[i + 1]);
      }
    }
  }

  lemma PopChain(graph: map<Id, set<Id>>, stack: seq<Id>, id: Id)
    requires Chain(graph, stack + [id])
    ensures Chain(graph, stack)
    ensures Elems(stack) == Elems(stack + [id]) - {id} && id in Elems(stack + [id])
  {
    var t := stack + [id];
    assert t[|stack|] == id;
    forall i | 0 <= i < |stack|
      ensures stack[i] == t[i] && stack[i] != id
    {
    }
    forall i | 0 <= i < |stack| - 1
      ensures Edge(graph, stack[i], stack[i + 1])
    {
      assert Edge(graph, t[i], t[i + 1]);
    }
    assert forall i, j :: 0 <= i < j < |stack| ==> t[i] != t[j];
  }

  lemma StackCycle(graph: map<Id, set<Id>>, stack: seq<Id>, id: Id)
    requires Chain(graph, stack) && Reaches(graph, stack, id) && id in stack
    ensures !Acyclic(graph)
  {
    var k :| 0 <= k < |stack| && stack[k] == id;
    var path := stack[k..] + [id];
    forall i | 0 <= i < |path| - 1
      ensures Edge(graph, path[i], path[i + 1])
    {
      if i + 1 < |path| - 1 {
        assert Edge(graph, stack[k + i], stack[k + i + 1]);
      }
    }
    assert IsCycle(graph, path);
  }

  lemma AppendTopological(graph: map<Id, set<Id>>, order: seq<Id>, id: Id)
    requires Topological(graph, order) && id in graph && id !in order && graph[id] <= Elems(order)
    ensures Topological(graph, order + [id])
    ensures Elems(order + [id]) == Elems(order) + {id}
  {
    var t := order + [id];
    forall i, d | 0 <= i < |t| && Edge(graph, t[i], d)
      ensures d in t[..i]
    {
      if i < |order| {
        assert Edge(graph, order[i], d);
        assert t[..i] == order[..i];
      } else {
        assert t[..i] == order;
      }
    }
  }

  lemma ConnectedBefore(graph: map<Id, set<Id>>, a: Id, b: Id, c: Id)
    requires Edge(graph, a, b) && Connected(graph, b, c)
    ensures Connected(graph, a, c)
  {
    var path :| IsPath(graph, path) && path[0] == b && path[|path| - 1] == c;
    var longer := [a] + path;
    forall i | 0 <= i < |longer| - 1
      ensures Edge(graph, longer[i], longer[i + 1])
    {
      if i > 0 {
        assert Edge(graph, path[i - 1], path[i - 1 + 1]);
      }
    }
    assert IsPath(graph, longer);
  }

  /** The order grew by what `id` depends on, and perhaps by `id` itself. */
  ghost predicate GrewFor(graph: map<Id, set<Id>>, id: Id, before: seq<Id>, after: seq<Id>) {
    before <= after && forall x :: x in after[|before|..] ==> x == id || Connected(graph, id, x)
  }

  /** What a dependency of `id` needs is needed by `id`. */
  lemma GrowsFurther(graph: map<Id, set<Id>>, id: Id, d: Id, before: seq<Id>, middle: seq<Id>, after: seq<Id>)
    requires GrewFor(graph, id, before, middle) && GrewFor(graph, d, middle, after) && (d == id || Edge(graph, id, d))
    ensures GrewFor(graph, id, before, after)
  {
    forall x | x in after[|before|..]
      ensures x == id || Connected(graph, id, x)
    {
      assert after[|before|..] == middle[|before|..] + after[|middle|..];
      if x in after[|middle|..] && d != id {
        EdgeConnects(graph, id, d);
        if x != d {
          ConnectedBefore(graph, id, d, x);
        }
      }
    }
  }

  class Sorter {
    ghost const graph: map<Id, set<Id>>
    var dependencies: map<Id, seq<Id>>
    var visiting: set<Id>
    var visited: set<Id>
    var ordered: seq<Id>

    constructor (dependencies: map<Id, seq<Id>>, ghost graph: map<Id, set<Id>>)
      requires Represents(dependencies, graph)
      ensures this.graph == graph && this.dependencies == dependencies
      ensures Valid([]) && ordered == []
    {
      this.graph := graph;
      this.dependencies := dependencies;
      visiting, visited, ordered := {}, {}, [];
    }

    ghost predicate Valid(stack: seq<Id>)
      reads this
    {
      && Represents(dependencies, graph)
      && Chain(graph, stack) && visiting == Elems(stack)
      && Topological(graph, ordered) && visited == Elems(ordered) <= graph.Keys
      && visited !! visiting
    }

    method Visit(id: Id, ghost stack: seq<Id>) returns (ok: bool)
      requires Valid(stack) && Reaches(graph, stack, id)
      modifies this
      ensures ok ==> Valid(stack) && id in visited && GrewFor(graph, id, old(ordered), ordered)
      ensures !ok ==> !Acyclic(graph)
      decreases |graph.Keys| - |stack|, 0
    {
      hide Connected, Acyclic, Topological, Represents;
      if id in visited {
        return true;
      }
      if id in visiting {
        StackCycle(graph, stack, id);
        return false;
      }
      var list := Enter(id, stack);
      ok := VisitAll(id, list, stack);
      if !ok {
        return false;
      }
      ghost var middle := ordered;
      Leave(id, stack, list);
      assert GrewFor(graph, id, middle, ordered);
      GrowsFurther(graph, id, id, old(ordered), middle, ordered);
    }

    method VisitAll(id: Id, list: seq<Id>, ghost stack: seq<Id>) returns (ok: bool)
      requires Valid(stack + [id]) && id in graph && Elems(list) == graph[id]
      modifies this
      ensures ok ==> Valid(stack + [id]) && GrewFor(graph, id, old(ordered), ordered) && Elems(list) <= visited
      ensures !ok ==> !Acyclic(graph)
      decreases |graph.Keys| - |stack| - 1, 1
    {
      hide Connected, Acyclic, Topological;
      for k := 0 to |list|
        invariant Valid(stack + [id]) && GrewFor(graph, id, old(ordered), ordered)
        invariant Elems(list[..k]) <= visited
      {
        assert list[k] in Elems(list);
        assert (stack + [id])[|stack|] == id;
        assert Elems(list[..k + 1]) == Elems(list[..k]) + {list[k]};
        ghost var before := ordered;
        ok := Visit(list[k], stack + [id]);
        if !ok {
          return false;
        }
        assert Elems(before) <= Elems(ordered);
        GrowsFurther(graph, id, list[k], old(ordered), before, ordered);
      }
      assert list[..|list|] == list;
      return true;
    }

    method Enter(id: Id, ghost stack: seq<Id>) returns (list: seq<Id>)
      requires Valid(stack) && Reaches(graph, stack, id) && id !in visited && id !in visiting
      modifies this
      ensures Valid(stack + [id]) && ordered == old(ordered)
      ensures Elems(list) == graph[id] && |stack| < |graph.Keys|
    {
      PushChain(graph, stack, id);
      list := SortStrings(Lookup(dependencies, id));
      SameElements(list, Lookup(dependencies, id));
      if id in dependencies {
        ReplaceList(dependencies, graph, id, list);
        dependencies := dependencies[id := list];
      }
      visiting := visiting + {id};
    }

    method Leave(id: Id, ghost stack: seq<Id>, ghost list: seq<Id>)
      requires Valid(stack + [id]) && id in graph && Elems(list) == graph[id] <= visited
      modifies this
      ensures Valid(stack) && id in visited && ordered == old(ordered) + [id]
    {
      PopChain(graph, stack, id);
      AppendTopological(graph, ordered, id);
      visited, visiting := visited + {id}, visiting - {id};
      ordered := ordered + [id];
    }
  }

  /* ---- The listed order where nothing needs another ---- */

  /** One of the first `n` listed nodes, or needed by one of them. */
  ghost predicate Wanted(graph: map<Id, set<Id>>, listed: seq<Id>, n: nat, x: Id)
    requires n <= |listed|
  {
    exists k :: 0 <= k < n && (x == listed[k] || Connected(graph, listed[k], x))
  }

  /** Whatever comes before a node although it is listed after it is needed by that node or one listed before. */
  ghost predicate AsListed(graph: map<Id, set<Id>>, listed: seq<Id>, order: seq<Id>) {
    forall i, a, b :: 0 <= i < |listed| && 0 <= a < b < |order| && order[b] == listed[i] && order[a] !in listed[..i] ==>
      exists k :: 0 <= k <= i && Connected(graph, listed[k], order[a])
  }

  lemma WantedNext(graph: map<Id, set<Id>>, listed: seq<Id>, n: nat, before: seq<Id>, after: seq<Id>)
    requires n < |listed| && (forall x :: x in before ==> Wanted(graph, listed, n, x)) && GrewFor(graph, listed[n], before, after)
    ensures forall x :: x in after ==> Wanted(graph, listed, n + 1, x)
  {
    hide Connected;
    assert after == before + after[|before|..];
    forall x | x in after
      ensures Wanted(graph, listed, n + 1, x)
    {
      if x in before {
        assert Wanted(graph, listed, n, x);
      } else {
        assert x in after[|before|..];
      }
    }
  }

  lemma ListedNext(graph: map<Id, set<Id>>, listed: seq<Id>, n: nat, before: seq<Id>, after: seq<Id>)
    requires n < |listed| && before <= after && Distinct(after) && (forall j :: 0 <= j < n ==> listed[j] in before)
    requires AsListed(graph, listed, before) && forall x :: x in after ==> Wanted(graph, listed, n + 1, x)
    ensures AsListed(graph, listed, after)
  {
    hide Connected;
    forall i, a, b | 0 <= i < |listed| && 0 <= a < b < |after| && after[b] == listed[i] && after[a] !in listed[..i]
      ensures exists k :: 0 <= k <= i && Connected(graph, listed[k], after[a])
    {
      if b < |before| {
        assert before[b] == listed[i] && before[a] == after[a];
      } else {
        NotYetListed(listed, n, before, after, i, b);
        assert after[a] in after;
        assert Wanted(graph, listed, n + 1, after[a]);
        var k :| 0 <= k < n + 1 && (after[a] == listed[k] || Connected(graph, listed[k], after[a]));
        assert after[a] != after[b];
        assert k < i ==> listed[k] in listed[..i];
      }
    }
  }

  /** What is ordered now was not listed before. */
  lemma NotYetListed(listed: seq<Id>, n: nat, before: seq<Id>, after: seq<Id>, i: nat, b: nat)
    requires n < |listed| && before <= after && Distinct(after) && (forall j :: 0 <= j < n ==> listed[j] in before)
    requires i < |listed| && |before| <= b < |after| && after[b] == listed[i]
    ensures i >= n
  {
    forall j | 0 <= j < n
      ensures listed[j] != after[b]
    {
      var m :| 0 <= m < |before| && before[m] == listed[j];
      assert after[m] != after[b];
    }
  }

  /* ---- The target's Reorder ---- */

  ghost predicate DistinctIds(candidates: seq<Candidate>) {
    forall i, j :: 0 <= i < j < |candidates| ==> candidates[i].artifact.id != candidates[j].artifact.id
  }

  function OrderIds(order: seq<Candidate>): (r: seq<Id>)
    ensures |r| == |order|
  {
    seq(|order|, i requires 0 <= i < |order| => order[i].artifact.id)
  }

  method Reorder(candidates: seq<Candidate>, records: seq<Record>, volumes: seq<Edition>) returns (r: Ordering)
    requires DistinctIds(candidates)
    ensures r.Ordered? <==>
            AllCovered(candidates, records, volumes) && Acyclic(Graph(candidates, records, volumes))
    ensures r.Ordered? ==>
              && multiset(r.order) == multiset(candidates)
              && Topological(Graph(candidates, records, volumes), OrderIds(r.order))
              && AsListed(Graph(candidates, records, volumes), OrderIds(candidates), OrderIds(r.order))
              && forall c :: c in candidates ==> Lists(candidates, records, volumes, r.dependencies, c)
    ensures r.Cyclic? ==>
              AllCovered(candidates, records, volumes) && !Acyclic(Graph(candidates, records, volumes))
    ensures r.Uncovered? ==>
              exists c, prior :: Misses(candidates, records, volumes, c, prior, r.release) && r.path == c.Ref()
  {
    var dependencies, missing := Dependencies(candidates, records, volumes);
    if missing.Some? {
      return Uncovered(missing.value.0, missing.value.1);
    }
    ghost var graph := Graph(candidates, records, volumes);
    DependenciesRepresent(candidates, records, volumes, dependencies);
    var byID := Index(candidates);
    var sorter := new Sorter(dependencies, graph);
    var ok := VisitCandidates(candidates, sorter);
    if !ok {
      return Cyclic;
    }
    var ids := sorter.ordered;
    TopologicalMeansAcyclic(graph, ids);
    var order := seq(|ids|, i requires 0 <= i < |ids| => byID[ids[i]]);
    OrderIsPermutation(candidates, order, ids);
    SortedDependencies(candidates, records, volumes, sorter.dependencies);
    r := Ordered(order, sorter.dependencies);
  }

  method VisitCandidates(candidates: seq<Candidate>, sorter: Sorter) returns (ok: bool)
    requires sorter.Valid([]) && sorter.graph.Keys == Ids(candidates) && sorter.ordered == []
    modifies sorter
    ensures ok ==> sorter.Valid([]) && Elems(sorter.ordered) == Ids(candidates)
    ensures ok ==> AsListed(sorter.graph, OrderIds(candidates), sorter.ordered)
    ensures !ok ==> !Acyclic(sorter.graph)
  {
    ghost var listed := OrderIds(candidates);
    hide Connected, Acyclic, GrewFor, Wanted, AsListed, Represents;
    NoneListed(sorter.graph, listed);
    for i := 0 to |candidates|
      invariant sorter.Valid([])
      invariant forall j :: 0 <= j < i ==> candidates[j].artifact.id in sorter.visited
      invariant AsListed(sorter.graph, listed, sorter.ordered)
      invariant forall x :: x in sorter.ordered ==> Wanted(sorter.graph, listed, i, x)
    {
      ghost var before := sorter.ordered;
      ok := sorter.Visit(candidates[i].artifact.id, []);
      if !ok {
        return false;
      }
      GrewIsLonger(sorter.graph, listed[i], before, sorter.ordered);
      assert Elems(before) <= Elems(sorter.ordered);
      WantedNext(sorter.graph, listed, i, before, sorter.ordered);
      ListedNext(sorter.graph, listed, i, before, sorter.ordered);
    }
    return true;
  }

  lemma NoneListed(graph: map<Id, set<Id>>, listed: seq<Id>)
    ensures AsListed(graph, listed, [])
  {
  }

  lemma GrewIsLonger(graph: map<Id, set<Id>>, id: Id, before: seq<Id>, after: seq<Id>)
    requires GrewFor(graph, id, before, after)
    ensures before <= after
  {
  }

  method Index(candidates: seq<Candidate>) returns (byID: map<Id, Candidate>)
    requires DistinctIds(candidates)
    ensures byID.Keys == Ids(candidates)
    ensures forall c :: c in candidates ==> c.artifact.id in byID && byID[c.artifact.id] == c
    ensures forall id :: id in byID ==> byID[id] in candidates && byID[id].artifact.id == id
  {
    byID := map[];
    for i := 0 to |candidates|
      invariant byID.Keys == Ids(candidates[..i])
      invariant forall j :: 0 <= j < i ==> candidates[j].artifact.id in byID && byID[candidates[j].artifact.id] == candidates[j]
      invariant forall id :: id in byID ==> byID[id] in candidates && byID[id].artifact.id == id
    {
      assert candidates[..i + 1] == candidates[..i] + [candidates[i]];
      byID := byID[candidates[i].artifact.id := candidates[i]];
    }
    assert candidates[..|candidates|] == candidates;
  }

  /** The dependency map, or the path and chapter of a replacement that does not cover its volume. */
  method Dependencies(candidates: seq<Candidate>, records: seq<Record>, volumes: seq<Edition>)
    returns (dependencies: map<Id, seq<Id>>, missing: Option<(Path, Id)>)
    requires DistinctIds(candidates)
    ensures missing.Some? ==>
              exists c, prior :: Misses(candidates, records, volumes, c, prior, missing.value.1) && missing.value.0 == c.Ref()
    ensures missing.None? ==>
              AllCovered(candidates, records, volumes) && dependencies.Keys <= Ids(candidates)
    ensures missing.None? ==> forall c :: c in candidates ==> Lists(candidates, records, volumes, dependencies, c)
  {
    hide Covered, Misses, Awaits, EditionMembers, Replacement;
    var members := MemberIndex(volumes);
    var byRelease := ReleaseIndex(candidates);
    dependencies := map[];
    for i := 0 to |candidates|
      invariant dependencies.Keys <= Ids(candidates)
      invariant forall j :: i <= j < |candidates| ==> candidates[j].artifact.id !in dependencies
      invariant forall j :: 0 <= j < i ==> Lists(candidates, records, volumes, dependencies, candidates[j])
      invariant forall j :: 0 <= j < i ==> Covered(candidates, records, volumes, candidates[j])
    {
      var c := candidates[i];
      var list, release := Collect(candidates, records, volumes, c, members, byRelease);
      if release.Some? {
        return dependencies, Some((c.Ref(), release.value));
      }
      if list != [] {
        dependencies := dependencies[c.artifact.id := list];
      }
    }
    missing := None;
  }

  method MemberIndex(volumes: seq<Edition>) returns (members: map<Id, seq<Id>>)
    ensures forall a :: Lookup(members, a) == EditionMembers(volumes, a)
  {
    members := map[];
    for i := 0 to |volumes|
      invariant forall a :: Lookup(members, a) == EditionMembers(volumes[..i], a)
    {
      var v := volumes[i];
      assert volumes[..i + 1][..i] == volumes[..i];
      members := members[v.artifact := Lookup(members, v.artifact) + v.members];
    }
    assert volumes[..|volumes|] == volumes;
  }

  method ReleaseIndex(candidates: seq<Candidate>) returns (byRelease: map<Id, Id>)
    ensures forall m :: (if m in byRelease then byRelease[m] else "") == Replacement(candidates, m)
  {
    byRelease := map[];
    for i := 0 to |candidates|
      invariant forall m :: (if m in byRelease then byRelease[m] else "") == Replacement(candidates[..i], m)
    {
      var c := candidates[i];
      assert candidates[..i + 1][..i] == candidates[..i];
      if c.volume.None? {
        byRelease := byRelease[c.release := c.artifact.id];
      } else {
        var ms := c.volume.value;
        for k := 0 to |ms|
          invariant forall m :: (if m in byRelease then byRelease[m] else "") ==
                                (if m in ms[..k] then c.artifact.id else Replacement(candidates[..i], m))
        {
          byRelease := byRelease[ms[k] := c.artifact.id];
        }
      }
    }
    assert candidates[..|candidates|] == candidates;
  }

  /** The dependencies one candidate appends, or a chapter no candidate carries. */
  method Collect(candidates: seq<Candidate>, records: seq<Record>, volumes: seq<Edition>, c: Candidate,
                 members: map<Id, seq<Id>>, byRelease: map<Id, Id>)
    returns (list: seq<Id>, missing: Option<Id>)
    requires c in candidates
    requires forall a :: Lookup(members, a) == EditionMembers(volumes, a)
    requires forall m :: (if m in byRelease then byRelease[m] else "") == Replacement(candidates, m)
    ensures missing.Some? ==> exists prior :: Misses(candidates, records, volumes, c, prior, missing.value)
    ensures missing.None? ==> Covered(candidates, records, volumes, c)
    ensures missing.None? ==> forall d :: d in list <==> Awaits(candidates, records, volumes, c, d)
  {
    list := [];
    for i := 0 to |records|
      invariant Covered(candidates, records[..i], volumes, c)
      invariant forall d :: d in list <==> Awaits(candidates, records[..i], volumes, c, d)
    {
      var prior := records[i];
      assert records[..i + 1] == records[..i] + [prior];
      MissesOneMore(candidates, records[..i], prior, volumes, c);
      if !Overwrites(c, prior) {
        continue;
      }
      var ms := Lookup(members, prior.artifact.id);
      var more, release := CollectMembers(candidates, c, ms, byRelease);
      if release.Some? {
        assert Misses(candidates, records, volumes, c, prior, release.value);
        return list, release;
      }
      AwaitsOneMore(candidates, records[..i], prior, volumes, c);
      list := list + more;
    }
    assert records[..|records|] == records;
    missing := None;
  }

  method CollectMembers(candidates: seq<Candidate>, c: Candidate, ms: seq<Id>, byRelease: map<Id, Id>)
    returns (list: seq<Id>, missing: Option<Id>)
    requires forall m :: (if m in byRelease then byRelease[m] else "") == Replacement(candidates, m)
    ensures missing.Some? ==> missing.value in ms && Replacement(candidates, missing.value) == ""
    ensures missing.None? ==> forall m :: m in ms ==> Replacement(candidates, m) != ""
    ensures missing.None? ==> forall d :: d in list <==> Carries(candidates, ms, c, d)
  {
    list := [];
    for k := 0 to |ms|
      invariant forall m :: m in ms[..k] ==> Replacement(candidates, m) != ""
      invariant forall d :: d in list <==> Carries(candidates, ms[..k], c, d)
    {
      var replacement := if ms[k] in byRelease then byRelease[ms[k]] else "";
      assert ms[..k + 1] == ms[..k] + [ms[k]];
      CarriesOneMore(candidates, ms[..k], ms[k], c);
      if replacement == "" {
        return list, Some(ms[k]);
      }
      if replacement != c.artifact.id {
        list := list + [replacement];
      }
    }
    assert ms[..|ms|] == ms;
    missing := None;
  }

  lemma CarriesOneMore(candidates: seq<Candidate>, members: seq<Id>, last: Id, c: Candidate)
    ensures forall d :: Carries(candidates, members + [last], c, d) <==>
              Carries(candidates, members, c, d) || Replacement(candidates, last) == d != c.artifact.id
  {
    forall d | Carries(candidates, members, c, d) || Replacement(candidates, last) == d != c.artifact.id
      ensures Carries(candidates, members + [last], c, d)
    {
      if Carries(candidates, members, c, d) {
        var m :| m in members && Replacement(candidates, m) == d != c.artifact.id;
        assert m in members + [last];
      } else {
        assert last in members + [last];
      }
    }
  }

  lemma AwaitsOneMore(candidates: seq<Candidate>, records: seq<Record>, last: Record, volumes: seq<Edition>,
          c: Candidate)
    requires Overwrites(c, last)
    ensures forall d :: Awaits(candidates, records + [last], volumes, c, d) <==>
              || Awaits(candidates, records, volumes, c, d)
              || Carries(candidates, EditionMembers(volumes, last.artifact.id), c, d)
  {
    assert last in records + [last];
  }

  lemma MissesOneMore(candidates: seq<Candidate>, records: seq<Record>, last: Record, volumes: seq<Edition>,
          c: Candidate)
    ensures forall prior, m :: Misses(candidates, records + [last], volumes, c, prior, m) ==>
              Misses(candidates, records, volumes, c, prior, m) || prior == last
  {
  }

  lemma {:induction false} ReplacementIsCandidate(candidates: seq<Candidate>, release: Id)
    ensures Replacement(candidates, release) != "" ==>
              exists c :: c in candidates && release in c.Chapters() && c.artifact.id == Replacement(candidates, release)
  {
    if candidates == [] {
    } else {
      var last := candidates[|candidates| - 1];
      if release in last.Chapters() {
        assert last in candidates;
      } else {
        ReplacementIsCandidate(candidates[..|candidates| - 1], release);
      }
    }
  }

  lemma DependenciesRepresent(candidates: seq<Candidate>, records: seq<Record>, volumes: seq<Edition>,
                              dependencies: map<Id, seq<Id>>)
    requires DistinctIds(candidates) && AllCovered(candidates, records, volumes)
    requires dependencies.Keys <= Ids(candidates)
    requires forall c :: c in candidates ==> Lists(candidates, records, volumes, dependencies, c)
    ensures Represents(dependencies, Graph(candidates, records, volumes))
  {
    var graph := Graph(candidates, records, volumes);
    forall j, d | 0 <= j < |candidates|
      ensures d in Lookup(dependencies, candidates[j].artifact.id) <==> d in graph[candidates[j].artifact.id]
    {
      AwaitsIsEdge(candidates, records, volumes, candidates[j], d);
    }
  }

  lemma SortedDependencies(candidates: seq<Candidate>, records: seq<Record>, volumes: seq<Edition>,
                           dependencies: map<Id, seq<Id>>)
    requires DistinctIds(candidates) && AllCovered(candidates, records, volumes)
    requires Represents(dependencies, Graph(candidates, records, volumes))
    ensures forall c :: c in candidates ==> Lists(candidates, records, volumes, dependencies, c)
  {
    forall c, d | c in candidates
      ensures d in Lookup(dependencies, c.artifact.id) <==> Awaits(candidates, records, volumes, c, d)
    {
      var graph := Graph(candidates, records, volumes);
      assert c.artifact.id in graph;
      assert d in Lookup(dependencies, c.artifact.id) <==> d in Elems(Lookup(dependencies, c.artifact.id));
      AwaitsIsEdge(candidates, records, volumes, c, d);
    }
  }

  lemma AwaitsIsEdge(candidates: seq<Candidate>, records: seq<Record>, volumes: seq<Edition>, c: Candidate, d: Id)
    requires DistinctIds(candidates) && AllCovered(candidates, records, volumes) && c in candidates
    ensures Edge(Graph(candidates, records, volumes), c.artifact.id, d) <==> Awaits(candidates, records, volumes, c, d)
  {
    if Awaits(candidates, records, volumes, c, d) {
      var prior :| prior in records && Overwrites(c, prior)
        && Carries(candidates, EditionMembers(volumes, prior.artifact.id), c, d);
      var release :| release in EditionMembers(volumes, prior.artifact.id)
        && Replacement(candidates, release) == d != c.artifact.id;
      assert !Misses(candidates, records, volumes, c, prior, release);
      ReplacementIsCandidate(candidates, release);
      assert IdAwaits(candidates, records, volumes, c.artifact.id, d);
    }
  }

  lemma OrderIsPermutation(candidates: seq<Candidate>, order: seq<Candidate>, ids: seq<Id>)
    requires DistinctIds(candidates) && Distinct(ids) && Elems(ids) == Ids(candidates)
    requires |order| == |ids|
    requires forall i :: 0 <= i < |ids| ==> order[i] in candidates && order[i].artifact.id == ids[i]
    ensures multiset(order) == multiset(candidates)
    ensures OrderIds(order) == ids
  {
    forall x
      ensures x in order <==> x in candidates
    {
      if x in candidates {
        assert x.artifact.id in Elems(ids);
      }
    }
    assert Distinct(order) && Distinct(candidates);
    DistinctSameMultiset(order, candidates);
  }

  lemma DistinctSameMultiset(a: seq<Candidate>, b: seq<Candidate>)
    requires Distinct(a) && Distinct(b) && forall x :: x in a <==> x in b
    ensures multiset(a) == multiset(b)
  {
    forall x
      ensures multiset(a)[x] == multiset(b)[x]
    {
      DistinctOnce(a, x);
      DistinctOnce(b, x);
    }
  }

  lemma {:induction false} DistinctOnce(s: seq<Candidate>, x: Candidate)
    requires Distinct(s)
    ensures multiset(s)[x] == if x in s then 1 else 0
  {
    if s == [] {
    } else {
      var front, last := s[..|s| - 1], s[|s| - 1];
      DistinctOnce(front, x);
      assert s == front + [last];
    }
  }

  ghost predicate Represents(dependencies: map<Id, seq<Id>>, graph: map<Id, set<Id>>) {
    && dependencies.Keys <= graph.Keys
    && forall id :: id in graph ==> Elems(Lookup(dependencies, id)) == graph[id] <= graph.Keys
  }

  lemma ReplaceList(dependencies: map<Id, seq<Id>>, graph: map<Id, set<Id>>, id: Id, list: seq<Id>)
    requires Represents(dependencies, graph) && id in dependencies
    requires Elems(list) == graph[id]
    ensures Represents(dependencies[id := list], graph)
  {
    var next := dependencies[id := list];
    forall x | x in graph
      ensures Elems(Lookup(next, x)) == graph[x] <= graph.Keys
    {
      assert Elems(Lookup(dependencies, x)) == graph[x];
    }
  }

  lemma {:induction false} DistinctLength(s: seq<Id>)
    requires Distinct(s)
    ensures |Elems(s)| == |s|
  {
    if s == [] {
    } else {
      var front, last := s[..|s| - 1], s[|s| - 1];
      DistinctLength(front);
      assert Elems(s) == Elems(front) + {last};
    }
  }
}
