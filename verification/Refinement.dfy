/** Exactly what the replacement of an identity takes away and leaves, read off the package document. */
module Refinement {
  import opened Common
  import opened Paths
  import opened Identity

  /** The reference leads to this id of the package document: by fragment alone, or over a path back to the document. */
  predicate Leads(reference: Reference, package: Location, id: string) {
    && id != "" && reference.Url? && !reference.absolute && reference.host == "" && reference.query == "" && reference.fragment == id
    && (reference.path == [] || Clean(package.Dir() + reference.path, package.rooted) == Clean(package.segments, package.rooted))
  }

  lemma LeadsIs(reference: Reference, package: Location, id: string)
    requires id != ""
    ensures Target(reference, package) == id <==> Leads(reference, package, id)
  {
    if reference.Url? && reference.path != [] {
      CleanJoins(package.Dir(), reference.path, package.rooted);
    }
    hide Clean;
  }

  /** A meta or a package link that says something about the element with this id. */
  predicate Describes(n: Node, package: Location, id: string) {
    match n
    case Meta(_, _, refinement, _) => Leads(refinement, package, id)
    case Raw(link, _, refinements, _) => link && exists r :: r in refinements && Leads(r, package, id)
  }

  predicate SortKey(n: Node) {
    n.Meta? && (n.name == "calibre:title_sort" || n.name == "calibre:author_sort")
  }

  predicate Owns(ids: seq<string>, id: string) {
    id != "" && id in ids
  }

  /** The id of a title, a creator or a sort key, or of a description of something with such an id, and so on. */
  ghost predicate Condemned(p: Package, id: string, steps: nat)
    decreases steps
  {
    || (exists e :: e in p.elements && (e.name == "title" || e.name == "creator") && Owns(e.ids, id))
    || (exists n :: n in p.metas + p.raws && SortKey(n) && Owns(n.ids, id))
    || (steps > 0 && exists n, about :: && n in p.metas + p.raws && Owns(n.ids, id) && Describes(n, p.location, about)
                                        && Condemned(p, about, steps - 1))
  }

  ghost predicate IsCondemned(p: Package, id: string) {
    exists steps: nat :: Condemned(p, id, steps)
  }

  /** The node is a sort key, or describes something condemned. */
  ghost predicate HasToGo(p: Package, n: Node) {
    SortKey(n) || exists about :: Describes(n, p.location, about) && IsCondemned(p, about)
  }

  lemma DescribesIs(n: Node, package: Location, id: string)
    requires id != ""
    ensures Refines(n, id, package) <==> Describes(n, package, id)
  {
    forall r: Reference
      ensures Target(r, package) == id <==> Leads(r, package, id)
    {
      LeadsIs(r, package, id);
    }
    hide Target, Leads;
  }

  lemma SortKeyIs(n: Node, package: Location)
    ensures Goes(n, {}, package) <==> SortKey(n)
  {
    hide Target;
  }

  lemma {:induction false} CondemnedHasId(p: Package, id: string, steps: nat)
    requires Condemned(p, id, steps) || Reached(p, id, steps)
    ensures id != ""
  {
    hide Describes, Refines, Goes;
  }

  lemma {:induction false} CondemnedIs(p: Package, id: string, steps: nat)
    ensures Condemned(p, id, steps) <==> Reached(p, id, steps)
    decreases steps
  {
    forall n
      ensures Goes(n, {}, p.location) <==> SortKey(n)
    {
      SortKeyIs(n, p.location);
    }
    if steps > 0 {
      forall n, about
        ensures Describes(n, p.location, about) && Condemned(p, about, steps - 1) <==>
                  Refines(n, about, p.location) && Reached(p, about, steps - 1)
      {
        CondemnedIs(p, about, steps - 1);
        if about != "" {
          DescribesIs(n, p.location, about);
        } else if Reached(p, about, steps - 1) {
          CondemnedHasId(p, about, steps - 1);
        }
        hide Refines;
      }
    }
    hide Describes, Refines, Goes, SortKey;
  }

  lemma LeastIsCondemned(p: Package)
    ensures forall id :: id in LeastClosed(p) <==> IsCondemned(p, id)
  {
    LeastClosedIsReached(p);
    forall id
      ensures Reachable(p, id) <==> IsCondemned(p, id)
    {
      forall steps: nat
        ensures Condemned(p, id, steps) <==> Reached(p, id, steps)
      {
        CondemnedIs(p, id, steps);
      }
      hide Condemned, Reached;
    }
    hide LeastClosed, IsCondemned, Reachable;
  }

  lemma HasToGoIs(p: Package, n: Node)
    ensures Goes(n, LeastClosed(p), p.location) <==> HasToGo(p, n)
  {
    LeastIsCondemned(p);
    GoesBecause(n, LeastClosed(p), p.location);
    SortKeyIs(n, p.location);
    forall about | IsCondemned(p, about)
      ensures Refines(n, about, p.location) <==> Describes(n, p.location, about)
    {
      var steps: nat :| Condemned(p, about, steps);
      CondemnedHasId(p, about, steps);
      DescribesIs(n, p.location, about);
    }
    hide Goes, Refines, Describes, SortKey, LeastClosed, IsCondemned;
  }

  /** What is kept of a list stands at these places of it, in their order. */
  ghost predicate AtPlaces<T>(kept: seq<T>, all: seq<T>, places: seq<nat>) {
    && |places| == |kept|
    && (forall i, j :: 0 <= i < j < |places| ==> places[i] < places[j])
    && forall i :: 0 <= i < |places| ==> places[i] < |all| && kept[i] == all[places[i]]
  }

  lemma OnePlaceMore<T>(kept: seq<T>, front: seq<T>, places: seq<nat>, last: T)
    requires AtPlaces(kept, front, places)
    ensures AtPlaces(kept, front + [last], places)
    ensures AtPlaces(kept + [last], front + [last], places + [|front|])
    ensures |front| !in places
  {
  }

  lemma NoPlaces<T>()
    ensures AtPlaces<T>([], [], [])
  {
  }

  /** The places are those where the test fails. */
  ghost predicate Selects<T>(places: seq<nat>, all: seq<T>, test: T -> bool) {
    forall k: nat :: k < |all| ==> (k in places <==> !test(all[k]))
  }

  lemma OneSelectedMore<T>(places: seq<nat>, front: seq<T>, last: T, test: T -> bool)
    requires Selects(places, front, test) && |front| !in places
    ensures Selects(if test(last) then places else places + [|front|], front + [last], test)
  {
    var all := front + [last];
    forall k: nat | k < |all|
      ensures k in (if test(last) then places else places + [|front|]) <==> !test(all[k])
    {
      assert all[k] == if k < |front| then front[k] else last;
    }
  }

  lemma {:induction false} KeptPlaces(nodes: seq<Node>, removed: set<string>, package: Location) returns (places: seq<nat>)
    ensures AtPlaces(Kept(nodes, removed, package), nodes, places)
    ensures Selects(places, nodes, n => Goes(n, removed, package))
  {
    hide Goes, AtPlaces, Selects;
    if nodes == [] {
      places := [];
      NoPlaces<Node>();
      NoneSelected<Node>(n => Goes(n, removed, package));
      assert nodes == [] && Kept(nodes, removed, package) == [];
    } else {
      var front, last := nodes[..|nodes| - 1], nodes[|nodes| - 1];
      var before := KeptPlaces(front, removed, package);
      assert nodes == front + [last];
      OnePlaceMore(Kept(front, removed, package), front, before, last);
      OneSelectedMore(before, front, last, n => Goes(n, removed, package));
      places := if Goes(last, removed, package) then before else before + [|front|];
      assert Kept(nodes, removed, package) == if Goes(last, removed, package) then Kept(front, removed, package)
                                              else Kept(front, removed, package) + [last];
    }
  }

  lemma NoneSelected<T>(test: T -> bool)
    ensures Selects([], [], test)
  {
  }

  lemma {:induction false} ElementPlaces(elements: seq<Element>) returns (places: seq<nat>)
    ensures AtPlaces(KeptElements(elements), elements, places)
    ensures Selects(places, elements, e => Names(e))
  {
    hide AtPlaces, Selects, Names;
    if elements == [] {
      places := [];
      NoPlaces<Element>();
      NoneSelected<Element>(e => Names(e));
      assert elements == [] && KeptElements(elements) == [];
    } else {
      var front, last := elements[..|elements| - 1], elements[|elements| - 1];
      var before := ElementPlaces(front);
      assert elements == front + [last];
      OnePlaceMore(KeptElements(front), front, before, last);
      OneSelectedMore(before, front, last, e => Names(e));
      places := if Names(last) then before else before + [|front|];
      assert KeptElements(elements) == if Names(last) then KeptElements(front) else KeptElements(front) + [last];
    }
  }

  /**
   * Replacing an identity leaves, each in its order, the elements that are no title or creator, followed by the
   * new title and creator, and the metas and other children that are no sort key and describe nothing condemned.
   */
  lemma ReplacedExactly(p: Package, title: string, author: string)
      returns (elements: seq<nat>, metas: seq<nat>, raws: seq<nat>)
    ensures var q := Replaced(p, title, author);
            && |q.elements| == |elements| + 2
            && q.elements[|elements|..] == [Element("title", [], Trim(title)), Element("creator", [], Trim(author))]
            && AtPlaces(q.elements[..|elements|], p.elements, elements)
            && AtPlaces(q.metas, p.metas, metas) && AtPlaces(q.raws, p.raws, raws)
    ensures forall k: nat :: k < |p.elements| ==> (k in elements <==> p.elements[k].name != "title" && p.elements[k].name != "creator")
    ensures forall k: nat :: k < |p.metas| ==> (k in metas <==> !HasToGo(p, p.metas[k]))
    ensures forall k: nat :: k < |p.raws| ==> (k in raws <==> !HasToGo(p, p.raws[k]))
  {
    elements := ElementPlaces(p.elements);
    metas := KeptPlaces(p.metas, LeastClosed(p), p.location);
    raws := KeptPlaces(p.raws, LeastClosed(p), p.location);
    hide Goes, HasToGo, LeastClosed, Trim, AtPlaces, KeptElements, Kept;
    forall n
      ensures Goes(n, LeastClosed(p), p.location) <==> HasToGo(p, n)
    {
      HasToGoIs(p, n);
    }
    assert AtPlaces(KeptElements(p.elements), p.elements, elements);
    SameLength(KeptElements(p.elements), p.elements, elements);
  }

  lemma SameLength<T>(kept: seq<T>, all: seq<T>, places: seq<nat>)
    requires AtPlaces(kept, all, places)
    ensures |kept| == |places|
  {
  }

  /** Setting a name changes the value of its first element alone, or adds one at the end. */
  lemma {:induction false} WithElementExactly(elements: seq<Element>, name: string, value: string, k: nat)
    requires k <= |elements| && (forall j :: 0 <= j < k ==> elements[j].name != name) && (k < |elements| ==> elements[k].name == name)
    ensures WithElement(elements, name, value) ==
              if k == |elements| then elements + [Element(name, [], value)] else elements[k := elements[k].(value := value)]
  {
    if elements == [] {
    } else if k > 0 {
      WithElementExactly(elements[1..], name, value, k - 1);
      assert elements == [elements[0]] + elements[1..];
    } else {
      assert elements == [elements[0]] + elements[1..];
    }
  }
}
