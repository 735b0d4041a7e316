/**
 * The embedded identity of a publication gives way to the release's: titles, creators and sort keys
 * go, and with them every meta and link that refines something that goes.
 */
module Identity {
  import opened Common
  import opened Paths

  /* ---- References ---- */

  /** A parsed reference; an empty path is `[]`, a path "a/b" is `["a", "b"]`. */
  datatype Reference =
    | Malformed
    | Url(absolute: bool, host: string, query: string, fragment: string, path: seq<string>)

  /** The place of the package document, as the segments of its path. */
  datatype Location = Location(rooted: bool, segments: seq<string>)
  {
    function Dir(): seq<string> {
      if segments == [] then [] else segments[..|segments| - 1]
    }
  }

  /** The id of the package document that a reference names, or "". */
  function Target(reference: Reference, package: Location): string {
    if reference.Malformed? || reference.absolute || reference.host != "" || reference.query != "" then ""
    else if reference.path != [] && Clean(Clean(package.Dir(), package.rooted) + reference.path, package.rooted) !=
                                    Clean(package.segments, package.rooted) then ""
    else reference.fragment
  }

  /** A relative reference from the package's directory names an id of the package exactly when it leads back to it. */
  lemma RelativeTarget(package: Location, path: seq<string>, fragment: string)
    requires path != []
    ensures Target(Url(false, "", "", fragment, path), package) ==
              if Clean(package.Dir() + path, package.rooted) == Clean(package.segments, package.rooted) then fragment else ""
  {
    CleanJoins(package.Dir(), path, package.rooted);
  }

  /* ---- Metadata ---- */

  datatype Element = Element(name: string, ids: seq<string>, value: string)

  /** A meta, or another child kept as raw tokens; `link` for a link element of the package namespace. */
  datatype Node =
    | Meta(name: string, ids: seq<string>, refinement: Reference, content: string)
    | Raw(link: bool, ids: seq<string>, refinements: seq<Reference>, tokens: string)

  datatype Package = Package(location: Location, elements: seq<Element>, metas: seq<Node>, raws: seq<Node>)

  function Ids(ids: seq<string>): set<string> {
    set id | id in ids && id != ""
  }

  predicate Names(e: Element) {
    e.name == TITLE || e.name == CREATOR
  }

  const TITLE := "title"
  const CREATOR := "creator"

  function NewNames(title: string, author: string): seq<Element> {
    [Element(TITLE, [], Trim(title)), Element(CREATOR, [], Trim(author))]
  }

  /** The node names a sort key, or refines something removed. */
  predicate Goes(n: Node, removed: set<string>, package: Location) {
    match n
    case Meta(name, _, refinement, _) =>
      Target(refinement, package) in removed || name == "calibre:title_sort" || name == "calibre:author_sort"
    case Raw(link, _, refinements, _) => link && exists r :: r in refinements && Target(r, package) in removed
  }

  function Kept(nodes: seq<Node>, removed: set<string>, package: Location): seq<Node> {
    if nodes == [] then []
    else
      var last := nodes[|nodes| - 1];
      Kept(nodes[..|nodes| - 1], removed, package) + (if Goes(last, removed, package) then [] else [last])
  }

  function KeptElements(elements: seq<Element>): seq<Element> {
    if elements == [] then []
    else
      var last := elements[|elements| - 1];
      KeptElements(elements[..|elements| - 1]) + (if Names(last) then [] else [last])
  }

  function WithElement(elements: seq<Element>, name: string, value: string): seq<Element> {
    if elements == [] then [Element(name, [], value)]
    else if elements[0].name == name then [elements[0].(value := value)] + elements[1..]
    else [elements[0]] + WithElement(elements[1..], name, value)
  }

  lemma {:induction false} WithNewElement(elements: seq<Element>, name: string, value: string)
    requires forall e :: e in elements ==> e.name != name
    ensures WithElement(elements, name, value) == elements + [Element(name, [], value)]
  {
    if elements == [] {
    } else {
      WithNewElement(elements[1..], name, value);
    }
  }

  /* ---- What has to go ---- */

  /** The ids of what goes are removed too. */
  ghost predicate Closed(p: Package, s: set<string>) {
    && (forall e :: e in p.elements && Names(e) ==> Ids(e.ids) <= s)
    && (forall n :: n in p.metas + p.raws && Goes(n, s, p.location) ==> Ids(n.ids) <= s)
  }

  function AllIds(p: Package): set<string> {
    (set e, id | e in p.elements && id in Ids(e.ids) :: id) + (set n, id | n in p.metas + p.raws && id in Ids(n.ids) :: id)
  }

  /** The least closed set of ids: in every closed set. */
  ghost function LeastClosed(p: Package): set<string> {
    set id | id in AllIds(p) && forall s: set<string> :: Closed(p, s) ==> id in s
  }

  lemma GoesWithMore(n: Node, s: set<string>, t: set<string>, package: Location)
    requires s <= t && Goes(n, s, package)
    ensures Goes(n, t, package)
  {
    hide Target;
  }

  lemma LeastClosedIsClosed(p: Package)
    ensures Closed(p, LeastClosed(p))
    ensures forall s :: Closed(p, s) ==> LeastClosed(p) <= s
  {
    var least := LeastClosed(p);
    hide Goes;
    forall e | e in p.elements && Names(e)
      ensures Ids(e.ids) <= least
    {
      assert Ids(e.ids) <= AllIds(p);
    }
    forall n | n in p.metas + p.raws && Goes(n, least, p.location)
      ensures Ids(n.ids) <= least
    {
      assert Ids(n.ids) <= AllIds(p);
      forall s | Closed(p, s)
        ensures Ids(n.ids) <= s
      {
        assert least <= s;
        GoesWithMore(n, least, s, p.location);
      }
    }
  }

  /** The id belongs to a title, creator or sort key, or to something that refines an id reached in fewer steps. */
  ghost predicate Reached(p: Package, id: string, steps: nat)
    decreases steps
  {
    || (exists e :: e in p.elements && Names(e) && id in Ids(e.ids))
    || (exists n :: n in p.metas + p.raws && id in Ids(n.ids) && Goes(n, {}, p.location))
    || (steps > 0 && exists n, target :: n in p.metas + p.raws && id in Ids(n.ids) && Refines(n, target, p.location) &&
                                          Reached(p, target, steps - 1))
  }

  ghost predicate Refines(n: Node, target: string, package: Location) {
    match n
    case Meta(_, _, refinement, _) => Target(refinement, package) == target
    case Raw(link, _, refinements, _) => link && exists r :: r in refinements && Target(r, package) == target
  }

  lemma GoesBecause(n: Node, s: set<string>, package: Location)
    ensures Goes(n, s, package) <==> Goes(n, {}, package) || exists target :: target in s && Refines(n, target, package)
  {
    hide Target;
    if n.Raw? && Goes(n, s, package) {
      var r :| r in n.refinements && Target(r, package) in s;
      assert Refines(n, Target(r, package), package);
    } else if n.Meta? && Target(n.refinement, package) in s {
      assert Refines(n, Target(n.refinement, package), package);
    }
  }

  lemma {:induction false} ReachedInClosed(p: Package, id: string, steps: nat, s: set<string>)
    requires Reached(p, id, steps) && Closed(p, s)
    ensures id in s
    decreases steps
  {
    hide Goes, Refines;
    if exists e :: e in p.elements && Names(e) && id in Ids(e.ids) {
    } else if exists n :: n in p.metas + p.raws && id in Ids(n.ids) && Goes(n, {}, p.location) {
      var n :| n in p.metas + p.raws && id in Ids(n.ids) && Goes(n, {}, p.location);
      GoesWithMore(n, {}, s, p.location);
    } else {
      var n, target :| n in p.metas + p.raws && id in Ids(n.ids) && Refines(n, target, p.location) && Reached(p, target, steps - 1);
      ReachedInClosed(p, target, steps - 1, s);
      GoesBecause(n, s, p.location);
    }
  }

  ghost predicate Reachable(p: Package, id: string) {
    exists steps: nat :: Reached(p, id, steps)
  }

  /** The least closed set is what refinement reaches. */
  lemma LeastClosedIsReached(p: Package)
    ensures forall id :: id in LeastClosed(p) <==> Reachable(p, id)
  {
    LeastClosedIsClosed(p);
    ReachedSetClosed(p);
    hide LeastClosed, Closed;
    forall id
      ensures id in LeastClosed(p) <==> Reachable(p, id)
    {
      if Reachable(p, id) {
        var steps: nat :| Reached(p, id, steps);
        ReachedInClosed(p, id, steps, LeastClosed(p));
      }
      assert LeastClosed(p) <= ReachedSet(p);
    }
  }

  ghost function ReachedSet(p: Package): set<string> {
    set id | id in AllIds(p) && Reachable(p, id)
  }

  lemma ReachedSetClosed(p: Package)
    ensures Closed(p, ReachedSet(p))
  {
    var reached := ReachedSet(p);
    hide Goes, Refines;
    forall e, id | e in p.elements && Names(e) && id in Ids(e.ids)
      ensures id in reached
    {
      assert Reached(p, id, 0);
    }
    forall n, id | n in p.metas + p.raws && Goes(n, reached, p.location) && id in Ids(n.ids)
      ensures id in reached
    {
      GoesBecause(n, reached, p.location);
      if Goes(n, {}, p.location) {
        assert Reached(p, id, 0);
      } else {
        var target :| target in reached && Refines(n, target, p.location);
        var steps: nat :| Reached(p, target, steps);
        assert Reached(p, id, steps + 1);
      }
    }
  }

  /* ---- Filtering ---- */

  lemma {:induction false} KeptJoins(a: seq<Node>, b: seq<Node>, removed: set<string>, package: Location)
    ensures Kept(a + b, removed, package) == Kept(a, removed, package) + Kept(b, removed, package)
  {
    hide Goes;
    if b == [] {
      assert a + b == a;
    } else {
      KeptJoins(a, b[..|b| - 1], removed, package);
      assert (a + b)[..|a + b| - 1] == a + b[..|b| - 1];
    }
  }

  lemma {:induction false} KeptAll(nodes: seq<Node>, removed: set<string>, package: Location)
    requires forall n :: n in nodes ==> !Goes(n, removed, package)
    ensures Kept(nodes, removed, package) == nodes
  {
    hide Goes;
    if nodes == [] {
    } else {
      KeptAll(nodes[..|nodes| - 1], removed, package);
    }
  }

  lemma {:induction false} KeptAre(nodes: seq<Node>, removed: set<string>, package: Location)
    ensures forall n :: n in Kept(nodes, removed, package) <==> n in nodes && !Goes(n, removed, package)
  {
    hide Goes;
    if nodes == [] {
    } else {
      KeptAre(nodes[..|nodes| - 1], removed, package);
      assert nodes == nodes[..|nodes| - 1] + [nodes[|nodes| - 1]];
    }
  }

  ghost predicate Within(nodes: seq<Node>, p: Package) {
    forall n :: n in nodes ==> n in p.metas + p.raws
  }

  /** `nodes` is what is left of `all`: only nodes that must go are missing, and their ids are removed. */
  ghost predicate Remains(p: Package, all: seq<Node>, nodes: seq<Node>, removed: set<string>) {
    && Kept(nodes, LeastClosed(p), p.location) == Kept(all, LeastClosed(p), p.location)
    && (forall n :: n in nodes ==> n in all)
    && (forall n :: n in all ==> n in nodes || Ids(n.ids) <= removed)
  }

  lemma KeptWithout(front: seq<Node>, n: Node, back: seq<Node>, removed: set<string>, package: Location)
    requires Goes(n, removed, package)
    ensures Kept(front + [n] + back, removed, package) == Kept(front + back, removed, package)
  {
    hide Goes;
    KeptJoins(front + [n], back, removed, package);
    KeptJoins(front, back, removed, package);
    assert (front + [n])[..|front|] == front;
  }

  lemma DropNode(p: Package, all: seq<Node>, front: seq<Node>, n: Node, back: seq<Node>, removed: set<string>)
    requires Remains(p, all, front + [n] + back, removed) && Within(all, p)
    requires removed <= LeastClosed(p) && Goes(n, removed, p.location)
    ensures Remains(p, all, front + back, removed + Ids(n.ids))
    ensures removed + Ids(n.ids) <= LeastClosed(p)
  {
    var least := LeastClosed(p);
    LeastClosedIsClosed(p);
    GoesWithMore(n, removed, least, p.location);
    KeptWithout(front, n, back, least, p.location);
    hide Goes, LeastClosed, Kept;
    assert n in front + [n] + back;
    assert forall m :: m in front + [n] + back <==> m in front + back || m == n;
  }

  lemma Unroll(front: seq<Node>, nodes: seq<Node>, i: nat)
    requires i < |nodes|
    ensures front + nodes[i..] == front + [nodes[i]] + nodes[i + 1..]
  {
  }

  /** One pass over a list, removing as it goes: a node later in the list may refine one just removed. */
  method Filter(ghost p: Package, ghost all: seq<Node>, nodes: seq<Node>, package: Location, removed: set<string>)
      returns (kept: seq<Node>, grown: set<string>)
    requires package == p.location && Within(all, p)
    requires Remains(p, all, nodes, removed) && removed <= LeastClosed(p)
    ensures Remains(p, all, kept, grown) && removed <= grown <= LeastClosed(p)
    ensures |kept| <= |nodes|
    ensures |kept| == |nodes| ==> kept == nodes && grown == removed && forall n :: n in kept ==> !Goes(n, removed, package)
  {
    hide *;
    kept, grown := [], removed;
    assert kept + nodes[0..] == nodes;
    for i := 0 to |nodes|
      invariant |kept| <= i
      invariant Remains(p, all, kept + nodes[i..], grown) && removed <= grown <= LeastClosed(p)
      invariant |kept| == i ==> kept == nodes[..i] && grown == removed
      invariant |kept| == i ==> forall j :: 0 <= j < i ==> !Goes(nodes[j], removed, package)
    {
      var n := nodes[i];
      Unroll(kept, nodes, i);
      if Goes(n, grown, package) {
        DropNode(p, all, kept, n, nodes[i + 1..], grown);
        grown := grown + Ids(n.ids);
      } else {
        kept := kept + [n];
      }
    }
    assert kept + nodes[|nodes|..] == kept;
  }

  lemma RemainsWithMore(p: Package, all: seq<Node>, nodes: seq<Node>, removed: set<string>, grown: set<string>)
    requires Remains(p, all, nodes, removed) && removed <= grown
    ensures Remains(p, all, nodes, grown)
  {
    hide LeastClosed, Kept;
  }

  /** When a pass removes nothing, exactly the least closed set has been removed. */
  lemma StableIsLeast(p: Package, metas: seq<Node>, raws: seq<Node>, removed: set<string>)
    requires Passing(p, metas, raws, removed)
    requires forall n :: n in metas + raws ==> !Goes(n, removed, p.location)
    ensures removed == LeastClosed(p)
    ensures metas == Kept(p.metas, removed, p.location) && raws == Kept(p.raws, removed, p.location)
  {
    LeastClosedIsClosed(p);
    assert Closed(p, removed) by {
      hide Goes, LeastClosed, Kept;
    }
    hide Goes, LeastClosed, Closed;
    KeptAll(metas, removed, p.location);
    KeptAll(raws, removed, p.location);
  }

  /** What every pass keeps. */
  ghost predicate Passing(p: Package, metas: seq<Node>, raws: seq<Node>, removed: set<string>) {
    && Remains(p, p.metas, metas, removed) && Remains(p, p.raws, raws, removed)
    && removed <= LeastClosed(p) && (forall e :: e in p.elements && Names(e) ==> Ids(e.ids) <= removed)
  }

  /* ---- Replacing the identity ---- */

  class OpfMetadata {
    var title: string
    var creator: string
    var elements: seq<Element>
    var metas: seq<Node>
    var raws: seq<Node>

    ghost function Contents(package: Location): Package
      reads this
    {
      Package(package, elements, metas, raws)
    }

    /** Drops titles and creators and returns their ids. */
    method DropNames() returns (removed: set<string>)
      modifies this`elements
      ensures elements == KeptElements(old(elements))
      ensures forall id :: id in removed <==> exists e :: e in old(elements) && Names(e) && id in Ids(e.ids)
    {
      removed := {};
      var kept := [];
      for i := 0 to |elements|
        invariant elements == old(elements) && kept == KeptElements(elements[..i])
        invariant forall id :: id in removed <==> exists e :: e in elements[..i] && Names(e) && id in Ids(e.ids)
      {
        var e := elements[i];
        assert elements[..i + 1] == elements[..i] + [e];
        assert elements[..i + 1][..i] == elements[..i];
        if Names(e) {
          removed := removed + Ids(e.ids);
        } else {
          kept := kept + [e];
        }
      }
      assert elements[..|elements|] == elements;
      elements := kept;
    }

    /** Sets the first element of a name, or adds one. */
    method SetElement(name: string, value: string)
      modifies this`elements
      ensures elements == WithElement(old(elements), name, Trim(value))
    {
      for i := 0 to |elements|
        invariant elements == old(elements)
        invariant WithElement(elements, name, Trim(value)) == elements[..i] + WithElement(elements[i..], name, Trim(value))
      {
        if elements[i].name == name {
          elements := elements[i := elements[i].(value := Trim(value))];
          return;
        }
      }
      elements := elements + [Element(name, [], Trim(value))];
    }

    /** One pass over the metas and then the raw children. */
    method Pass(ghost p: Package, package: Location, removed: set<string>) returns (grown: set<string>)
      requires package == p.location && Passing(p, metas, raws, removed)
      modifies this`metas, this`raws
      ensures Passing(p, metas, raws, grown)
      ensures |metas| + |raws| <= |old(metas)| + |old(raws)|
      ensures |metas| + |raws| == |old(metas)| + |old(raws)| ==> forall n :: n in metas + raws ==> !Goes(n, grown, package)
    {
      hide Goes, LeastClosed, Remains;
      metas, grown := Filter(p, p.metas, metas, package, removed);
      RemainsWithMore(p, p.raws, raws, removed, grown);
      ghost var middle := grown;
      raws, grown := Filter(p, p.raws, raws, package, grown);
      RemainsWithMore(p, p.metas, metas, middle, grown);
    }

    method SetNames(newTitle: string, author: string)
      requires forall e :: e in elements ==> !Names(e)
      modifies this`elements, this`title, this`creator
      ensures elements == old(elements) + NewNames(newTitle, author)
      ensures title == Trim(newTitle) && creator == Trim(author)
    {
      hide Trim;
      title, creator := Trim(newTitle), Trim(author);
      WithNewElement(elements, TITLE, Trim(newTitle));
      WithNewElement(elements + [Element(TITLE, [], Trim(newTitle))], CREATOR, Trim(author));
      SetElement(TITLE, newTitle);
      SetElement(CREATOR, author);
    }

    /** Exactly the least closed set goes; everything else stays in its order, followed by the new identity. */
    method ReplacePublicationIdentity(package: Location, newTitle: string, author: string)
      modifies this
      ensures var least := LeastClosed(old(Contents(package)));
              && metas == Kept(old(metas), least, package)
              && raws == Kept(old(raws), least, package)
      ensures elements == KeptElements(old(elements)) + NewNames(newTitle, author)
      ensures title == Trim(newTitle) && creator == Trim(author)
    {
      ghost var p := Contents(package);
      var removed := DropNames();
      NamesPass(p, removed);
      NamesGone(p.elements);
      hide Goes, LeastClosed, Passing, Kept, KeptElements, Trim, NewNames, Names;
      while true
        invariant elements == KeptElements(p.elements)
        invariant Passing(p, metas, raws, removed)
        decreases |metas| + |raws|
      {
        var before := |metas| + |raws|;
        removed := Pass(p, package, removed);
        if |metas| + |raws| == before {
          break;
        }
      }
      StableIsLeast(p, metas, raws, removed);
      SetNames(newTitle, author);
    }
  }

  lemma NamesPass(p: Package, removed: set<string>)
    requires forall id :: id in removed <==> exists e :: e in p.elements && Names(e) && id in Ids(e.ids)
    ensures Passing(p, p.metas, p.raws, removed)
  {
    LeastClosedIsClosed(p);
    hide Goes, LeastClosed, Kept;
  }

  lemma {:induction false} NamesGone(elements: seq<Element>)
    ensures forall e :: e in KeptElements(elements) <==> e in elements && !Names(e)
  {
    if elements == [] {
    } else {
      NamesGone(elements[..|elements| - 1]);
      assert elements == elements[..|elements| - 1] + [elements[|elements| - 1]];
    }
  }

  /** The package after its identity was replaced. */
  ghost function Replaced(p: Package, title: string, author: string): Package {
    var least := LeastClosed(p);
    Package(p.location,
            KeptElements(p.elements) + NewNames(title, author),
            Kept(p.metas, least, p.location), Kept(p.raws, least, p.location))
  }

  /** Nothing that stays refines anything that went, and replacing again removes nothing more. */
  lemma ReplacedOnce(p: Package, title: string, author: string, again: string, byline: string)
    ensures var q := Replaced(p, title, author);
            && (forall n, target :: n in q.metas + q.raws && target in LeastClosed(p) ==> !Refines(n, target, p.location))
            && LeastClosed(q) == {}
            && Replaced(q, again, byline).metas == q.metas && Replaced(q, again, byline).raws == q.raws
  {
    var least := LeastClosed(p);
    var q := Replaced(p, title, author);
    KeptAre(p.metas, least, p.location);
    KeptAre(p.raws, least, p.location);
    NamesGone(p.elements);
    forall n | n in q.metas + q.raws
      ensures !Goes(n, least, p.location) && !Goes(n, {}, p.location)
      ensures forall target :: target in least ==> !Refines(n, target, p.location)
    {
      GoesBecause(n, least, p.location);
    }
    LeastClosedIsClosed(q);
    assert Closed(q, {}) by {
      hide Goes, LeastClosed, Kept;
    }
    hide Goes, LeastClosed, Closed;
    KeptAll(q.metas, {}, p.location);
    KeptAll(q.raws, {}, p.location);
  }
}
