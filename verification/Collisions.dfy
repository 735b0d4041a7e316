/**
 * Distinct destinations: candidates whose files would land at the same path, ignoring case, are
 * renamed after their release, and a set that still collides is rejected.
 */
module Collisions {
  import opened Common
  import opened Ledger
  import opened Delivery

  /** How names are compared and told apart: `fold` is lower case, `tag` the digest of source and release. */
  datatype Naming = Naming(fold: string -> string, tag: (Id, Id) -> string)
  {
    function Slot(c: Candidate): Path {
      Dest(fold(c.source), fold(c.trackKey), fold(c.filename))
    }

    function Renamed(c: Candidate): Candidate {
      var dot := LastDot(c.filename);
      c.(filename := c.filename[..dot] + "-r" + tag(c.source, c.release) + c.filename[dot..])
    }

    function Count(cs: seq<Candidate>, slot: Path): nat {
      if cs == [] then 0 else Count(cs[..|cs| - 1], slot) + (if Slot(cs[|cs| - 1]) == slot then 1 else 0)
    }

    /** The candidate's name among these. */
    function Name(among: seq<Candidate>, c: Candidate): Candidate {
      if Count(among, Slot(c)) >= 2 then Renamed(c) else c
    }

    function NameAll(among: seq<Candidate>, cs: seq<Candidate>): (r: seq<Candidate>)
      ensures |r| == |cs|
    {
      seq(|cs|, i requires 0 <= i < |cs| => Name(among, cs[i]))
    }

    ghost predicate DistinctSlots(cs: seq<Candidate>) {
      forall i, j :: 0 <= i < j < |cs| ==> Slot(cs[i]) != Slot(cs[j])
    }
  }

  /** Where the extension starts: at the last dot, or at the end. */
  function LastDot(name: string): (k: nat)
    ensures k <= |name|
    ensures '.' !in name[k..] || (k < |name| && name[k] == '.' && '.' !in name[k + 1..])
  {
    if '.' !in name then |name| else FindDot(name, |name| - 1)
  }

  function FindDot(name: string, k: nat): (r: nat)
    requires k < |name| && '.' in name[..k + 1] && '.' !in name[k + 1..]
    ensures r < |name| && name[r] == '.' && '.' !in name[r + 1..]
  {
    if name[k] == '.' then k
    else
      assert name[..k + 1] == name[..k] + [name[k]];
      assert name[k..] == [name[k]] + name[k + 1..];
      FindDot(name, k - 1)
  }

  ghost predicate Grouped(n: Naming, groups: map<Path, seq<nat>>, cs: seq<Candidate>) {
    forall slot :: |Places(groups, slot)| == n.Count(cs, slot)
  }

  lemma GroupedNext(n: Naming, groups: map<Path, seq<nat>>, cs: seq<Candidate>, i: nat)
    requires i < |cs| && Grouped(n, groups, cs[..i])
    ensures Grouped(n, groups[n.Slot(cs[i]) := Places(groups, n.Slot(cs[i])) + [i]], cs[..i + 1])
  {
    hide Naming.Slot;
    var more := groups[n.Slot(cs[i]) := Places(groups, n.Slot(cs[i])) + [i]];
    assert cs[..i + 1][..i] == cs[..i];
    forall slot
      ensures |Places(more, slot)| == n.Count(cs[..i + 1], slot)
    {
      assert |Places(groups, slot)| == n.Count(cs[..i], slot);
    }
  }

  /** resolveCollisionNames: None when renaming does not help. */
  method ResolveCollisionNames(candidates: seq<Candidate>, n: Naming) returns (r: Option<seq<Candidate>>)
    ensures r.Some? <==> n.DistinctSlots(n.NameAll(candidates, candidates))
    ensures r.Some? ==> r.value == n.NameAll(candidates, candidates)
  {
    hide Naming.Slot, Naming.Renamed;
    var groups: map<Path, seq<nat>> := map[];
    for i := 0 to |candidates|
      invariant Grouped(n, groups, candidates[..i])
    {
      GroupedNext(n, groups, candidates, i);
      var slot := n.Slot(candidates[i]);
      groups := groups[slot := Places(groups, slot) + [i]];
    }
    assert candidates[..|candidates|] == candidates;
    var named := [];
    for i := 0 to |candidates|
      invariant |named| == i && forall j :: 0 <= j < i ==> named[j] == n.Name(candidates, candidates[j])
    {
      var c := candidates[i];
      var group := Places(groups, n.Slot(c));
      named := named + [if |group| < 2 then c else n.Renamed(c)];
    }
    assert named == n.NameAll(candidates, candidates);
    var seen: set<Path> := {};
    for i := 0 to |named|
      invariant forall slot :: slot in seen <==> exists j :: 0 <= j < i && n.Slot(named[j]) == slot
      invariant forall j, k :: 0 <= j < k < i ==> n.Slot(named[j]) != n.Slot(named[k])
    {
      if n.Slot(named[i]) in seen {
        return None;
      }
      seen := seen + {n.Slot(named[i])};
    }
    r := Some(named);
  }

  function Places(groups: map<Path, seq<nat>>, slot: Path): seq<nat> {
    if slot in groups then groups[slot] else []
  }

  /** Distinct names make distinct destinations: what a delivery demands of its candidates. */
  lemma ResolvedNamesAreDistinct(n: Naming, candidates: seq<Candidate>)
    requires n.DistinctSlots(n.NameAll(candidates, candidates))
    ensures DistinctRefs(n.NameAll(candidates, candidates))
  {
    var cs := n.NameAll(candidates, candidates);
    forall i, j | 0 <= i < j < |cs|
      ensures cs[i].Ref() != cs[j].Ref()
    {
      assert n.Slot(cs[i]) != n.Slot(cs[j]);
    }
  }

  lemma {:induction false} CountJoin(n: Naming, a: seq<Candidate>, b: seq<Candidate>, slot: Path)
    ensures n.Count(a + b, slot) == n.Count(a, slot) + n.Count(b, slot)
  {
    hide Naming.Slot;
    if b == [] {
      assert a + b == a;
    } else {
      CountJoin(n, a, b[..|b| - 1], slot);
      assert (a + b)[..|a + b| - 1] == a + b[..|b| - 1];
    }
  }

  /** Moves the first of `a` to the front of `b`. */
  lemma Pull(a: seq<Candidate>, b: seq<Candidate>) returns (k: nat)
    requires a != [] && multiset(a) == multiset(b)
    ensures k < |b| && b[k] == a[0] && multiset(a[1..]) == multiset(b[..k] + b[k + 1..])
  {
    k := PlaceOf(a[0], a, b);
    Without(b, k);
    FirstTaken(a);
  }

  lemma PlaceOf(c: Candidate, a: seq<Candidate>, b: seq<Candidate>) returns (k: nat)
    requires c in a && multiset(a) == multiset(b)
    ensures k < |b| && b[k] == c
  {
    assert c in multiset(a);
    assert c in multiset(b);
    k :| 0 <= k < |b| && b[k] == c;
  }

  lemma FirstTaken(s: seq<Candidate>)
    requires s != []
    ensures multiset(s[1..]) == multiset(s) - multiset{s[0]}
  {
    assert s == [s[0]] + s[1..];
  }

  lemma {:induction false} CountIgnoresOrder(n: Naming, a: seq<Candidate>, b: seq<Candidate>, slot: Path)
    requires multiset(a) == multiset(b)
    ensures n.Count(a, slot) == n.Count(b, slot)
    decreases |a|
  {
    hide Naming.Slot;
    if a == [] {
      assert |multiset(b)| == 0;
    } else {
      var k := Pull(a, b);
      CountIgnoresOrder(n, a[1..], b[..k] + b[k + 1..], slot);
      CountJoin(n, [a[0]], a[1..], slot);
      CountJoin(n, b[..k], b[k + 1..], slot);
      CountJoin(n, b[..k] + [b[k]], b[k + 1..], slot);
      CountJoin(n, b[..k], [b[k]], slot);
      assert a == [a[0]] + a[1..] && b == b[..k] + [b[k]] + b[k + 1..];
    }
  }

  /** A candidate is called the same whatever order the candidates come in. */
  lemma NamesIgnoreOrder(n: Naming, a: seq<Candidate>, b: seq<Candidate>)
    requires multiset(a) == multiset(b)
    ensures forall c :: n.Name(a, c) == n.Name(b, c)
    ensures multiset(n.NameAll(a, a)) == multiset(n.NameAll(b, b))
  {
    forall c
      ensures n.Name(a, c) == n.Name(b, c)
    {
      CountIgnoresOrder(n, a, b, n.Slot(c));
    }
    assert n.NameAll(a, a) == n.NameAll(b, a);
    NamingIgnoresOrder(n, b, a, b);
  }

  lemma {:induction false} NamingIgnoresOrder(n: Naming, among: seq<Candidate>, a: seq<Candidate>, b: seq<Candidate>)
    requires multiset(a) == multiset(b)
    ensures multiset(n.NameAll(among, a)) == multiset(n.NameAll(among, b))
    decreases |a|
  {
    hide Naming.Name;
    if a == [] {
      assert |multiset(b)| == 0;
    } else {
      var k := Pull(a, b);
      NamingIgnoresOrder(n, among, a[1..], b[..k] + b[k + 1..]);
      var first := n.Name(among, a[0]);
      assert n.NameAll(among, a) == [first] + n.NameAll(among, a[1..]);
      var front, back := n.NameAll(among, b[..k]), n.NameAll(among, b[k + 1..]);
      assert n.NameAll(among, b) == front + [first] + back;
      assert n.NameAll(among, b[..k] + b[k + 1..]) == front + back;
    }
  }

  /* ---- Which names change, and to what ---- */

  /** The two would land at one path where case makes no difference. */
  predicate Collide(n: Naming, a: Candidate, b: Candidate) {
    n.fold(a.source) == n.fold(b.source) && n.fold(a.trackKey) == n.fold(b.trackKey) && n.fold(a.filename) == n.fold(b.filename)
  }

  lemma {:induction false} CountedIs(n: Naming, cs: seq<Candidate>, c: Candidate)
    ensures n.Count(cs, n.Slot(c)) >= 1 <==> exists j :: 0 <= j < |cs| && Collide(n, c, cs[j])
  {
    if cs == [] {
    } else {
      CountedIs(n, cs[..|cs| - 1], c);
    }
  }

  lemma CountedAround(n: Naming, cs: seq<Candidate>, i: nat, slot: Path)
    requires i < |cs| && n.Slot(cs[i]) == slot
    ensures n.Count(cs, slot) == n.Count(cs[..i], slot) + 1 + n.Count(cs[i + 1..], slot)
  {
    hide Naming.Slot;
    var front, c, back := cs[..i], cs[i], cs[i + 1..];
    assert cs == front + [c] + back;
    CountJoin(n, front + [c], back, slot);
    CountJoin(n, front, [c], slot);
    assert [c][..0] == [];
  }

  lemma CountedTwice(n: Naming, cs: seq<Candidate>, i: nat)
    requires i < |cs|
    ensures n.Count(cs, n.Slot(cs[i])) >= 2 <==> exists j :: 0 <= j < |cs| && j != i && Collide(n, cs[i], cs[j])
  {
    CountedAround(n, cs, i, n.Slot(cs[i]));
    CountedIs(n, cs[..i], cs[i]);
    var back := cs[i + 1..];
    CountedIs(n, back, cs[i]);
    hide Collide, Naming.Slot, Naming.Count;
    if j :| 0 <= j < |back| && Collide(n, cs[i], back[j]) {
      assert cs[i + 1 + j] == back[j];
    }
    if j :| 0 <= j < |cs| && j != i && Collide(n, cs[i], cs[j]) {
      assert if j < i then cs[..i][j] == cs[j] else back[j - i - 1] == cs[j];
    }
  }

  /** The name in two parts, the second from the last dot on. */
  predicate Splits(name: string, stem: string, extension: string) {
    && name == stem + extension
    && if extension == "" then '.' !in stem else extension[0] == '.' && '.' !in extension[1..]
  }

  /** A candidate keeps its name unless it collides; then its release's tag stands before the extension, and nothing else changes. */
  lemma NamedExactly(n: Naming, candidates: seq<Candidate>, i: nat)
    requires i < |candidates|
    ensures var c, r := candidates[i], n.NameAll(candidates, candidates)[i];
            if exists j :: 0 <= j < |candidates| && j != i && Collide(n, c, candidates[j])
            then exists stem, extension :: Splits(c.filename, stem, extension)
                   && r == c.(filename := stem + "-r" + n.tag(c.source, c.release) + extension)
            else r == c
  {
    CountedTwice(n, candidates, i);
    hide Naming.Count, Naming.Slot, Collide;
    var name := candidates[i].filename;
    var dot := LastDot(name);
    assert name == name[..dot] + name[dot..];
    assert dot < |name| ==> name[dot..][1..] == name[dot + 1..];
    assert name[|name|..] == "" && (dot == |name| ==> name[..dot] == name);
    NoDotAtEnd(name);
    assert Splits(name, name[..dot], name[dot..]);
  }

  lemma NoDotAtEnd(name: string)
    ensures LastDot(name) == |name| ==> '.' !in name
  {
  }

  /** Renaming helps exactly when no two of the new names collide. */
  lemma ResolvedExactly(n: Naming, candidates: seq<Candidate>)
    ensures var named := n.NameAll(candidates, candidates);
            n.DistinctSlots(named) <==> forall i, j :: 0 <= i < j < |named| ==> !Collide(n, named[i], named[j])
  {
    hide Naming.NameAll;
  }
}
