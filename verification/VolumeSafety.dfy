/** What every volume plan guarantees: disjoint editions, and editions that are exactly their range. */
module VolumeSafety {
  import opened Common
  import opened Sequence
  import opened ReaderConfig
  import opened Volumes

  /* ---- Groups ---- */

  lemma {:induction false} ChaptersAre(q: Request, among: seq<Candidate>, group: GroupId)
    requires q.output.chaptersPerVolume >= 1
    ensures forall c :: c in q.Chapters(among, group) <==> c in among && q.Groupable(c) && q.GroupOf(c) == group
  {
    if among == [] {
    } else {
      ChaptersAre(q, among[..|among| - 1], group);
      assert among == among[..|among| - 1] + [among[|among| - 1]];
    }
  }

  /** The chapters in chapter order: the same chapters, ascending. */
  lemma ByNumberSorts(q: Request, cs: seq<Candidate>)
    ensures multiset(q.ByNumber(cs)) == multiset(cs)
    ensures InOrder(q.Before, q.ByNumber(cs))
  {
    SortedSorts(q.Before, cs);
  }

  lemma SameChapters(q: Request, cs: seq<Candidate>)
    ensures forall c :: c in q.ByNumber(cs) <==> c in cs
    ensures |q.ByNumber(cs)| == |cs|
  {
    ByNumberSorts(q, cs);
    hide Request.ByNumber;
    assert forall c :: c in q.ByNumber(cs) <==> c in multiset(q.ByNumber(cs));
    assert forall c :: c in cs <==> c in multiset(cs);
    assert |multiset(cs)| == |cs| && |multiset(q.ByNumber(cs))| == |q.ByNumber(cs)|;
  }

  /** A member of a group's edition is one of its chapters. */
  lemma MemberChapter(q: Request, group: GroupId, m: Member) returns (c: Candidate)
    requires q.output.chaptersPerVolume >= 1 && m in q.MembersOf(q.ByNumber(q.Group(group)))
    ensures c in q.candidates && c.release == m.release && q.Groupable(c) && q.GroupOf(c) == group
    ensures c in q.Group(group)
  {
    var cs := q.ByNumber(q.Group(group));
    SameChapters(q, q.Group(group));
    ChaptersAre(q, q.candidates, group);
    hide Request.ByNumber, Request.Chapters, Request.Groupable, Request.GroupOf;
    var i :| 0 <= i < |cs| && q.MembersOf(cs)[i] == m;
    c := cs[i];
    assert c in cs;
  }

  /** A member of an emitted edition comes from a selected source. */
  lemma EmittedMember(q: Request, group: GroupId, m: Member) returns (c: Candidate)
    requires q.output.chaptersPerVolume >= 1 && q.Emits(group)
    requires m in q.EditionOf(group, q.ByNumber(q.Group(group))).members
    ensures c in q.candidates && c.release == m.release && q.Groupable(c) && q.GroupOf(c) == group && c.source in q.scope
    ensures c in q.Group(group)
  {
    c := MemberChapter(q, group, m);
    hide Request.ByNumber, Request.Group, Request.Groupable, Request.GroupOf, Request.EditionOf, Request.Frozen;
    assert !q.Excluded(q.Group(group));
  }

  /* ---- Editions stay disjoint ---- */

  predicate Disjoint(a: Edition, b: Edition) {
    forall m, n :: m in a.members && n in b.members ==> m.release != n.release
  }

  ghost predicate DisjointEditions(active: map<GroupId, Edition>) {
    forall g, h :: g in active && h in active && g != h ==> Disjoint(active[g], active[h])
  }

  /** Releases keep their source, and the request knows the source of every candidate. */
  ghost predicate Knows(q: Request, origin: Id -> Id) {
    && (forall r :: r in q.sources ==> q.sources[r] == origin(r))
    && (forall c :: c in q.candidates ==> c.release in q.sources && q.sources[c.release] == c.source)
  }

  /** An edition carries the source of its first member. */
  ghost predicate Sourced(active: map<GroupId, Edition>, origin: Id -> Id) {
    forall g :: g in active ==> active[g].members != [] && origin(active[g].members[0].release) == active[g].source
  }

  lemma NewEditionsDisjoint(q: Request, g: GroupId, h: GroupId)
    requires q.output.chaptersPerVolume >= 1
    requires q.Emits(g) && q.Emits(h) && g != h
    ensures Disjoint(q.EditionOf(g, q.ByNumber(q.Group(g))), q.EditionOf(h, q.ByNumber(q.Group(h))))
  {
    var e, f := q.EditionOf(g, q.ByNumber(q.Group(g))), q.EditionOf(h, q.ByNumber(q.Group(h)));
    hide Request.Emits, Request.EditionOf;
    forall m, n | m in e.members && n in f.members
      ensures m.release != n.release
    {
      var c := EmittedMember(q, g, m);
      var d := EmittedMember(q, h, n);
    }
  }

  /** In an ordinary sync a new edition shares nothing with a frozen one. */
  lemma FrozenDisjoint(q: Request, g: GroupId, h: GroupId)
    requires q.output.chaptersPerVolume >= 1 && !q.rebuild && q.Emits(g) && h in q.active
    ensures g != h && Disjoint(q.EditionOf(g, q.ByNumber(q.Group(g))), q.active[h])
  {
    var e := q.EditionOf(g, q.ByNumber(q.Group(g)));
    forall m, n | m in e.members && n in q.active[h].members
      ensures m.release != n.release
    {
      var c := EmittedMember(q, g, m);
      assert !q.Shares(q.active[h], q.Group(g));
    }
  }

  /** On a rebuild a new edition shares nothing with an edition whose sources are out of scope. */
  lemma OutOfScopeDisjoint(q: Request, origin: Id -> Id, g: GroupId, h: GroupId)
    requires q.output.chaptersPerVolume >= 1 && Knows(q, origin) && Sourced(q.active, origin)
    requires q.Emits(g) && h in q.active && !q.Mixed() && q.active[h].source !in q.scope
    ensures Disjoint(q.EditionOf(g, q.ByNumber(q.Group(g))), q.active[h])
  {
    var e := q.EditionOf(g, q.ByNumber(q.Group(g)));
    hide Request.Emits, Request.EditionOf;
    assert !q.MixedEdition(q.active[h]);
    assert !q.Selects(q.active[h].members[0].release);
    forall m, n | m in e.members && n in q.active[h].members
      ensures m.release != n.release
    {
      var c := EmittedMember(q, g, m);
      assert q.Selects(c.release);
      assert q.active[h].members[0] in q.active[h].members;
    }
  }

  /** An edition kept through a rebuild has the members its group still has. */
  lemma RetainedMember(q: Request, h: GroupId, n: Member) returns (c: Candidate)
    requires q.output.chaptersPerVolume >= 1 && q.rebuild && q.Settles(h) && !q.Emits(h)
    requires h in q.active && n in q.active[h].members
    ensures c in q.candidates && c.release == n.release && q.Groupable(c) && q.GroupOf(c) == h
  {
    GroupNotEmpty(q, h);
    var cs := q.ByNumber(q.Group(h));
    assert q.Frozen(h, q.EditionOf(h, cs), q.Uncertain(cs));
    assert n in q.MembersOf(cs);
    hide *;
    c := MemberChapter(q, h, n);
  }

  lemma GroupNotEmpty(q: Request, h: GroupId)
    requires q.output.chaptersPerVolume >= 1 && h in q.Groups()
    ensures q.ByNumber(q.Group(h)) != []
  {
    SameChapters(q, q.Group(h));
    ChaptersAre(q, q.candidates, h);
    var c :| c in q.candidates && q.Groupable(c) && q.GroupOf(c) == h;
    assert c in q.ByNumber(q.Group(h));
  }

  lemma RetainedDisjoint(q: Request, g: GroupId, h: GroupId)
    requires q.output.chaptersPerVolume >= 1 && q.rebuild && h in q.active
    requires q.Emits(g) && q.Settles(h) && !q.Emits(h) && g != h
    ensures Disjoint(q.EditionOf(g, q.ByNumber(q.Group(g))), q.active[h])
  {
    var e := q.EditionOf(g, q.ByNumber(q.Group(g)));
    hide Request.Emits, Request.EditionOf, Request.Settles;
    forall m, n | m in e.members && n in q.active[h].members
      ensures m.release != n.release
    {
      var c := EmittedMember(q, g, m);
      var d := RetainedMember(q, h, n);
    }
  }

  /** Neither a sync nor a rebuild of any scope makes two active editions share a chapter. */
  lemma PlanKeepsDisjoint(q: Request, origin: Id -> Id)
    requires Knows(q, origin)
    requires DisjointEditions(q.active) && Sourced(q.active, origin)
    ensures DisjointEditions(Activated(q.active, q.Planned()))
    ensures Sourced(Activated(q.active, q.Planned()), origin)
  {
    var r := q.Planned();
    var after := Activated(q.active, r);
    if !r.failed && !r.blocked && q.bundled {
      forall g, h | g in after && h in after && g != h
        ensures Disjoint(after[g], after[h])
      {
        if g in r.editions {
          AgainstNew(q, origin, g, h);
        } else if h in r.editions {
          AgainstNew(q, origin, h, g);
          assert Disjoint(after[h], after[g]);
        }
      }
      forall g | g in after
        ensures after[g].members != [] && origin(after[g].members[0].release) == after[g].source
      {
        if g in r.editions {
          EmittedSource(q, origin, g);
        }
      }
    }
  }

  lemma EmittedSource(q: Request, origin: Id -> Id, g: GroupId)
    requires q.output.chaptersPerVolume >= 1 && Knows(q, origin) && q.Emits(g)
    ensures var e := q.EditionOf(g, q.ByNumber(q.Group(g)));
            e.members != [] && origin(e.members[0].release) == e.source
  {
    var cs := q.ByNumber(q.Group(g));
    SameChapters(q, q.Group(g));
    ChaptersAre(q, q.candidates, g);
    assert cs[0] in cs;
  }

  lemma AgainstNew(q: Request, origin: Id -> Id, g: GroupId, h: GroupId)
    requires Knows(q, origin) && Sourced(q.active, origin) && q.bundled
    requires var r := q.Planned();
             !r.failed && !r.blocked && g in r.editions && h in Activated(q.active, r) && g != h
    ensures Disjoint(q.Planned().editions[g], Activated(q.active, q.Planned())[h])
  {
    var r := q.Planned();
    hide Request.Emits, Request.EditionOf, Request.Settles, Request.Mixed, Disjoint;
    if h in r.editions {
      NewEditionsDisjoint(q, g, h);
    } else if !q.rebuild {
      FrozenDisjoint(q, g, h);
    } else if q.active[h].source !in q.scope {
      OutOfScopeDisjoint(q, origin, g, h);
    } else {
      NotEmitted(q, h);
      RetainedDisjoint(q, g, h);
    }
  }

  lemma NotEmitted(q: Request, h: GroupId)
    requires q.output.chaptersPerVolume >= 1 && q.Settles(h) && h !in q.PlannedVolumes().editions
    ensures !q.Emits(h)
  {
  }

  /** An ordinary sync only adds: no active edition is removed or replaced. */
  lemma OrdinarySyncOnlyAdds(q: Request, g: GroupId)
    requires !q.rebuild && g in q.active
    ensures g in Activated(q.active, q.Planned()) && Activated(q.active, q.Planned())[g] == q.active[g]
  {
    if q.bundled && q.output.chaptersPerVolume >= 1 {
      assert !q.Emits(g);
    }
  }

  /** Any sequence of syncs and rebuilds, each of which may fail to activate. */
  ghost predicate Syncs(actives: seq<map<GroupId, Edition>>, requests: seq<Request>, origin: Id -> Id) {
    && |actives| == |requests| + 1
    && forall k :: 0 <= k < |requests| ==>
         && requests[k].active == actives[k] && Knows(requests[k], origin)
         && actives[k + 1] in {actives[k], Activated(actives[k], requests[k].Planned())}
  }

  lemma {:induction false} SyncsStayDisjoint(actives: seq<map<GroupId, Edition>>, requests: seq<Request>,
          origin: Id -> Id, k: nat)
    requires Syncs(actives, requests, origin) && k < |actives|
    requires DisjointEditions(actives[0]) && Sourced(actives[0], origin)
    ensures DisjointEditions(actives[k]) && Sourced(actives[k], origin)
  {
    hide DisjointEditions, Sourced, Request.Planned, Activated, Knows;
    if k == 0 {
    } else {
      SyncsStayDisjoint(actives, requests, origin, k - 1);
      assert actives[k - 1 + 1] in {actives[k - 1], Activated(actives[k - 1], requests[k - 1].Planned())};
      PlanKeepsDisjoint(requests[k - 1], origin);
    }
  }

  /* ---- Editions are exactly their range ---- */

  /**
   * On a series the validator accepts, these chapters stand where Resolve places detected ones. Of
   * other chapters, such as archived ones out of scope, nothing is said.
   */
  ghost predicate FromResolve(q: Request, cs: seq<Candidate>) {
    && Accepted(q.series, q.output) && q.series.finalChapter == q.output.finalChapter
    && forall c :: c in cs && c.release in q.facts ==> IsResolved(q.series, q.facts[c.release].placement)
  }

  ghost predicate IsResolved(series: Series, r: Placement) {
    exists p: Placement, bookId: string :: p.bookId == "" && r == Resolved(series, p, bookId)
  }

  lemma {:induction false} NotesAre(extent: Extent, present: set<int>, n: int)
    ensures forall gap :: gap in Notes(extent, present, n) <==>
              extent.first <= gap.chapter < n && gap.chapter !in present && ReasonFor(extent.gaps, gap.chapter) == Some(gap.reason)
    decreases n - extent.first
  {
    if n <= extent.first {
    } else {
      NotesAre(extent, present, n - 1);
    }
  }

  lemma RangeHolds(output: Output, chapter: int)
    requires output.chaptersPerVolume >= 1 && chapter >= 1
    requires output.finalChapter > 0 ==> chapter <= output.finalChapter
    ensures RangeOf(output, chapter).first <= chapter <= RangeOf(output, chapter).last
  {
    var size := output.chaptersPerVolume;
    assert (chapter - 1) / size * size + (chapter - 1) % size == chapter - 1;
  }

  /** Ranges partition the chapters: one that lies in another's range has the same range. */
  lemma RangesPartition(output: Output, chapter: int, other: int)
    requires output.chaptersPerVolume >= 1 && chapter >= 1
    requires RangeOf(output, chapter).first <= other <= RangeOf(output, chapter).last
    ensures RangeOf(output, other) == RangeOf(output, chapter)
  {
    var size := output.chaptersPerVolume;
    var block := (chapter - 1) / size;
    assert block * size <= other - 1 < block * size + size;
    BlockOf(other - 1, block, size);
  }

  lemma {:induction false} LaterBlock(size: int, a: int, b: int)
    requires size >= 1
    ensures a < b ==> a * size + size <= b * size
    decreases b - a
  {
    if a >= b {
    } else {
      LaterBlock(size, a, b - 1);
      assert b * size == (b - 1) * size + size;
    }
  }

  lemma BlockOf(n: int, block: int, size: int)
    requires size >= 1 && block * size <= n < block * size + size
    ensures n / size == block
  {
    assert n == n / size * size + n % size;
    LaterBlock(size, n / size, block);
    LaterBlock(size, block, n / size);
  }

  /** A chapter with a known position in a book lies in the book's range. */
  lemma KnownIsInRange(books: seq<Book>, i: nat, p: Placement)
    requires i < |books| && Placed(books, i, p).position != 0
    ensures InRange(books[i], p.chapter)
    ensures Placed(books, i, p).chapter == p.chapter && Placed(books, i, p).bookId == books[i].id
  {
    hide Base, FirstReached;
  }

  /** A placement of a declared book with a known position: in its range, at the book's base. */
  lemma BookPlacement(series: Series, r: Placement) returns (i: nat, p: Placement)
    requires IsResolved(series, r) && r.bookId != "" && r.position != 0
    ensures var books := ByNumber(series.books);
            && i < |books| && r == Placed(books, i, p) && p.chapter == r.chapter
            && InRange(books[i], r.chapter) && books[i].id == r.bookId
  {
    var p0: Placement, bookId: string :| p0.bookId == "" && r == Resolved(series, p0, bookId);
    var books := ByNumber(series.books);
    i, p := FindBook(books, 0, p0, bookId), Given(p0, bookId);
    hide ByNumber, Placed, InRange;
    KnownIsInRange(books, i, p);
  }

  /** Only what is detected outside any book resolves to no book. */
  lemma NoBook(series: Series, p: Placement, bookId: string)
    requires forall i :: 0 <= i < |ByNumber(series.books)| ==> ByNumber(series.books)[i].id != ""
    ensures Resolved(series, p, bookId).bookId == "" ==> p.book == 0 && bookId == ""
  {
    var books := ByNumber(series.books);
    hide ByNumber, Base, FirstReached, InRange, FindBook, Decimal;
  }

  lemma AcceptedIds(books: seq<Book>)
    requires AcceptedBooks(books)
    ensures forall i :: 0 <= i < |books| ==> books[i].id != ""
  {
    forall i | 0 <= i < |books|
      ensures books[i].id != ""
    {
      assert AcceptedBook(books, i);
    }
  }

  /** A placement outside any book stands at its own chapter number, up to the final chapter. */
  lemma SinglePlacement(series: Series, output: Output, r: Placement)
    requires Accepted(series, output) && IsResolved(series, r) && r.bookId == ""
    ensures r.position != 0 ==> r.position == r.chapter
    ensures series.finalChapter > 0 && !r.keepSingle ==> r.chapter <= series.finalChapter
  {
    var p: Placement, bookId: string :| p.bookId == "" && r == Resolved(series, p, bookId);
    AcceptedIds(ByNumber(series.books));
    NoBook(series, p, bookId);
    hide ByNumber, Accepted, Placed, FindBook;
  }

  /** The book a group id names is the one its chapters were placed in. */
  lemma DeclaredBook(series: Series, output: Output, i: nat)
    requires Accepted(series, output) && i < |ByNumber(series.books)|
    ensures var b := ByNumber(series.books)[i];
            var k := FindDeclared(series.books, b.id);
            k < |series.books| && series.books[k] == b
  {
    var books := ByNumber(series.books);
    var b := books[i];
    Sequence.ByNumberSorts(series.books);
    hide ByNumber, AcceptedBook;
    assert b in multiset(books) && b in series.books;
    var k := FindDeclared(series.books, b.id);
    assert series.books[k] in multiset(series.books);
    var j :| 0 <= j < |books| && books[j] == series.books[k];
  }

  lemma ChapterInExtent(q: Request, g: GroupId, c: Candidate)
    requires q.output.chaptersPerVolume >= 1 && FromResolve(q, [c])
    requires q.Groupable(c) && q.GroupOf(c) == g && q.Position(c) != 0
    requires q.Extent(g).first <= q.Extent(g).last
    ensures q.Extent(g).first <= q.Number(c) <= q.Extent(g).last
  {
    var r := q.facts[c.release].placement;
    assert c in [c] && IsResolved(q.series, r);
    if r.bookId == "" {
      SinglePlacement(q.series, q.output, r);
      hide Accepted;
      RangeHolds(q.output, r.chapter);
    } else {
      var i, p := BookPlacement(q.series, r);
      DeclaredBook(q.series, q.output, i);
      assert AcceptedBook(ByNumber(q.series.books), i);
      hide Accepted, ByNumber, Placed, FindDeclared;
    }
  }

  lemma PositionsIncrease(q: Request, g: GroupId, c: Candidate, d: Candidate)
    requires q.output.chaptersPerVolume >= 1 && FromResolve(q, [c, d])
    requires q.Groupable(c) && q.GroupOf(c) == g && q.Position(c) != 0
    requires q.Groupable(d) && q.GroupOf(d) == g && q.Position(d) != 0
    requires q.Number(c) < q.Number(d)
    ensures q.Position(c) < q.Position(d)
  {
    var r, s := q.facts[c.release].placement, q.facts[d.release].placement;
    assert c in [c, d] && d in [c, d] && IsResolved(q.series, r) && IsResolved(q.series, s);
    if r.bookId == "" {
      SinglePlacement(q.series, q.output, r);
      SinglePlacement(q.series, q.output, s);
    } else {
      var i, p := BookPlacement(q.series, r);
      var j, t := BookPlacement(q.series, s);
      var books := ByNumber(q.series.books);
      SoundWhenAccepted(books);
      hide Placed, ByNumber;
      assert i == j by {
        hide AcceptedBook;
      }
      PlacedInOrder(books, i, i, p, t);
    }
  }

  lemma SoundWhenAccepted(books: seq<Book>)
    requires AcceptedBooks(books)
    ensures forall b :: b in books ==> SoundBook(b)
  {
    forall b | b in books
      ensures SoundBook(b)
    {
      var i :| 0 <= i < |books| && books[i] == b;
      assert AcceptedBook(books, i);
    }
  }

  ghost predicate Noted(e: Edition, n: int) {
    exists gap :: gap in e.recipe.notes && gap.chapter == n && gap.reason != ""
  }

  /**
   * An emitted edition is exact: chapters and positions strictly increase, and first..last is the
   * disjoint union of the member chapters and the reasoned gaps it notes.
   */
  lemma EmittedIsExact(q: Request, g: GroupId)
    requires q.output.chaptersPerVolume >= 1 && FromResolve(q, q.Group(g)) && q.Emits(g)
    ensures var cs := q.ByNumber(q.Group(g));
            var e := q.EditionOf(g, cs);
            && |e.members| == |cs| && cs != []
            && (forall i :: 0 <= i < |cs| ==> e.members[i].release == cs[i].release)
            && (forall i, j :: 0 <= i < j < |cs| ==>
                  q.Number(cs[i]) < q.Number(cs[j]) && e.members[i].position < e.members[j].position)
            && (forall n :: e.first <= n <= e.last <==> n in q.Present(cs) || Noted(e, n))
            && (forall n :: !(n in q.Present(cs) && Noted(e, n)))
            && (forall gap :: gap in e.recipe.notes ==> gap in q.Extent(g).gaps && gap.reason != "")
  {
    MembersIncrease(q, g);
    GroupNotEmpty(q, g);
    RangeIsExact(q, g);
    NotesAreDeclared(q, g, q.ByNumber(q.Group(g)));
    hide Request.Emits, Request.ByNumber, Request.Group, FromResolve, Request.Extent, Noted, Notes, Request.Present;
  }

  /** The gaps noted are declared ones, with their reasons. */
  lemma NotesAreDeclared(q: Request, g: GroupId, cs: seq<Candidate>)
    requires q.output.chaptersPerVolume >= 1 && cs != []
    ensures forall gap :: gap in q.EditionOf(g, cs).recipe.notes ==> gap in q.Extent(g).gaps && gap.reason != ""
  {
    NotesAre(q.Extent(g), q.Present(cs), q.Extent(g).last + 1);
    ReasonsGiven(q.Extent(g).gaps);
    hide Notes, Request.Present, ReasonFor, Request.Extent, Request.MembersOf, Request.ReadingsOf;
    var e := q.EditionOf(g, cs);
    forall gap | gap in e.recipe.notes
      ensures gap in q.Extent(g).gaps && gap.reason != ""
    {
      assert ReasonFor(q.Extent(g).gaps, gap.chapter) == Some(gap.reason);
    }
  }

  lemma SamePresent(q: Request, cs: seq<Candidate>)
    ensures q.Present(q.ByNumber(cs)) == q.Present(cs)
  {
    hide Request.ByNumber, Request.Number;
    SameChapters(q, cs);
  }

  lemma RangeIsExact(q: Request, g: GroupId)
    requires q.output.chaptersPerVolume >= 1 && FromResolve(q, q.Group(g)) && q.Emits(g) && q.ByNumber(q.Group(g)) != []
    ensures var cs := q.ByNumber(q.Group(g));
            var e := q.EditionOf(g, cs);
            && (forall n :: e.first <= n <= e.last <==> n in q.Present(cs) || Noted(e, n))
            && (forall n :: !(n in q.Present(cs) && Noted(e, n)))
  {
    hide Request.Emits, Request.ByNumber, Request.Group, FromResolve, Request.Extent, Request.Present, Request.Number,
         Request.MembersOf, Request.ReadingsOf, Notes, ReasonFor;
    EmittedMembersUsable(q, g);
    SamePresent(q, q.Group(g));
    var extent, present := q.Extent(g), q.Present(q.Group(g));
    NotesAre(extent, present, extent.last + 1);
    ReasonsGiven(extent.gaps);
    var e := q.EditionOf(g, q.ByNumber(q.Group(g)));
    forall n
      ensures extent.first <= n <= extent.last ==> n in present || Noted(e, n)
    {
      if extent.first <= n <= extent.last && n !in present {
        assert Accounted(extent, present, n);
        assert Gap(n, ReasonFor(extent.gaps, n).value) in e.recipe.notes;
      }
    }
  }

  lemma {:induction false} ReasonsGiven(gaps: seq<Gap>)
    ensures forall n :: ReasonFor(gaps, n).Some? ==>
              ReasonFor(gaps, n).value != "" && Gap(n, ReasonFor(gaps, n).value) in gaps
  {
    if gaps == [] {
    } else {
      ReasonsGiven(gaps[..|gaps| - 1]);
    }
  }

  /** The chapters of an emitted group are usable, in the expected range, and account for all of it. */
  lemma EmittedMembersUsable(q: Request, g: GroupId)
    requires q.output.chaptersPerVolume >= 1 && FromResolve(q, q.Group(g)) && q.Emits(g)
    ensures var group := q.Group(g);
            && (forall c :: c in group ==> q.Extent(g).first <= q.Number(c) <= q.Extent(g).last)
            && (forall n :: n in q.Present(group) ==> q.Extent(g).first <= n <= q.Extent(g).last)
            && (forall n :: q.Extent(g).first <= n <= q.Extent(g).last ==> Accounted(q.Extent(g), q.Present(group), n))
  {
    ChaptersAre(q, q.candidates, g);
    var group := q.Group(g);
    assert q.Complete(g, group);
    hide Request.Emits, Request.Group, Request.Chapters;
    forall c | c in group
      ensures q.Extent(g).first <= q.Number(c) <= q.Extent(g).last
    {
      ChapterInExtent(q, g, c);
    }
  }

  lemma MembersIncrease(q: Request, g: GroupId)
    requires q.output.chaptersPerVolume >= 1 && FromResolve(q, q.Group(g)) && q.Emits(g)
    ensures var cs := q.ByNumber(q.Group(g));
            forall i, j :: 0 <= i < j < |cs| ==> q.Number(cs[i]) < q.Number(cs[j]) && q.Position(cs[i]) < q.Position(cs[j])
  {
    var group, cs := q.Group(g), q.ByNumber(q.Group(g));
    SameChapters(q, group);
    ChaptersAre(q, q.candidates, g);
    ByNumberSorts(q, group);
    assert q.Complete(g, group);
    hide Request.Emits, Request.ByNumber, Request.Chapters;
    DistinctAfterSort(q, group, cs);
    forall i, j | 0 <= i < j < |cs|
      ensures q.Number(cs[i]) < q.Number(cs[j]) && q.Position(cs[i]) < q.Position(cs[j])
    {
      assert cs[i] in group && cs[j] in group;
      PositionsIncrease(q, g, cs[i], cs[j]);
    }
  }

  lemma DistinctAfterSort(q: Request, group: seq<Candidate>, cs: seq<Candidate>)
    requires multiset(group) == multiset(cs) && q.DistinctNumbers(group)
    ensures q.DistinctNumbers(cs)
  {
    hide Request.Number;
    DistinctInAnyOrder(q.Number, group, cs);
  }
}
