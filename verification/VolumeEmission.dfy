/** Exactly which editions a plan emits, keeps and removes, read off the candidates and what is stored of them. */
module VolumeEmission {
  import opened Common
  import opened Sequence
  import opened ReaderConfig
  import opened Volumes
  import opened VolumeSafety

  /* ---- A group, by its chapters ---- */

  /** A captured chapter of the series that is to be bundled. */
  predicate Bundled(q: Request, c: Candidate) {
    && c in q.candidates && c.ofSeries && c.release in q.facts
    && q.facts[c.release].placement.chapter >= 1 && !q.facts[c.release].placement.keepSingle
  }

  /** It belongs to its book, or to the full range of chapters it lies in, cut off at the final one. */
  predicate Belongs(q: Request, c: Candidate, g: GroupId) {
    && Bundled(q, c)
    && var p := q.facts[c.release].placement;
       if p.bookId != "" then g == BookGroup(p.bookId) else g.RangeGroup? && IsRange(q.output, g.first, g.last, p.chapter)
  }

  predicate IsRange(output: Output, first: int, last: int, chapter: int) {
    && first <= chapter < first + output.chaptersPerVolume
    && output.chaptersPerVolume >= 1 && (first - 1) % output.chaptersPerVolume == 0
    && last == if first <= output.finalChapter < first + output.chaptersPerVolume - 1 && output.finalChapter > 0
               then output.finalChapter else first + output.chaptersPerVolume - 1
  }

  lemma RangeIs(output: Output, first: int, last: int, chapter: int)
    requires output.chaptersPerVolume >= 1 && chapter >= 1
    ensures RangeOf(output, chapter) == RangeGroup(first, last) <==> IsRange(output, first, last, chapter)
  {
    var size := output.chaptersPerVolume;
    var start := 1 + (chapter - 1) / size * size;
    assert (chapter - 1) / size * size + (chapter - 1) % size == chapter - 1;
    MultipleOf(size, (chapter - 1) / size);
    if IsRange(output, first, last, chapter) {
      assert first - 1 == (first - 1) / size * size;
      BlockOf(chapter - 1, (first - 1) / size, size);
    }
  }

  lemma MultipleOf(size: int, n: int)
    requires size >= 1
    ensures n * size % size == 0
  {
    assert n * size == (n * size) / size * size + n * size % size;
    LaterBlock(size, n, (n * size) / size);
    LaterBlock(size, (n * size) / size, n);
  }

  lemma BelongsIs(q: Request, c: Candidate, g: GroupId)
    requires q.output.chaptersPerVolume >= 1
    ensures Belongs(q, c, g) <==> c in q.candidates && q.Groupable(c) && q.GroupOf(c) == g
  {
    if Bundled(q, c) && q.facts[c.release].placement.bookId == "" && g.RangeGroup? {
      RangeIs(q.output, g.first, g.last, q.facts[c.release].placement.chapter);
    }
    hide RangeOf, IsRange;
  }

  lemma GroupIs(q: Request, g: GroupId)
    requires q.output.chaptersPerVolume >= 1
    ensures forall c :: c in q.Group(g) <==> Belongs(q, c, g)
    ensures g in q.Groups() <==> exists c :: Belongs(q, c, g)
  {
    ChaptersAre(q, q.candidates, g);
    hide Belongs, Request.Chapters, Request.Groupable, Request.GroupOf;
    forall c
      ensures Belongs(q, c, g) <==> c in q.candidates && q.Groupable(c) && q.GroupOf(c) == g
    {
      BelongsIs(q, c, g);
    }
  }

  /* ---- When an edition is due ---- */

  /** An EPUB in scope with a known position, which only a rebuild may take from the old layout. */
  predicate Qualifies(q: Request, c: Candidate)
    requires c.release in q.facts
  {
    c.source in q.scope && c.epub && q.facts[c.release].placement.position != 0 && (q.rebuild || !q.facts[c.release].legacy)
  }

  /** No chapter number occurs twice in the group. */
  predicate NoDuplicates(q: Request, g: GroupId) {
    forall i, j :: 0 <= i < j < |q.candidates| && Belongs(q, q.candidates[i], g) && Belongs(q, q.candidates[j], g) ==>
      q.facts[q.candidates[i].release].placement.chapter != q.facts[q.candidates[j].release].placement.chapter
  }

  ghost predicate HasNumber(q: Request, g: GroupId, n: int) {
    exists c :: Belongs(q, c, g) && q.facts[c.release].placement.chapter == n
  }

  predicate Excused(gaps: seq<Gap>, n: int) {
    exists gap :: gap in gaps && gap.chapter == n && gap.reason != ""
  }

  /** From the first chapter to the last, each is there or has a reason to be missing. */
  ghost predicate Fills(q: Request, g: GroupId, first: int, last: int, gaps: seq<Gap>) {
    first <= last && forall n :: first <= n <= last ==> HasNumber(q, g, n) || Excused(gaps, n)
  }

  /** The whole range, in a series without book chapters, or a whole declared book. */
  ghost predicate Whole(q: Request, g: GroupId) {
    match g
    case RangeGroup(first, last) =>
      && Fills(q, g, first, last, q.output.gaps)
      && forall c :: c in q.candidates && c.ofSeries && c.release in q.facts ==> q.facts[c.release].placement.bookId == ""
    case BookGroup(id) =>
      exists k :: 0 <= k < |q.series.books| && q.series.books[k].id == id && (forall j :: 0 <= j < k ==> q.series.books[j].id != id)
        && Fills(q, g, q.series.books[k].First(), q.series.books[k].last, q.series.books[k].gaps)
  }

  /** No chapter of the group is in the active edition of another group. */
  ghost predicate Unclaimed(q: Request, g: GroupId) {
    forall h, m, c :: h in q.active && h != g && m in q.active[h].members && Belongs(q, c, g) ==> m.release != c.release
  }

  ghost predicate Due(q: Request, g: GroupId) {
    && (exists c :: Belongs(q, c, g)) && (forall c :: Belongs(q, c, g) ==> Qualifies(q, c))
    && NoDuplicates(q, g) && Whole(q, g) && (q.rebuild || Unclaimed(q, g))
  }

  lemma {:induction false} DistinctAmong(q: Request, among: seq<Candidate>, g: GroupId)
    requires q.output.chaptersPerVolume >= 1
    ensures q.DistinctNumbers(q.Chapters(among, g)) <==> DistinctIn(q, among, g)
  {
    hide Request.Groupable, Request.GroupOf, Request.Number;
    if among == [] {
    } else {
      var front, last := among[..|among| - 1], among[|among| - 1];
      DistinctAmong(q, front, g);
      ChaptersAre(q, front, g);
      assert forall c :: c in q.Chapters(front, g) <==> c in front && Chosen(q, c, g);
      OneMoreDistinct(q, front, last, g);
      assert among == front + [last];
    }
  }

  predicate DistinctIn(q: Request, among: seq<Candidate>, g: GroupId)
    requires q.output.chaptersPerVolume >= 1
  {
    forall i, j :: 0 <= i < j < |among| && Chosen(q, among[i], g) && Chosen(q, among[j], g) ==>
      q.Number(among[i]) != q.Number(among[j])
  }

  predicate Chosen(q: Request, c: Candidate, g: GroupId)
    requires q.output.chaptersPerVolume >= 1
  {
    q.Groupable(c) && q.GroupOf(c) == g
  }

  lemma DistinctSnoc(q: Request, s: seq<Candidate>, c: Candidate)
    ensures q.DistinctNumbers(s + [c]) <==> q.DistinctNumbers(s) && forall d :: d in s ==> q.Number(d) != q.Number(c)
  {
    hide Request.Number;
    var t := s + [c];
    if q.DistinctNumbers(t) {
      assert forall i :: 0 <= i < |s| ==> t[i] == s[i];
      forall d | d in s
        ensures q.Number(d) != q.Number(c)
      {
        var i :| 0 <= i < |s| && s[i] == d;
        assert q.Number(t[i]) != q.Number(t[|s|]);
      }
    }
  }

  lemma DistinctInSnoc(q: Request, s: seq<Candidate>, c: Candidate, g: GroupId)
    requires q.output.chaptersPerVolume >= 1
    ensures DistinctIn(q, s + [c], g) <==>
              DistinctIn(q, s, g) && (Chosen(q, c, g) ==> forall d :: d in s && Chosen(q, d, g) ==> q.Number(d) != q.Number(c))
  {
    hide Request.Number, Chosen;
    var t := s + [c];
    assert forall i :: 0 <= i < |s| ==> t[i] == s[i];
    if DistinctIn(q, t, g) && Chosen(q, c, g) {
      forall d | d in s && Chosen(q, d, g)
        ensures q.Number(d) != q.Number(c)
      {
        var i :| 0 <= i < |s| && s[i] == d;
        assert q.Number(t[i]) != q.Number(t[|s|]);
      }
    }
  }

  lemma OneMoreDistinct(q: Request, front: seq<Candidate>, last: Candidate, g: GroupId)
    requires q.output.chaptersPerVolume >= 1
    requires forall c :: c in q.Chapters(front, g) <==> c in front && Chosen(q, c, g)
    requires q.DistinctNumbers(q.Chapters(front, g)) <==> DistinctIn(q, front, g)
    ensures q.DistinctNumbers(q.Chapters(front + [last], g)) <==> DistinctIn(q, front + [last], g)
  {
    DistinctInSnoc(q, front, last, g);
    DistinctSnoc(q, q.Chapters(front, g), last);
    SnocChapters(q, front, last, g);
    hide Chosen, Request.Number, Request.Chapters, DistinctIn, Request.DistinctNumbers;
  }

  lemma SnocChapters(q: Request, front: seq<Candidate>, last: Candidate, g: GroupId)
    requires q.output.chaptersPerVolume >= 1
    ensures q.Chapters(front + [last], g) == if Chosen(q, last, g) then q.Chapters(front, g) + [last] else q.Chapters(front, g)
  {
    assert (front + [last])[..|front|] == front;
  }

  lemma DuplicatesAre(q: Request, g: GroupId)
    requires q.output.chaptersPerVolume >= 1
    ensures q.DistinctNumbers(q.Group(g)) <==> NoDuplicates(q, g)
  {
    DistinctAmong(q, q.candidates, g);
    forall c | c in q.candidates
      ensures Belongs(q, c, g) <==> Chosen(q, c, g)
      ensures Belongs(q, c, g) ==> q.facts[c.release].placement.chapter == q.Number(c)
    {
      BelongsIs(q, c, g);
    }
    hide Belongs, Chosen, Request.Number, Request.Group, Request.Chapters;
  }

  lemma {:induction false} ExcusedIs(gaps: seq<Gap>, n: int)
    ensures ReasonFor(gaps, n).Some? <==> Excused(gaps, n)
  {
    if gaps == [] {
    } else {
      var front, last := gaps[..|gaps| - 1], gaps[|gaps| - 1];
      ExcusedIs(front, n);
      assert gaps == front + [last];
      assert last in gaps;
    }
  }

  lemma FillsIs(q: Request, g: GroupId, extent: Extent)
    requires q.output.chaptersPerVolume >= 1
    ensures Fills(q, g, extent.first, extent.last, extent.gaps) <==>
              && extent.first <= extent.last
              && forall n :: extent.first <= n <= extent.last ==> Accounted(extent, q.Present(q.Group(g)), n)
  {
    GroupIs(q, g);
    hide Belongs, Request.Group;
    forall n
      ensures Accounted(extent, q.Present(q.Group(g)), n) <==> HasNumber(q, g, n) || Excused(extent.gaps, n)
    {
      ExcusedIs(extent.gaps, n);
      PresentIs(q, g, n);
    }
    hide HasNumber, Excused, Accounted;
  }

  lemma PresentIs(q: Request, g: GroupId, n: int)
    requires q.output.chaptersPerVolume >= 1 && forall c :: c in q.Group(g) <==> Belongs(q, c, g)
    ensures n in q.Present(q.Group(g)) <==> HasNumber(q, g, n)
  {
    hide Request.Group;
  }

  lemma WholeIs(q: Request, g: GroupId)
    requires q.output.chaptersPerVolume >= 1
    ensures Whole(q, g) <==>
              && Fills(q, g, q.Extent(g).first, q.Extent(g).last, q.Extent(g).gaps) && !(q.HasBooks() && g.RangeGroup?)
  {
    hide Fills;
    if g.BookGroup? {
      var k := FindDeclared(q.series.books, g.book);
      if k == |q.series.books| {
        assert !Fills(q, g, 1, 0, []) by {
          EmptyRange(q, g);
        }
      }
    }
  }

  lemma EmptyRange(q: Request, g: GroupId)
    ensures !Fills(q, g, 1, 0, [])
  {
  }

  lemma CompleteIs(q: Request, g: GroupId)
    requires q.output.chaptersPerVolume >= 1
    ensures q.Complete(g, q.Group(g)) <==> (forall c :: Belongs(q, c, g) ==> Qualifies(q, c)) && NoDuplicates(q, g) && Whole(q, g)
  {
    DuplicatesAre(q, g);
    FillsIs(q, g, q.Extent(g));
    WholeIs(q, g);
    QualifiesIs(q, g);
    hide Belongs, NoDuplicates, Request.DistinctNumbers, Fills, Whole, Request.Extent, Request.HasBooks, Accounted, Request.Present,
         Qualifies, Request.Usable, Request.Group, Request.Groups, Request.Excluded;
  }

  /** What the planner settles on is what is due. */
  lemma DueIs(q: Request, g: GroupId)
    requires q.output.chaptersPerVolume >= 1
    ensures Due(q, g) <==> q.Settles(g)
  {
    GroupIs(q, g);
    CompleteIs(q, g);
    UnclaimedIs(q, g);
    hide Belongs, NoDuplicates, Whole, Unclaimed, Request.Complete, Request.Overlapping, Request.Group, Request.Groups;
    if exists c :: Belongs(q, c, g) {
      var c :| Belongs(q, c, g);
      assert c in q.Group(g);
      assert Qualifies(q, c) ==> c.source in q.scope;
    }
    hide Qualifies;
  }

  lemma QualifiesIs(q: Request, g: GroupId)
    requires q.output.chaptersPerVolume >= 1
    ensures (forall c :: Belongs(q, c, g) ==> Qualifies(q, c)) <==>
              (forall c :: c in q.Group(g) ==> q.Usable(c)) && !q.Excluded(q.Group(g))
  {
    GroupIs(q, g);
    hide Request.Group;
    forall c | Belongs(q, c, g)
      ensures Qualifies(q, c) <==> q.Usable(c) && c.source in q.scope
    {
    }
    hide Belongs, Qualifies, Request.Usable;
  }

  lemma UnclaimedIs(q: Request, g: GroupId)
    requires q.output.chaptersPerVolume >= 1
    ensures Unclaimed(q, g) <==> !q.Overlapping(g, q.Group(g))
  {
    GroupIs(q, g);
    hide Request.Group, Belongs;
    if !Unclaimed(q, g) {
      var h, m, c :| h in q.active && h != g && m in q.active[h].members && Belongs(q, c, g) && m.release == c.release;
      assert q.Shares(q.active[h], q.Group(g));
    }
    if q.Overlapping(g, q.Group(g)) {
      var h :| h in q.active && h != g && q.Shares(q.active[h], q.Group(g));
      var m, c :| m in q.active[h].members && c in q.Group(g) && m.release == c.release;
      assert Belongs(q, c, g);
    }
  }

  /* ---- The whole plan ---- */

  /** Some active edition has chapters of selected sources and chapters of others. */
  predicate Straddles(q: Request) {
    exists g, m, n :: g in q.active && m in q.active[g].members && n in q.active[g].members
      && m.release in q.sources && q.sources[m.release] in q.scope
      && !(n.release in q.sources && q.sources[n.release] in q.scope)
  }

  /** The active edition of the group stays: always in an ordinary sync, on a rebuild when it would come out the same. */
  ghost predicate Stays(q: Request, g: GroupId)
    requires q.output.chaptersPerVolume >= 1 && Due(q, g)
  {
    && g in q.active
    && (q.rebuild ==>
          && g in q.intact && (forall c :: Belongs(q, c, g) ==> !c.planned)
          && q.active[g].recipe == NewEdition(q, g).recipe && q.active[g].members == NewEdition(q, g).members)
  }

  ghost function NewEdition(q: Request, g: GroupId): Edition
    requires q.output.chaptersPerVolume >= 1 && Due(q, g)
  {
    DueHasChapters(q, g);
    q.EditionOf(g, q.ByNumber(q.Group(g)))
  }

  lemma DueHasChapters(q: Request, g: GroupId)
    requires q.output.chaptersPerVolume >= 1 && exists c :: Belongs(q, c, g)
    ensures q.ByNumber(q.Group(g)) != []
  {
    GroupIs(q, g);
    SameChapters(q, q.Group(g));
    hide Belongs, Request.ByNumber, Request.Group;
    var c :| Belongs(q, c, g);
    assert c in q.ByNumber(q.Group(g));
  }

  ghost predicate Fails(q: Request) {
    || (exists c :: c in q.candidates && c.ofSeries && c.release !in q.facts && c.release !in q.inputs && c.source in q.scope)
    || exists g :: Splits(q, g)
  }

  /** Part of the group is in scope and part is not. */
  ghost predicate Splits(q: Request, g: GroupId) {
    && (exists c :: Belongs(q, c, g) && c.source in q.scope) && (exists d :: Belongs(q, d, g) && d.source !in q.scope)
    && (q.rebuild || Unclaimed(q, g))
  }

  lemma StraddlesIs(q: Request)
    ensures Straddles(q) <==> q.Mixed()
  {
    if Straddles(q) {
      var g, m, n :| g in q.active && m in q.active[g].members && n in q.active[g].members
        && m.release in q.sources && q.sources[m.release] in q.scope
        && !(n.release in q.sources && q.sources[n.release] in q.scope);
      assert q.Selects(m.release) && !q.Selects(n.release);
      assert q.MixedEdition(q.active[g]);
    }
    if q.Mixed() {
      var g :| g in q.active && q.MixedEdition(q.active[g]);
      var m :| m in q.active[g].members && q.Selects(m.release);
      var n :| n in q.active[g].members && !q.Selects(n.release);
    }
  }

  lemma EmitsIs(q: Request, g: GroupId)
    requires q.output.chaptersPerVolume >= 1
    ensures q.Emits(g) <==> Due(q, g) && !Stays(q, g)
    ensures q.Emits(g) ==> g in q.Groups()
  {
    DueIs(q, g);
    hide Due, Stays, Request.Complete, Request.Frozen, Request.Group, Request.ByNumber, Request.EditionOf, Request.Groups, Request.Uncertain;
    if Due(q, g) {
      StaysIs(q, g);
    }
  }

  lemma StaysIs(q: Request, g: GroupId)
    requires q.output.chaptersPerVolume >= 1 && Due(q, g)
    ensures var cs := q.ByNumber(q.Group(g));
            cs != [] && (Stays(q, g) <==> q.Frozen(g, q.EditionOf(g, cs), q.Uncertain(cs)))
  {
    assert exists c :: Belongs(q, c, g);
    DueHasChapters(q, g);
    PlannedIs(q, g);
    hide Belongs, Due, Request.Group, Request.ByNumber, Request.EditionOf, Request.Uncertain;
  }

  lemma PlannedIs(q: Request, g: GroupId)
    requires q.output.chaptersPerVolume >= 1
    ensures q.Uncertain(q.ByNumber(q.Group(g))) <==> exists c :: Belongs(q, c, g) && c.planned
  {
    GroupIs(q, g);
    SameChapters(q, q.Group(g));
    hide Belongs, Request.ByNumber, Request.Group;
  }

  lemma FailsIs(q: Request)
    requires q.output.chaptersPerVolume >= 1
    ensures q.AnyFails() <==> Fails(q)
  {
    forall g
      ensures g in q.Groups() && q.Fails(g) <==> Splits(q, g)
    {
      GroupFailsIs(q, g);
    }
    hide Splits, Request.Fails, Request.Groups;
  }

  lemma GroupFailsIs(q: Request, g: GroupId)
    requires q.output.chaptersPerVolume >= 1
    ensures g in q.Groups() && q.Fails(g) <==> Splits(q, g)
  {
    GroupIs(q, g);
    UnclaimedIs(q, g);
    hide Belongs, Unclaimed, Request.Group, Request.Groups, Request.Overlapping;
  }

  /**
   * A bundling plan, unless a rebuild is blocked: it emits exactly the editions that are due and do not
   * stay, fails exactly for a missing input or a group partly out of scope, and on a rebuild that does
   * not fail removes exactly the editions in scope that are no longer due.
   */
  lemma PlanExactly(q: Request, g: GroupId)
    requires q.bundled && q.output.chaptersPerVolume >= 1 && !(q.rebuild && Straddles(q))
    ensures var r := q.Planned();
            && !r.blocked && (r.failed <==> Fails(q))
            && (g in r.editions <==> Due(q, g) && !Stays(q, g))
            && (g in r.editions ==> r.editions[g] == NewEdition(q, g))
            && (g in r.removed <==> q.rebuild && !Fails(q) && g in q.active && q.active[g].source in q.scope && !Due(q, g))
  {
    StraddlesIs(q);
    FailsIs(q);
    EmitsIs(q, g);
    DueIs(q, g);
    hide Straddles, Fails, Due, Stays, Request.Mixed, Request.AnyFails, Request.Emits, Request.Settles, Request.EditionOf, Request.Groups,
         Request.ByNumber, Request.Group;
  }

  /** A plan is refused as a whole exactly when a rebuild straddles the scope, or bundling has no volume size. */
  lemma BlockedExactly(q: Request)
    ensures q.Planned().blocked <==> (q.rebuild && Straddles(q)) || (q.bundled && q.output.chaptersPerVolume < 1)
    ensures q.Planned().blocked ==> q.Planned() == Result(map[], {}, true, true)
  {
    StraddlesIs(q);
    hide Straddles, Request.Mixed, Request.AnyFails, Request.NewEditions, Request.Retired;
  }

  /** Without bundling, a rebuild removes exactly the editions in scope all of whose chapters can stand alone. */
  lemma UnbundledExactly(q: Request, g: GroupId)
    requires !q.bundled && !(q.rebuild && Straddles(q))
    ensures var r := q.Planned();
            && r.editions == map[] && !r.blocked
            && (g in r.removed <==> q.rebuild && g in q.active && q.active[g].source in q.scope && StandAlone(q, q.active[g].members))
            && (r.failed <==> q.rebuild && exists h :: h in q.active && q.active[h].source in q.scope && !StandAlone(q, q.active[h].members))
  {
    StraddlesIs(q);
    hide Straddles, Request.Mixed;
    assert forall h :: h in q.active ==> (q.Ready(q.active[h]) <==> StandAlone(q, q.active[h].members));
  }

  predicate StandAlone(q: Request, members: seq<Member>) {
    forall m :: m in members ==>
      m.release in q.inputs && exists c :: c in q.candidates && c.release == m.release && c.source in q.scope
  }

  /* ---- What an edition says ---- */

  /** The chapter the edition begins with. */
  ghost predicate IsFirst(q: Request, g: GroupId, c: Candidate) {
    Belongs(q, c, g) && forall d :: Belongs(q, d, g) ==> q.facts[c.release].placement.chapter <= q.facts[d.release].placement.chapter
  }

  /** The reading copy is that of the group's chapter with this release. */
  ghost predicate Read(q: Request, g: GroupId, release: Id, reading: Reading) {
    exists c :: Belongs(q, c, g) && c.release == release && c.reading == reading
  }

  /** An edition holds exactly the chapters of its group, as they are stored, and is described by its first chapter. */
  lemma EditionSays(q: Request, g: GroupId)
    requires q.output.chaptersPerVolume >= 1 && Due(q, g)
    ensures var e := NewEdition(q, g);
            && (forall m :: m in e.members <==>
                  exists c :: Belongs(q, c, g) && m == Member(c.release, c.contentHash, q.facts[c.release].placement.position))
            && |e.members| == |e.recipe.readings|
            && (forall i :: 0 <= i < |e.members| ==> Read(q, g, e.members[i].release, e.recipe.readings[i]))
            && (forall c :: IsFirst(q, g, c) ==>
                  && e.source == c.source && e.recipe.publication == q.facts[c.release].publication
                  && e.recipe.index == if q.facts[c.release].seriesIndex != "" then q.facts[c.release].seriesIndex
                                       else Decimal(q.facts[c.release].placement.position))
            && e.group == e.recipe.group == g && e.first == e.recipe.first && e.last == e.recipe.last
            && e.recipe.series == q.series.id && e.recipe.title == q.series.title && e.recipe.version == 6
  {
    var cs := q.ByNumber(q.Group(g));
    DueHasChapters(q, g);
    GroupIs(q, g);
    SameChapters(q, q.Group(g));
    hide Due, Belongs, Request.ByNumber, Request.Group, Request.Extent, Notes, Request.NameOf, Request.HeadingOf;
    EditionMembers(q, g, cs);
    forall c | IsFirst(q, g, c)
      ensures c == cs[0]
    {
      FirstIs(q, g, c);
    }
    FirstSays(q, g, cs);
  }

  lemma EditionMembers(q: Request, g: GroupId, cs: seq<Candidate>)
    requires forall c :: c in cs <==> Belongs(q, c, g)
    ensures forall m :: m in q.MembersOf(cs) <==>
              exists c :: Belongs(q, c, g) && m == Member(c.release, c.contentHash, q.facts[c.release].placement.position)
    ensures |q.MembersOf(cs)| == |q.ReadingsOf(cs)| == |cs|
    ensures forall i :: 0 <= i < |cs| ==> Read(q, g, q.MembersOf(cs)[i].release, q.ReadingsOf(cs)[i])
  {
    forall c | c in cs
      ensures q.MemberOf(c) == Member(c.release, c.contentHash, q.facts[c.release].placement.position)
    {
    }
    hide Belongs, Request.MemberOf;
    forall m
      ensures m in q.MembersOf(cs) <==> exists c :: c in cs && m == q.MemberOf(c)
    {
      if c :| c in cs && m == q.MemberOf(c) {
        var i :| 0 <= i < |cs| && cs[i] == c;
        assert q.MembersOf(cs)[i] == m;
      }
    }
    forall i | 0 <= i < |cs|
      ensures Read(q, g, q.MembersOf(cs)[i].release, q.ReadingsOf(cs)[i])
    {
      assert cs[i] in cs && Belongs(q, cs[i], g);
      assert q.MembersOf(cs)[i] == q.MemberOf(cs[i]);
    }
  }

  lemma FirstIs(q: Request, g: GroupId, c: Candidate)
    requires q.output.chaptersPerVolume >= 1 && Due(q, g) && IsFirst(q, g, c)
    ensures var cs := q.ByNumber(q.Group(g));
            cs != [] && cs[0] == c
  {
    var cs := q.ByNumber(q.Group(g));
    GroupIs(q, g);
    DuplicatesAre(q, g);
    SameChapters(q, q.Group(g));
    VolumeSafety.ByNumberSorts(q, q.Group(g));
    DistinctAfterSort(q, q.Group(g), cs);
    assert c in cs;
    var i :| 0 <= i < |cs| && cs[i] == c;
    assert Belongs(q, cs[0], g);
    LaterHaveMore(q, cs);
  }

  lemma LaterHaveMore(q: Request, cs: seq<Candidate>)
    requires q.DistinctNumbers(cs) && forall i, j :: 0 <= i < j < |cs| ==> !q.Before(cs[j], cs[i])
    ensures forall k :: 0 < k < |cs| ==> q.Number(cs[0]) < q.Number(cs[k])
  {
    hide Request.Number;
    forall k | 0 < k < |cs|
      ensures q.Number(cs[0]) < q.Number(cs[k])
    {
      assert q.Number(cs[0]) != q.Number(cs[k]) && !q.Before(cs[k], cs[0]);
    }
  }

  lemma FirstSays(q: Request, g: GroupId, cs: seq<Candidate>)
    requires q.output.chaptersPerVolume >= 1 && cs != [] && Belongs(q, cs[0], g)
    ensures var e := q.EditionOf(g, cs);
            var facts := q.facts[cs[0].release];
            && e.source == cs[0].source && e.recipe.publication == facts.publication
            && e.recipe.index == (if facts.seriesIndex != "" then facts.seriesIndex else Decimal(facts.placement.position))
            && e.group == e.recipe.group == g && e.first == e.recipe.first && e.last == e.recipe.last
            && e.recipe.series == q.series.id && e.recipe.title == q.series.title && e.recipe.version == 6
            && e.members == q.MembersOf(cs) && e.recipe.readings == q.ReadingsOf(cs)
  {
    hide Request.Extent, Notes, Request.NameOf, Request.HeadingOf, Request.Group;
  }

  /** The chapter of the group that is listed first. */
  ghost predicate IsListedFirst(q: Request, g: GroupId, c: Candidate) {
    exists i :: 0 <= i < |q.candidates| && q.candidates[i] == c && Belongs(q, c, g)
      && forall j :: 0 <= j < i ==> !Belongs(q, q.candidates[j], g)
  }

  /** The book a series declares under an id. */
  predicate IsDeclared(q: Request, id: string, b: Book) {
    exists k :: 0 <= k < |q.series.books| && q.series.books[k] == b && b.id == id
      && forall j :: 0 <= j < k ==> q.series.books[j].id != id
  }

  /** A volume carries the number of its range, a book the one its first listed chapter gives and the declared title. */
  lemma EditionNamed(q: Request, g: GroupId)
    requires q.output.chaptersPerVolume >= 1 && Due(q, g)
    ensures var e := NewEdition(q, g);
            match g
            case RangeGroup(first, last) =>
              && (e.first, e.last) == (first, last)
              && e.recipe.name.VolumeName? && e.recipe.name.series == q.series.title
              && first == (e.recipe.name.number - 1) * q.output.chaptersPerVolume + 1
              && e.recipe.heading == VolumeHeading(q.series.title, e.recipe.name.number, first, last)
            case BookGroup(id) =>
              && (forall c :: IsListedFirst(q, g, c) ==>
                    e.recipe.name == BookName(q.series.title, q.facts[c.release].placement.book))
              && (forall b :: IsDeclared(q, id, b) ==>
                    && (e.first, e.last) == (b.First(), b.last)
                    && e.recipe.heading == if b.title != "" then OwnTitle(b.title)
                                           else BookHeading(q.series.title, b.number, b.First(), b.last))
  {
    var cs := q.ByNumber(q.Group(g));
    DueHasChapters(q, g);
    GroupIs(q, g);
    SameChapters(q, q.Group(g));
    hide Due, Request.ByNumber, Request.Group, Notes;
    assert cs[0] in q.Group(g);
    var head := q.Group(g)[0];
    assert head in q.Group(g);
    assert Belongs(q, head, g);
    if g.RangeGroup? {
      RangeNumber(q, head, g);
    } else {
      ListedFirst(q, g);
      DeclaredIs(q, g);
    }
  }

  lemma RangeNumber(q: Request, c: Candidate, g: GroupId)
    requires q.output.chaptersPerVolume >= 1 && g.RangeGroup? && Belongs(q, c, g)
    ensures (g.first - 1) / q.output.chaptersPerVolume * q.output.chaptersPerVolume + 1 == g.first
  {
    var size := q.output.chaptersPerVolume;
    assert (g.first - 1) / size * size + (g.first - 1) % size == g.first - 1;
  }

  lemma DeclaredIs(q: Request, g: GroupId)
    requires g.BookGroup?
    ensures forall b :: IsDeclared(q, g.book, b) ==>
              var k := FindDeclared(q.series.books, g.book);
              k < |q.series.books| && q.series.books[k] == b
  {
    hide FindDeclared;
  }

  lemma ListedFirst(q: Request, g: GroupId)
    requires q.output.chaptersPerVolume >= 1
    ensures forall c :: IsListedFirst(q, g, c) ==> q.Group(g) != [] && q.Group(g)[0] == c
  {
    forall c | IsListedFirst(q, g, c)
      ensures q.Group(g) != [] && q.Group(g)[0] == c
    {
      var i :| 0 <= i < |q.candidates| && q.candidates[i] == c && Belongs(q, c, g)
        && forall j :: 0 <= j < i ==> !Belongs(q, q.candidates[j], g);
      forall j | 0 <= j <= i
        ensures Belongs(q, q.candidates[j], g) <==> Chosen(q, q.candidates[j], g)
      {
        BelongsIs(q, q.candidates[j], g);
      }
      StartsWith(q, q.candidates, i, g);
    }
  }

  lemma {:induction false} StartsWith(q: Request, among: seq<Candidate>, i: nat, g: GroupId)
    requires q.output.chaptersPerVolume >= 1 && i < |among| && Chosen(q, among[i], g)
    requires forall j :: 0 <= j < i ==> !Chosen(q, among[j], g)
    ensures q.Chapters(among, g) != [] && q.Chapters(among, g)[0] == among[i]
  {
    hide Request.Groupable, Request.GroupOf;
    if i < |among| - 1 {
      StartsWith(q, among[..|among| - 1], i, g);
    } else {
      NoneChosen(q, among[..i], g);
    }
  }

  lemma {:induction false} NoneChosen(q: Request, among: seq<Candidate>, g: GroupId)
    requires q.output.chaptersPerVolume >= 1 && forall j :: 0 <= j < |among| ==> !Chosen(q, among[j], g)
    ensures q.Chapters(among, g) == []
  {
    hide Request.Groupable, Request.GroupOf;
    if among == [] {
    } else {
      NoneChosen(q, among[..|among| - 1], g);
    }
  }

  /* ---- What that means for one chapter and for one group ---- */

  /** Whatever is bundled is an EPUB of a selected source, with a known position. */
  lemma OnlyEpubsAreBundled(q: Request, g: GroupId, m: Member)
    requires g in q.Planned().editions && m in q.Planned().editions[g].members
    ensures exists c :: c in q.candidates && c.release == m.release && c.contentHash == m.contentHash && c.epub && c.source in q.scope
              && c.release in q.facts && q.facts[c.release].placement.position == m.position != 0
              && (q.rebuild || !q.facts[c.release].legacy)
  {
    StraddlesIs(q);
    assert q.bundled && q.output.chaptersPerVolume >= 1 && !(q.rebuild && Straddles(q));
    PlanExactly(q, g);
    EditionSays(q, g);
    hide Straddles, Request.Planned, NewEdition, Whole, NoDuplicates, Unclaimed, Stays, Fails;
    var c :| Belongs(q, c, g) && m == Member(c.release, c.contentHash, q.facts[c.release].placement.position);
    assert Qualifies(q, c);
  }

  /** A due group has an edition afterwards, new or kept, unless the plan fails. */
  lemma DueIsBundled(q: Request, g: GroupId)
    requires q.bundled && q.output.chaptersPerVolume >= 1 && !(q.rebuild && Straddles(q)) && !Fails(q) && Due(q, g)
    ensures g in Activated(q.active, q.Planned())
  {
    PlanExactly(q, g);
    hide Straddles, Request.Planned, NewEdition, Due, Fails;
  }

  /** Activating a plan takes its editions and drops what it removes; a plan that failed changes nothing. */
  lemma ActivatedExactly(active: map<GroupId, Edition>, r: Result, g: GroupId)
    ensures var after := Activated(active, r);
            if r.failed || r.blocked then after == active
            else (g in after <==> g in r.editions || (g in active && g !in r.removed))
                 && (g in after ==> after[g] == if g in r.editions then r.editions[g] else active[g])
  {
  }
}
