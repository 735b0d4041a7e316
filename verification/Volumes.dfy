/**
 * The volume planner of one series: group the chapters, keep what is frozen, and emit the completed
 * groups as new editions. Groups are named by what their id says; the order of the plan is left out.
 */
module Volumes {
  import opened Common
  import opened Sequence
  import opened ReaderConfig

  type Id = string

  datatype GroupId = RangeGroup(first: int, last: int) | BookGroup(book: string)

  /** What a recipe says of one chapter: its reading copy, and what is printed about it. */
  datatype Reading = Reading(copy: string, title: string, author: string, series: string, published: string, edited: string)

  datatype Candidate = Candidate(release: Id, source: Id, contentHash: string, reading: Reading,
                                 ofSeries: bool, epub: bool, planned: bool)

  /** `publication` is the fingerprint of the book's metadata, `seriesIndex` the label or "". */
  datatype Facts = Facts(placement: Placement, legacy: bool, publication: string, seriesIndex: string)

  datatype Member = Member(release: Id, contentHash: string, position: int)

  /** A file name: the series title and the number of the volume or of the book. */
  datatype Name = VolumeName(series: string, number: int) | BookName(series: string, number: int)

  datatype Heading =
    | VolumeHeading(series: string, number: int, first: int, last: int)
    | BookHeading(series: string, number: int, first: int, last: int)
    | OwnTitle(title: string)

  const ASSEMBLY_VERSION := 6

  /** What an edition is assembled from, apart from its members: the bytes of the recipe hash. */
  datatype Recipe = Recipe(series: string, title: string, publication: string, version: int,
                           group: GroupId, first: int, last: int, name: Name, heading: Heading,
                           notes: seq<Gap>, index: string, readings: seq<Reading>)

  datatype Edition = Edition(group: GroupId, source: Id, first: int, last: int, recipe: Recipe, members: seq<Member>)

  datatype Result = Result(editions: map<GroupId, Edition>, removed: set<GroupId>, failed: bool, blocked: bool)

  /* ---- Grouping ---- */

  function RangeOf(output: Output, chapter: int): GroupId
    requires output.chaptersPerVolume >= 1
  {
    var size := output.chaptersPerVolume;
    var first := 1 + (chapter - 1) / size * size;
    var last := first + size - 1;
    RangeGroup(first, if 0 < output.finalChapter < last && output.finalChapter >= first then output.finalChapter else last)
  }

  function FindDeclared(books: seq<Book>, id: string): (k: nat)
    ensures k <= |books|
    ensures k < |books| ==> books[k].id == id
    ensures forall j :: 0 <= j < k ==> books[j].id != id
  {
    if books == [] || books[0].id == id then 0 else 1 + FindDeclared(books[1..], id)
  }

  /** First and last expected chapter and the gaps allowed between them. */
  datatype Extent = Extent(first: int, last: int, gaps: seq<Gap>)

  function ExtentOf(series: Series, output: Output, group: GroupId): Extent {
    match group
    case RangeGroup(first, last) => Extent(first, last, output.gaps)
    case BookGroup(id) =>
      var k := FindDeclared(series.books, id);
      if k < |series.books| then Extent(series.books[k].First(), series.books[k].last, series.books[k].gaps)
      else Extent(1, 0, [])
  }

  /** The reason of the last gap listed for a chapter, if it gives one. */
  function ReasonFor(gaps: seq<Gap>, n: int): Option<string> {
    if gaps == [] then None
    else
      var last := gaps[|gaps| - 1];
      if last.chapter == n && last.reason != "" then Some(last.reason) else ReasonFor(gaps[..|gaps| - 1], n)
  }

  /** The gaps an edition notes: the reasoned ones among first..n-1 that no chapter fills. */
  function Notes(extent: Extent, present: set<int>, n: int): seq<Gap>
    decreases n - extent.first
  {
    if n <= extent.first then []
    else
      var reason := ReasonFor(extent.gaps, n - 1);
      Notes(extent, present, n - 1) + (if n - 1 !in present && reason.Some? then [Gap(n - 1, reason.value)] else [])
  }

  predicate Accounted(extent: Extent, present: set<int>, n: int) {
    n in present || ReasonFor(extent.gaps, n).Some?
  }

  /**
   * One planning request: `active` are the series' active editions, `scope` the selected sources,
   * `sources` where each known release comes from, `intact` the groups whose archive is valid.
   */
  datatype Request = Request(series: Series, output: Output, bundled: bool, rebuild: bool,
                             candidates: seq<Candidate>, facts: map<Id, Facts>, inputs: set<Id>, scope: set<Id>,
                             sources: map<Id, Id>, intact: set<GroupId>, active: map<GroupId, Edition>)
  {
    /* What takes part. */

    predicate Captured(c: Candidate) {
      c.ofSeries && c.release in facts
    }

    predicate Groupable(c: Candidate) {
      Captured(c) && facts[c.release].placement.chapter >= 1 && !facts[c.release].placement.keepSingle
    }

    function Number(c: Candidate): int {
      if c.release in facts then facts[c.release].placement.chapter else 0
    }

    function Position(c: Candidate): int {
      if c.release in facts then facts[c.release].placement.position else 0
    }

    function GroupOf(c: Candidate): GroupId
      requires Groupable(c) && output.chaptersPerVolume >= 1
    {
      var p := facts[c.release].placement;
      if p.bookId != "" then BookGroup(p.bookId) else RangeOf(output, p.chapter)
    }

    /** The chapters of one group among some candidates, in their order. */
    function Chapters(among: seq<Candidate>, group: GroupId): seq<Candidate>
      requires output.chaptersPerVolume >= 1
    {
      if among == [] then []
      else
        var last := among[|among| - 1];
        Chapters(among[..|among| - 1], group) + (if Groupable(last) && GroupOf(last) == group then [last] else [])
    }

    function Group(group: GroupId): seq<Candidate>
      requires output.chaptersPerVolume >= 1
    {
      Chapters(candidates, group)
    }

    function Groups(): set<GroupId>
      requires output.chaptersPerVolume >= 1
    {
      set c | c in candidates && Groupable(c) :: GroupOf(c)
    }

    predicate HasBooks() {
      exists c :: c in candidates && Captured(c) && facts[c.release].placement.bookId != ""
    }

    predicate MissesInput() {
      exists c :: c in candidates && c.ofSeries && c.release !in facts && c.release !in inputs && c.source in scope
    }

    function Extent(group: GroupId): Extent {
      ExtentOf(series, output, group)
    }

    function Present(cs: seq<Candidate>): set<int> {
      set c | c in cs :: Number(c)
    }

    /* Where members come from. */

    predicate Selects(release: Id) {
      release in sources && sources[release] in scope
    }

    /** A rebuild may not regroup an edition some of whose chapters are out of scope. */
    predicate MixedEdition(e: Edition) {
      && (exists m :: m in e.members && Selects(m.release))
      && (exists m :: m in e.members && !Selects(m.release))
    }

    predicate Mixed() {
      exists g :: g in active && MixedEdition(active[g])
    }

    /* One group. */

    /** A chapter of the group is already frozen in another group's edition. */
    predicate Overlapping(group: GroupId, cs: seq<Candidate>) {
      exists g :: g in active && g != group && Shares(active[g], cs)
    }

    predicate Shares(e: Edition, cs: seq<Candidate>) {
      exists m, c :: m in e.members && c in cs && m.release == c.release
    }

    predicate Selected(cs: seq<Candidate>) {
      exists c :: c in cs && c.source in scope
    }

    predicate Excluded(cs: seq<Candidate>) {
      exists c :: c in cs && c.source !in scope
    }

    predicate Usable(c: Candidate) {
      Position(c) != 0 && c.epub && (rebuild || c.release !in facts || !facts[c.release].legacy)
    }

    predicate DistinctNumbers(cs: seq<Candidate>) {
      forall i, j :: 0 <= i < j < |cs| ==> Number(cs[i]) != Number(cs[j])
    }

    /** Every expected chapter is there once, usable and in scope, or is a reasoned gap. */
    predicate Complete(group: GroupId, cs: seq<Candidate>) {
      && Extent(group).first <= Extent(group).last
      && (forall c :: c in cs ==> Usable(c))
      && DistinctNumbers(cs)
      && (forall n :: Extent(group).first <= n <= Extent(group).last ==> Accounted(Extent(group), Present(cs), n))
      && !(HasBooks() && group.RangeGroup?)
      && !Excluded(cs)
    }

    predicate Before(c: Candidate, d: Candidate) {
      Number(c) < Number(d)
    }

    function ByNumber(cs: seq<Candidate>): (r: seq<Candidate>)
      ensures |r| == |cs|
    {
      Sorted(Before, cs)
    }

    function MemberOf(c: Candidate): Member {
      Member(c.release, c.contentHash, Position(c))
    }

    function MembersOf(cs: seq<Candidate>): (r: seq<Member>)
      ensures |r| == |cs|
    {
      seq(|cs|, i requires 0 <= i < |cs| => MemberOf(cs[i]))
    }

    function ReadingsOf(cs: seq<Candidate>): (r: seq<Reading>)
      ensures |r| == |cs|
    {
      seq(|cs|, i requires 0 <= i < |cs| => cs[i].reading)
    }

    /* What an edition is called, by the first of its chapters among the candidates. */

    function BookNumber(c: Candidate): int {
      if c.release in facts then facts[c.release].placement.book else 0
    }

    function NameOf(group: GroupId, c: Candidate): Name
      requires output.chaptersPerVolume >= 1
    {
      match group
      case RangeGroup(first, _) => VolumeName(series.title, (first - 1) / output.chaptersPerVolume + 1)
      case BookGroup(_) => BookName(series.title, BookNumber(c))
    }

    function HeadingOf(group: GroupId, c: Candidate): Heading
      requires output.chaptersPerVolume >= 1
    {
      match group
      case RangeGroup(first, last) => RangeHeading(group)
      case BookGroup(id) =>
        var k := FindDeclared(series.books, id);
        if k == |series.books| then RangeHeading(RangeOf(output, Number(c)))
        else if series.books[k].title != "" then OwnTitle(series.books[k].title)
        else BookHeading(series.title, series.books[k].number, series.books[k].First(), series.books[k].last)
    }

    function RangeHeading(group: GroupId): Heading
      requires output.chaptersPerVolume >= 1 && group.RangeGroup?
    {
      VolumeHeading(series.title, (group.first - 1) / output.chaptersPerVolume + 1, group.first, group.last)
    }

    /** The label of the first chapter, or its position. */
    function IndexOf(c: Candidate): string {
      if c.release in facts && facts[c.release].seriesIndex != "" then facts[c.release].seriesIndex else Decimal(Position(c))
    }

    function PublicationOf(c: Candidate): string {
      if c.release in facts then facts[c.release].publication else ""
    }

    function RecipeOf(group: GroupId, cs: seq<Candidate>, head: Candidate): Recipe
      requires output.chaptersPerVolume >= 1 && cs != []
    {
      var extent := Extent(group);
      Recipe(series.id, series.title, PublicationOf(cs[0]), ASSEMBLY_VERSION, group, extent.first, extent.last,
             NameOf(group, head), HeadingOf(group, head), Notes(extent, Present(cs), extent.last + 1), IndexOf(cs[0]),
             ReadingsOf(cs))
    }

    /** The edition of a complete group whose chapters are `cs`, sorted. */
    function EditionOf(group: GroupId, cs: seq<Candidate>): Edition
      requires output.chaptersPerVolume >= 1 && cs != []
    {
      var extent, found := Extent(group), Group(group);
      Edition(group, cs[0].source, extent.first, extent.last,
              RecipeOf(group, cs, if found != [] then found[0] else cs[0]), MembersOf(cs))
    }

    predicate Uncertain(cs: seq<Candidate>) {
      exists c :: c in cs && c.planned
    }

    /** An active edition stays as it is: always in an ordinary sync, and on a rebuild when nothing changed. */
    predicate Frozen(group: GroupId, e: Edition, uncertain: bool) {
      && group in active
      && (!rebuild || (&& !uncertain && active[group].recipe == e.recipe && active[group].members == e.members
                       && group in intact))
    }

    /** The group is considered, complete, and either kept or built. */
    predicate Settles(group: GroupId)
      requires output.chaptersPerVolume >= 1
    {
      var cs := Group(group);
      && group in Groups() && (rebuild || !Overlapping(group, cs)) && Selected(cs) && Complete(group, cs)
    }

    predicate Emits(group: GroupId)
      requires output.chaptersPerVolume >= 1
    {
      var cs := ByNumber(Group(group));
      Settles(group) && cs != [] && !Frozen(group, EditionOf(group, cs), Uncertain(cs))
    }

    predicate Fails(group: GroupId)
      requires output.chaptersPerVolume >= 1
    {
      var cs := Group(group);
      group in Groups() && (rebuild || !Overlapping(group, cs)) && Selected(cs) && Excluded(cs)
    }

    /* The whole plan. */

    predicate AnyFails()
      requires output.chaptersPerVolume >= 1
    {
      MissesInput() || exists g :: g in Groups() && Fails(g)
    }

    ghost function NewEditions(): map<GroupId, Edition>
      requires output.chaptersPerVolume >= 1
    {
      map g | g in Groups() && Emits(g) :: EditionOf(g, ByNumber(Group(g)))
    }

    /** What a rebuild without failures retires: editions whose group neither stays nor is built anew. */
    ghost function Retired(): set<GroupId>
      requires output.chaptersPerVolume >= 1
    {
      set g | g in active && !Settles(g) && active[g].source in scope
    }

    ghost function PlannedVolumes(): Result
      requires output.chaptersPerVolume >= 1
    {
      Result(NewEditions(), if rebuild && !AnyFails() then Retired() else {}, AnyFails(), false)
    }

    /** Every member of the edition can be published on its own. */
    predicate Ready(e: Edition) {
      forall m :: m in e.members ==>
        m.release in inputs && exists c :: c in candidates && c.release == m.release && c.source in scope
    }

    ghost function PlannedSingles(): Result {
      Result(map[], if rebuild then set g | g in active && active[g].source in scope && Ready(active[g]) else {},
             rebuild && exists g :: g in active && active[g].source in scope && !Ready(active[g]), false)
    }

    ghost function Planned(): Result {
      if rebuild && Mixed() then Result(map[], {}, true, true)
      else if !bundled then PlannedSingles()
      else if output.chaptersPerVolume < 1 then Result(map[], {}, true, true)
      else PlannedVolumes()
    }
  }

  /** What the store makes of a plan: nothing when it failed, else removals and replacements by group. */
  function Activated(active: map<GroupId, Edition>, r: Result): map<GroupId, Edition> {
    if r.failed || r.blocked then active else (active - r.removed) + r.editions
  }
}
