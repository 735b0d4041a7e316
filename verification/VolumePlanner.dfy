/** The planner itself: loops over the chapters, the groups and the active editions of one series. */
module VolumePlanner {
  import opened Common
  import opened Sequence
  import opened ReaderConfig
  import opened Volumes
  import opened VolumeSafety

  /* ---- Rebuild scope ---- */

  method IsMixedEdition(q: Request, e: Edition) returns (mixed: bool)
    ensures mixed <==> q.MixedEdition(e)
  {
    hide Request.Selects;
    var selected, excluded := false, false;
    for i := 0 to |e.members|
      invariant selected <==> exists j :: 0 <= j < i && q.Selects(e.members[j].release)
      invariant excluded <==> exists j :: 0 <= j < i && !q.Selects(e.members[j].release)
    {
      if q.Selects(e.members[i].release) {
        selected := true;
      } else {
        excluded := true;
      }
    }
    mixed := selected && excluded;
  }

  method IsMixed(q: Request) returns (mixed: bool)
    ensures mixed <==> q.Mixed()
  {
    hide Request.MixedEdition;
    mixed := false;
    var open := q.active.Keys;
    while open != {}
      invariant open <= q.active.Keys
      invariant mixed <==> exists g :: g in q.active && g !in open && q.MixedEdition(q.active[g])
      decreases |open|
    {
      var g :| g in open;
      var here := IsMixedEdition(q, q.active[g]);
      mixed := mixed || here;
      open := open - {g};
    }
  }

  /* ---- Bundling switched off ---- */

  method HasSelected(q: Request, release: Id) returns (found: bool)
    ensures found <==> exists c :: c in q.candidates && c.release == release && c.source in q.scope
  {
    found := false;
    for i := 0 to |q.candidates|
      invariant found <==> exists c :: c in q.candidates[..i] && c.release == release && c.source in q.scope
    {
      assert q.candidates[..i + 1] == q.candidates[..i] + [q.candidates[i]];
      if q.candidates[i].release == release && q.candidates[i].source in q.scope {
        found := true;
      }
    }
    assert q.candidates[..|q.candidates|] == q.candidates;
  }

  method IsReady(q: Request, e: Edition) returns (ready: bool)
    ensures ready <==> q.Ready(e)
  {
    for i := 0 to |e.members|
      invariant forall j :: 0 <= j < i ==> var m := e.members[j];
                  m.release in q.inputs && exists c :: c in q.candidates && c.release == m.release && c.source in q.scope
    {
      var found := HasSelected(q, e.members[i].release);
      if e.members[i].release !in q.inputs || !found {
        assert e.members[i] in e.members;
        return false;
      }
    }
    ready := true;
  }

  /** What the loop has so far, with the editions in `open` still to come. */
  ghost predicate SinglesSoFar(q: Request, open: set<GroupId>, removed: set<GroupId>, failed: bool) {
    && (forall g :: g in removed <==>
          q.rebuild && g in q.active && g !in open && q.active[g].source in q.scope && q.Ready(q.active[g]))
    && (failed <==>
          q.rebuild && exists g :: g in q.active && g !in open && q.active[g].source in q.scope && !q.Ready(q.active[g]))
  }

  lemma SinglesDone(q: Request, removed: set<GroupId>, failed: bool)
    requires SinglesSoFar(q, {}, removed, failed)
    ensures Result(map[], removed, failed, false) == q.PlannedSingles()
  {
    hide Request.Ready;
    assert removed == q.PlannedSingles().removed;
  }

  method PlanSingles(q: Request) returns (r: Result)
    ensures r == q.PlannedSingles()
  {
    hide Request.Ready, Request.PlannedSingles;
    var removed: set<GroupId>, failed := {}, false;
    var open := q.active.Keys;
    while open != {}
      invariant open <= q.active.Keys
      invariant SinglesSoFar(q, open, removed, failed)
      decreases |open|
    {
      var g :| g in open;
      open := open - {g};
      if q.active[g].source in q.scope && q.rebuild {
        var ready := IsReady(q, q.active[g]);
        if ready {
          removed := removed + {g};
        } else {
          failed := true;
        }
      }
    }
    SinglesDone(q, removed, failed);
    r := Result(map[], removed, failed, false);
  }

  /* ---- Grouping ---- */

  /** The groups of the first `n` candidates. */
  ghost predicate Grouped(q: Request, groups: map<GroupId, seq<Candidate>>, n: nat)
    requires q.output.chaptersPerVolume >= 1 && n <= |q.candidates|
  {
    (forall g :: g in groups <==> HasChapter(q, g, n)) && Listed(q, groups, n)
  }

  ghost predicate HasChapter(q: Request, g: GroupId, n: nat)
    requires q.output.chaptersPerVolume >= 1 && n <= |q.candidates|
  {
    exists i :: 0 <= i < n && q.Groupable(q.candidates[i]) && q.GroupOf(q.candidates[i]) == g
  }

  ghost predicate Listed(q: Request, groups: map<GroupId, seq<Candidate>>, n: nat)
    requires q.output.chaptersPerVolume >= 1 && n <= |q.candidates|
  {
    forall g :: g in groups ==> groups[g] == q.Chapters(q.candidates[..n], g)
  }

  lemma {:induction false} NoChapters(q: Request, among: seq<Candidate>, g: GroupId)
    requires q.output.chaptersPerVolume >= 1
    requires forall c :: c in among ==> !(q.Groupable(c) && q.GroupOf(c) == g)
    ensures q.Chapters(among, g) == []
  {
    if among == [] {
    } else {
      NoChapters(q, among[..|among| - 1], g);
    }
  }

  lemma OneMoreChapter(q: Request, n: nat, g: GroupId)
    requires q.output.chaptersPerVolume >= 1 && n < |q.candidates|
    ensures var c := q.candidates[n];
            && (HasChapter(q, g, n + 1) <==> HasChapter(q, g, n) || (q.Groupable(c) && q.GroupOf(c) == g))
            && q.Chapters(q.candidates[..n + 1], g) ==
                 q.Chapters(q.candidates[..n], g) + (if q.Groupable(c) && q.GroupOf(c) == g then [c] else [])
    ensures !HasChapter(q, g, n) ==> q.Chapters(q.candidates[..n], g) == []
  {
    hide Request.Groupable, Request.GroupOf;
    assert q.candidates[..n + 1][..n] == q.candidates[..n];
    if !HasChapter(q, g, n) {
      NoChapters(q, q.candidates[..n], g);
    }
  }

  /** Adding candidate `n` to its group, or to none. */
  lemma GroupedNext(q: Request, groups: map<GroupId, seq<Candidate>>, n: nat)
    requires q.output.chaptersPerVolume >= 1 && n < |q.candidates| && Grouped(q, groups, n)
    ensures var c := q.candidates[n];
            if q.Groupable(c) then
              var g := q.GroupOf(c);
              Grouped(q, groups[g := (if g in groups then groups[g] else []) + [c]], n + 1)
            else Grouped(q, groups, n + 1)
  {
    hide Request.Groupable, Request.GroupOf, Request.Chapters, HasChapter;
    forall g
    {
      OneMoreChapter(q, n, g);
    }
  }

  method GroupChapters(q: Request) returns (groups: map<GroupId, seq<Candidate>>, hasBooks: bool, misses: bool)
    requires q.output.chaptersPerVolume >= 1
    ensures groups.Keys == q.Groups() && forall g :: g in groups ==> groups[g] == q.Group(g)
    ensures hasBooks == q.HasBooks() && misses == q.MissesInput()
  {
    hide Request.GroupOf, Request.Groups, Request.HasBooks, Request.MissesInput, Request.Group, Request.Chapters;
    groups, hasBooks, misses := map[], false, false;
    assert Grouped(q, groups, 0);
    hide Grouped;
    for i := 0 to |q.candidates|
      invariant Grouped(q, groups, i)
      invariant hasBooks <==> exists j :: 0 <= j < i && BookAt(q, j)
      invariant misses <==> exists j :: 0 <= j < i && MissAt(q, j)
    {
      GroupedNext(q, groups, i);
      var c := q.candidates[i];
      assert BookAt(q, i) <==> q.Captured(c) && q.facts[c.release].placement.bookId != "";
      assert MissAt(q, i) <==> c.ofSeries && c.release !in q.facts && c.release !in q.inputs && c.source in q.scope;
      if c.ofSeries {
        if c.release !in q.facts {
          if c.release !in q.inputs && c.source in q.scope {
            misses := true;
          }
        } else {
          var p := q.facts[c.release].placement;
          if p.bookId != "" {
            hasBooks := true;
          }
          if p.chapter >= 1 && !p.keepSingle {
            var g := q.GroupOf(c);
            groups := groups[g := (if g in groups then groups[g] else []) + [c]];
          }
        }
      }
    }
    AllGrouped(q, groups);
    BooksAndMisses(q);
  }

  predicate BookAt(q: Request, i: nat)
    requires i < |q.candidates|
  {
    q.Captured(q.candidates[i]) && q.facts[q.candidates[i].release].placement.bookId != ""
  }

  predicate MissAt(q: Request, i: nat)
    requires i < |q.candidates|
  {
    var c := q.candidates[i];
    c.ofSeries && c.release !in q.facts && c.release !in q.inputs && c.source in q.scope
  }

  lemma BooksAndMisses(q: Request)
    ensures q.HasBooks() <==> exists j :: 0 <= j < |q.candidates| && BookAt(q, j)
    ensures q.MissesInput() <==> exists j :: 0 <= j < |q.candidates| && MissAt(q, j)
  {
    if q.HasBooks() {
      var c :| c in q.candidates && q.Captured(c) && q.facts[c.release].placement.bookId != "";
      var j :| 0 <= j < |q.candidates| && q.candidates[j] == c;
      assert BookAt(q, j);
    }
    if q.MissesInput() {
      var c :| c in q.candidates && c.ofSeries && c.release !in q.facts && c.release !in q.inputs && c.source in q.scope;
      var j :| 0 <= j < |q.candidates| && q.candidates[j] == c;
      assert MissAt(q, j);
    }
  }

  lemma AllGrouped(q: Request, groups: map<GroupId, seq<Candidate>>)
    requires q.output.chaptersPerVolume >= 1 && Grouped(q, groups, |q.candidates|)
    ensures groups.Keys == q.Groups() && forall g :: g in groups ==> groups[g] == q.Group(g)
  {
    assert q.candidates[..|q.candidates|] == q.candidates;
  }

  /* ---- One group ---- */

  method SharesWith(q: Request, e: Edition, cs: seq<Candidate>) returns (shares: bool)
    ensures shares <==> q.Shares(e, cs)
  {
    var releases: set<Id> := set c | c in cs :: c.release;
    for i := 0 to |e.members|
      invariant forall j :: 0 <= j < i ==> e.members[j].release !in releases
    {
      if e.members[i].release in releases {
        var c :| c in cs && c.release == e.members[i].release;
        assert e.members[i] in e.members;
        return true;
      }
    }
    shares := false;
  }

  method Overlaps(q: Request, group: GroupId, cs: seq<Candidate>) returns (overlaps: bool)
    ensures overlaps <==> q.Overlapping(group, cs)
  {
    hide Request.Shares;
    overlaps := false;
    var open := q.active.Keys;
    while open != {}
      invariant open <= q.active.Keys
      invariant overlaps <==> exists g :: g in q.active && g !in open && g != group && q.Shares(q.active[g], cs)
      decreases |open|
    {
      var g :| g in open;
      open := open - {g};
      if g != group {
        var shares := SharesWith(q, q.active[g], cs);
        overlaps := overlaps || shares;
      }
    }
  }

  /** Whether the chapters by themselves allow an edition, and which sources they come from. */
  method Scan(q: Request, cs: seq<Candidate>)
      returns (complete: bool, selected: bool, excluded: bool, seen: set<int>)
    ensures complete <==> (forall c :: c in cs ==> q.Usable(c)) && q.DistinctNumbers(cs)
    ensures selected == q.Selected(cs) && excluded == q.Excluded(cs) && seen == q.Present(cs)
  {
    complete, selected, excluded, seen := true, false, false, {};
    for i := 0 to |cs|
      invariant complete <==> (forall c :: c in cs[..i] ==> q.Usable(c)) && q.DistinctNumbers(cs[..i])
      invariant selected == q.Selected(cs[..i]) && excluded == q.Excluded(cs[..i]) && seen == q.Present(cs[..i])
    {
      ScanNext(q, cs[..i], cs[i]);
      assert cs[..i + 1] == cs[..i] + [cs[i]];
      hide Request.Number, Request.Position, Request.DistinctNumbers, Request.Selected, Request.Excluded, Request.Present;
      var c := cs[i];
      if !q.rebuild && c.release in q.facts && q.facts[c.release].legacy {
        complete := false;
      }
      if q.Number(c) in seen {
        complete := false;
      }
      if q.Position(c) == 0 {
        complete := false;
      }
      if !c.epub {
        complete := false;
      }
      seen := seen + {q.Number(c)};
      if c.source in q.scope {
        selected := true;
      } else {
        excluded := true;
      }
    }
    assert cs[..|cs|] == cs;
  }

  lemma ScanNext(q: Request, cs: seq<Candidate>, c: Candidate)
    ensures q.DistinctNumbers(cs + [c]) <==> q.DistinctNumbers(cs) && q.Number(c) !in q.Present(cs)
    ensures q.Selected(cs + [c]) <==> q.Selected(cs) || c.source in q.scope
    ensures q.Excluded(cs + [c]) <==> q.Excluded(cs) || c.source !in q.scope
    ensures q.Present(cs + [c]) == q.Present(cs) + {q.Number(c)}
  {
    hide Request.Number;
    var all := cs + [c];
    assert forall i :: 0 <= i < |cs| ==> all[i] == cs[i];
    assert all[|cs|] == c;
    if q.Number(c) in q.Present(cs) {
      var d :| d in cs && q.Number(d) == q.Number(c);
      var i :| 0 <= i < |cs| && cs[i] == d;
      assert q.Number(all[i]) == q.Number(all[|cs|]);
    }
  }

  method ReasonedGaps(extent: Extent) returns (intentional: map<int, string>)
    ensures forall n :: extent.first <= n <= extent.last ==>
              (n in intentional <==> ReasonFor(extent.gaps, n).Some?) &&
              (n in intentional ==> intentional[n] == ReasonFor(extent.gaps, n).value)
  {
    intentional := map[];
    var gaps := extent.gaps;
    for i := 0 to |gaps|
      invariant forall n :: extent.first <= n <= extent.last ==>
                  (n in intentional <==> ReasonFor(gaps[..i], n).Some?) &&
                  (n in intentional ==> intentional[n] == ReasonFor(gaps[..i], n).value)
    {
      assert gaps[..i + 1][..i] == gaps[..i];
      var gap := gaps[i];
      if extent.first <= gap.chapter <= extent.last && gap.reason != "" {
        intentional := intentional[gap.chapter := gap.reason];
      }
    }
    assert gaps[..|gaps|] == gaps;
  }

  /** Every expected chapter is present or a reasoned gap; the gaps are noted. */
  method Account(extent: Extent, seen: set<int>) returns (notes: seq<Gap>, missing: bool)
    requires extent.first <= extent.last
    ensures notes == Notes(extent, seen, extent.last + 1)
    ensures !missing <==> forall n :: extent.first <= n <= extent.last ==> Accounted(extent, seen, n)
  {
    var intentional := ReasonedGaps(extent);
    hide ReasonFor;
    notes, missing := [], false;
    for n := extent.first to extent.last + 1
      invariant notes == Notes(extent, seen, n)
      invariant !missing <==> forall k :: extent.first <= k < n ==> Accounted(extent, seen, k)
    {
      assert Accounted(extent, seen, n) <==> n in seen || n in intentional;
      if n !in seen {
        if n in intentional {
          notes := notes + [Gap(n, intentional[n])];
        } else {
          missing := true;
        }
      }
    }
  }

  method SortByNumber(q: Request, cs: seq<Candidate>) returns (r: seq<Candidate>)
    ensures r == q.ByNumber(cs)
  {
    r := SortBy(q.Before, cs);
  }

  method IsUncertain(q: Request, cs: seq<Candidate>) returns (uncertain: bool)
    ensures uncertain <==> q.Uncertain(cs)
  {
    for i := 0 to |cs|
      invariant forall j :: 0 <= j < i ==> !cs[j].planned
    {
      if cs[i].planned {
        return true;
      }
    }
    uncertain := false;
  }

  /** A complete group: kept as it is, or built anew. */
  method Build(q: Request, group: GroupId, chapters: seq<Candidate>, notes: seq<Gap>) returns (edition: Option<Edition>)
    requires q.output.chaptersPerVolume >= 1 && chapters != [] && chapters == q.Group(group)
    requires notes == Notes(q.Extent(group), q.Present(chapters), q.Extent(group).last + 1)
    ensures var cs := q.ByNumber(chapters);
            && cs != []
            && edition == if q.Frozen(group, q.EditionOf(group, cs), q.Uncertain(cs)) then None else Some(q.EditionOf(group, cs))
  {
    SameChapters(q, chapters);
    hide Request.Extent, Notes, Request.Number, Request.Position, Request.Uncertain, Request.ByNumber;
    var cs := SortByNumber(q, chapters);
    assert q.Present(cs) == q.Present(chapters);
    var extent := q.Extent(group);
    var members, readings := [], [];
    for i := 0 to |cs|
      invariant |members| == i && |readings| == i
      invariant forall j :: 0 <= j < i ==> members[j] == q.MemberOf(cs[j]) && readings[j] == cs[j].reading
    {
      members, readings := members + [q.MemberOf(cs[i])], readings + [cs[i].reading];
    }
    assert members == q.MembersOf(cs) && readings == q.ReadingsOf(cs);
    var head, first := chapters[0], cs[0];
    var index := if first.release in q.facts then q.facts[first.release].seriesIndex else "";
    if index == "" {
      index := Decimal(members[0].position);
    }
    var recipe := Recipe(q.series.id, q.series.title, q.PublicationOf(first), ASSEMBLY_VERSION, group, extent.first, extent.last,
                         q.NameOf(group, head), q.HeadingOf(group, head), notes, index, readings);
    assert recipe == q.RecipeOf(group, cs, head);
    var uncertain := IsUncertain(q, cs);
    if group in q.active {
      var prior := q.active[group];
      if !q.rebuild || (!uncertain && prior.recipe == recipe && prior.members == members && group in q.intact) {
        return None;
      }
    }
    edition := Some(Edition(group, cs[0].source, extent.first, extent.last, recipe, members));
  }

  /** One turn of the planner's loop over the groups. */
  method PlanGroup(q: Request, group: GroupId, chapters: seq<Candidate>, hasBooks: bool)
      returns (failed: bool, settled: bool, edition: Option<Edition>)
    requires q.output.chaptersPerVolume >= 1 && group in q.Groups() && chapters == q.Group(group)
    requires hasBooks == q.HasBooks()
    ensures failed == q.Fails(group) && settled == q.Settles(group)
    ensures edition == if q.Emits(group) then Some(q.EditionOf(group, q.ByNumber(chapters))) else None
  {
    failed, settled, edition := false, false, None;
    if !q.rebuild {
      var overlaps := Overlaps(q, group, chapters);
      if overlaps {
        return;
      }
    }
    GroupNotEmpty(q, group);
    SameChapters(q, chapters);
    var extent := q.Extent(group);
    var complete, selected, excluded, seen := Scan(q, chapters);
    if !selected {
      return;
    }
    hide Request.Group, Request.Groups, Request.Overlapping, Request.Selected, Request.Excluded, Request.Usable,
         Request.DistinctNumbers, Request.Present, Request.Extent, Request.HasBooks, Request.Frozen, Request.EditionOf,
         Request.ByNumber, Accounted, Notes, Request.Uncertain;
    failed := excluded;
    if extent.last < extent.first || !complete || excluded || (hasBooks && group.RangeGroup?) {
      return;
    }
    var notes, missing := Account(extent, seen);
    if missing {
      return;
    }
    settled := true;
    edition := Build(q, group, chapters, notes);
  }

  /* ---- The whole series ---- */

  /** The loop's accumulators, with the groups in `open` still to come. */
  ghost predicate EditionsSoFar(q: Request, open: set<GroupId>, editions: map<GroupId, Edition>)
    requires q.output.chaptersPerVolume >= 1
  {
    && (forall g :: g in editions <==> g in q.Groups() && g !in open && q.Emits(g))
    && (forall g :: g in editions ==> q.ByNumber(q.Group(g)) != [] && editions[g] == q.EditionOf(g, q.ByNumber(q.Group(g))))
  }

  ghost predicate RetainedSoFar(q: Request, open: set<GroupId>, retained: set<GroupId>)
    requires q.output.chaptersPerVolume >= 1
  {
    forall g :: g in retained <==> g in q.Groups() && g !in open && q.Settles(g)
  }

  ghost predicate FailedSoFar(q: Request, open: set<GroupId>, failed: bool)
    requires q.output.chaptersPerVolume >= 1
  {
    failed <==> q.MissesInput() || exists g :: g in q.Groups() && g !in open && q.Fails(g)
  }

  lemma EditionsNext(q: Request, open: set<GroupId>, editions: map<GroupId, Edition>, g: GroupId)
    requires q.output.chaptersPerVolume >= 1 && g in q.Groups() && g in open && q.ByNumber(q.Group(g)) != []
    requires EditionsSoFar(q, open, editions)
    ensures EditionsSoFar(q, open - {g}, if q.Emits(g) then editions[g := q.EditionOf(g, q.ByNumber(q.Group(g)))] else editions)
  {
    hide Request.Groups, Request.Group, Request.Emits, Request.EditionOf, Request.ByNumber;
  }

  lemma OthersNext(q: Request, open: set<GroupId>, retained: set<GroupId>, failed: bool, g: GroupId)
    requires q.output.chaptersPerVolume >= 1 && g in q.Groups() && g in open
    requires RetainedSoFar(q, open, retained) && FailedSoFar(q, open, failed)
    ensures RetainedSoFar(q, open - {g}, if q.Settles(g) then retained + {g} else retained)
    ensures FailedSoFar(q, open - {g}, failed || q.Fails(g))
  {
    hide Request.Groups, Request.Group, Request.Settles, Request.Fails, Request.MissesInput;
  }

  lemma EditionsDone(q: Request, editions: map<GroupId, Edition>)
    requires q.output.chaptersPerVolume >= 1 && EditionsSoFar(q, {}, editions)
    ensures editions == q.NewEditions()
  {
    hide Request.Groups, Request.Group, Request.Emits, Request.EditionOf, Request.ByNumber;
  }

  lemma RetainedDone(q: Request, retained: set<GroupId>)
    requires q.output.chaptersPerVolume >= 1 && RetainedSoFar(q, {}, retained)
    ensures (set g | g in q.active && g !in retained && q.active[g].source in q.scope) == q.Retired()
  {
    SettlesGroups(q);
    hide Request.Groups, Request.Settles;
    assert forall g :: g in retained <==> q.Settles(g);
  }

  lemma FailedDone(q: Request, failed: bool)
    requires q.output.chaptersPerVolume >= 1 && FailedSoFar(q, {}, failed)
    ensures failed == q.AnyFails()
  {
    hide Request.Groups, Request.MissesInput, Request.Fails;
  }

  lemma SettlesGroups(q: Request)
    requires q.output.chaptersPerVolume >= 1
    ensures forall g :: q.Settles(g) ==> g in q.Groups()
  {
  }

  method PlanVolumes(q: Request) returns (r: Result)
    requires q.output.chaptersPerVolume >= 1
    ensures r == q.PlannedVolumes()
  {
    var groups, hasBooks, failed := GroupChapters(q);
    var editions: map<GroupId, Edition>, retained: set<GroupId> := map[], {};
    var open := groups.Keys;
    hide Request.Groups, Request.Group, Request.MissesInput, Request.Emits, Request.Settles, Request.Fails, Request.AnyFails,
         Request.EditionOf, Request.HasBooks, Request.ByNumber, Request.NewEditions, Request.Retired;
    assert EditionsSoFar(q, open, editions) && RetainedSoFar(q, open, retained) && FailedSoFar(q, open, failed);
    hide EditionsSoFar, RetainedSoFar, FailedSoFar;
    while open != {}
      invariant open <= q.Groups()
      invariant EditionsSoFar(q, open, editions)
      invariant RetainedSoFar(q, open, retained)
      invariant FailedSoFar(q, open, failed)
      decreases |open|
    {
      var g :| g in open;
      GroupNotEmpty(q, g);
      EditionsNext(q, open, editions, g);
      OthersNext(q, open, retained, failed, g);
      open := open - {g};
      var fails, settled, edition := PlanGroup(q, g, groups[g], hasBooks);
      failed := failed || fails;
      if settled {
        retained := retained + {g};
      }
      if edition.Some? {
        editions := editions[g := edition.value];
      }
    }
    EditionsDone(q, editions);
    RetainedDone(q, retained);
    FailedDone(q, failed);
    var removed := {};
    if q.rebuild && !failed {
      removed := set g | g in q.active && g !in retained && q.active[g].source in q.scope;
    }
    r := Result(editions, removed, failed, false);
  }

  /** The planner computes the plan the safety results are about. */
  method PlanSeries(q: Request) returns (r: Result)
    ensures r == q.Planned()
  {
    hide Request.Mixed, Request.PlannedSingles, Request.PlannedVolumes;
    if q.rebuild {
      var mixed := IsMixed(q);
      if mixed {
        return Result(map[], {}, true, true);
      }
    }
    if !q.bundled {
      r := PlanSingles(q);
      return;
    }
    if q.output.chaptersPerVolume < 1 {
      return Result(map[], {}, true, true);
    }
    r := PlanVolumes(q);
  }
}
