/**
 * The reader-facing index of every release of a series: the author's numbering where there is one,
 * release order where there is none. Which of the two applies is decided over the whole series.
 */
module SeriesIndex {
  import opened Common

  /** `half` is a non-integral label such as "5.5", `dotted` the author's own "book.chapter". */
  datatype Coordinates = Coordinates(book: int, chapter: int, part: int, half: string, dotted: string)
  {
    predicate Numbered() {
      chapter > 0 || dotted != ""
    }
  }

  datatype Release = Release(id: string, published: int, coordinates: Coordinates)

  datatype Mode = ChapterMode | PartMode | OrdinalMode

  /* ---- Publication order ---- */

  predicate Before(a: Release, b: Release) {
    if a.published == b.published then Less(a.id, b.id) else a.published < b.published
  }

  function Ordered(releases: seq<Release>): seq<Release> {
    Sorted(Before, releases)
  }

  ghost predicate DistinctIds(s: seq<Release>) {
    forall i, j :: 0 <= i < j < |s| ==> s[i].id != s[j].id
  }

  lemma BeforeIsOrder()
    ensures WeakOrder(Before)
  {
    LessIsOrder();
  }

  lemma OrderedSorts(releases: seq<Release>)
    ensures multiset(Ordered(releases)) == multiset(releases)
    ensures InOrder(Before, Ordered(releases))
  {
    BeforeIsOrder();
    SortedSorts(Before, releases);
  }

  lemma Tails(s: seq<Release>, t: seq<Release>)
    requires multiset(s) == multiset(t) && s != [] && t != [] && s[0] == t[0]
    ensures multiset(s[1..]) == multiset(t[1..])
    ensures s[1..] == t[1..] ==> s == t
  {
    assert s == [s[0]] + s[1..] && t == [t[0]] + t[1..];
    assert multiset(s[1..]) == multiset(s) - multiset{s[0]};
    assert multiset(t[1..]) == multiset(t) - multiset{t[0]};
  }

  /** With distinct ids there is one publication order. */
  lemma {:induction false} OneOrder(s: seq<Release>, t: seq<Release>)
    requires multiset(s) == multiset(t) && InOrder(Before, s) && InOrder(Before, t) && DistinctIds(s)
    ensures s == t
  {
    hide Before;
    assert |s| == |multiset(s)| == |t|;
    if s == [] {
    } else {
      FirstIsFirst(s, t);
      Tails(s, t);
      OneOrder(s[1..], t[1..]);
    }
  }

  lemma FirstIsFirst(s: seq<Release>, t: seq<Release>)
    requires multiset(s) == multiset(t) && InOrder(Before, s) && InOrder(Before, t) && DistinctIds(s) && s != [] && t != []
    ensures s[0] == t[0]
  {
    assert s[0] in multiset(t) && t[0] in multiset(s);
    var i :| 0 <= i < |t| && t[i] == s[0];
    var j :| 0 <= j < |s| && s[j] == t[0];
    if j > 0 && i > 0 {
      assert !Before(s[j], s[0]) && !Before(t[i], t[0]);
      LessTotal(s[0].id, t[0].id);
    }
  }

  method SortReleases(releases: seq<Release>) returns (r: seq<Release>)
    ensures r == Ordered(releases)
  {
    r := SortBy(Before, releases);
  }

  /* ---- What the series counts ---- */

  function CoordinatesOf(releases: seq<Release>): (cs: seq<Coordinates>)
    ensures |cs| == |releases|
  {
    seq(|releases|, i requires 0 <= i < |releases| => releases[i].coordinates)
  }

  function Chapters(cs: seq<Coordinates>): nat {
    if cs == [] then 0 else Chapters(cs[..|cs| - 1]) + (if cs[|cs| - 1].Numbered() then 1 else 0)
  }

  function Parts(cs: seq<Coordinates>): nat {
    if cs == [] then 0
    else Parts(cs[..|cs| - 1]) + (if !cs[|cs| - 1].Numbered() && cs[|cs| - 1].part > 0 then 1 else 0)
  }

  function ModeOf(cs: seq<Coordinates>, byRelease: bool): Mode {
    if byRelease then OrdinalMode
    else if Chapters(cs) * 2 >= |cs| then ChapterMode
    else if Parts(cs) > Chapters(cs) && (Chapters(cs) + Parts(cs)) * 2 >= |cs| then PartMode
    else OrdinalMode
  }

  /** The highest chapter and the latest book among the numbered releases before `i`. */
  function Highest(cs: seq<Coordinates>, i: nat): (h: nat)
    requires i <= |cs|
  {
    if i == 0 then 0
    else if cs[i - 1].chapter > Highest(cs, i - 1) then cs[i - 1].chapter
    else Highest(cs, i - 1)
  }

  function LatestBook(cs: seq<Coordinates>, i: nat): int
    requires i <= |cs|
  {
    if i == 0 then 0
    else if cs[i - 1].chapter != 0 && cs[i - 1].book > LatestBook(cs, i - 1) then cs[i - 1].book
    else LatestBook(cs, i - 1)
  }

  /** The author's own shorthand, or a later book whose chapters start again at a number already reached. */
  predicate RestartsAt(cs: seq<Coordinates>, i: nat)
    requires i < |cs|
  {
    || cs[i].dotted != ""
    || (&& cs[i].chapter != 0 && cs[i].book > LatestBook(cs, i) && cs[i].chapter <= Highest(cs, i)
        && (LatestBook(cs, i) > 0 || Highest(cs, i) > 0))
  }

  predicate RestartsPerBook(cs: seq<Coordinates>) {
    exists i :: 0 <= i < |cs| && RestartsAt(cs, i)
  }

  predicate PerBook(cs: seq<Coordinates>, byRelease: bool) {
    ModeOf(cs, byRelease) == ChapterMode && RestartsPerBook(cs)
  }

  method Restarts(cs: seq<Coordinates>) returns (restarts: bool)
    ensures restarts <==> RestartsPerBook(cs)
  {
    var highest, book := 0, 0;
    for i := 0 to |cs|
      invariant highest == Highest(cs, i) && book == LatestBook(cs, i)
      invariant forall j :: 0 <= j < i ==> !RestartsAt(cs, j)
    {
      var c := cs[i];
      if c.dotted != "" {
        assert RestartsAt(cs, i);
        return true;
      }
      if c.chapter == 0 {
        continue;
      }
      if c.book > book {
        if book > 0 || highest > 0 {
          if c.chapter <= highest {
            assert RestartsAt(cs, i);
            return true;
          }
        }
        book := c.book;
      }
      highest := if c.chapter > highest then c.chapter else highest;
    }
    restarts := false;
  }

  method DecideMode(cs: seq<Coordinates>, byRelease: bool) returns (mode: Mode)
    ensures mode == ModeOf(cs, byRelease)
  {
    var chapters, parts := 0, 0;
    for i := 0 to |cs|
      invariant chapters == Chapters(cs[..i]) && parts == Parts(cs[..i])
    {
      assert cs[..i + 1][..i] == cs[..i];
      if cs[i].Numbered() {
        chapters := chapters + 1;
      } else if cs[i].part > 0 {
        parts := parts + 1;
      }
    }
    assert cs[..|cs|] == cs;
    mode := OrdinalMode;
    if byRelease {
    } else if chapters * 2 >= |cs| {
      mode := ChapterMode;
    } else if parts > chapters && (chapters + parts) * 2 >= |cs| {
      mode := PartMode;
    }
  }

  /* ---- Labels ---- */

  /** What the labelling loop carries: the label before, and the current book. */
  datatype State = State(last: string, book: int)

  function Dotted(book: int, chapter: int): string {
    Decimal(book) + "." + Decimal(chapter)
  }

  /** The label a release earns by itself, or "", and the book it is in. */
  function Own(mode: Mode, perBook: bool, index: nat, c: Coordinates, s: State): State {
    match mode
    case OrdinalMode => State(Decimal(index + 1), s.book)
    case PartMode => State(if c.part > 0 then Decimal(c.part) else "", s.book)
    case ChapterMode =>
      if !perBook then State(if c.half != "" then c.half else if c.chapter > 0 then Decimal(c.chapter) else "", s.book)
      else if c.dotted != "" then State(c.dotted, c.book)
      else if c.book > 0 && c.chapter > 0 then State(Dotted(c.book, c.chapter), c.book)
      else if c.chapter > 0 then State(Dotted(s.book, c.chapter), s.book)
      else if c.book > 0 && c.book != s.book then State(Decimal(c.book) + ".0", c.book)
      else State(if s.last == "" then Decimal(s.book) + ".0" else "", s.book)
  }

  /** An unnumbered release repeats the label before it. */
  function Next(mode: Mode, perBook: bool, index: nat, c: Coordinates, s: State): State {
    var own := Own(mode, perBook, index, c, s);
    if own.last != "" then own else own.(last := if s.last == "" then "0" else s.last)
  }

  function After(mode: Mode, perBook: bool, cs: seq<Coordinates>): State {
    if cs == [] then State("", 1)
    else Next(mode, perBook, |cs| - 1, cs[|cs| - 1], After(mode, perBook, cs[..|cs| - 1]))
  }

  function Label(mode: Mode, perBook: bool, cs: seq<Coordinates>, i: nat): string
    requires i < |cs|
  {
    After(mode, perBook, cs[..i + 1]).last
  }

  function Labelled(ordered: seq<Release>, mode: Mode, perBook: bool, n: nat): map<string, string>
    requires n <= |ordered|
  {
    if n == 0 then map[]
    else Labelled(ordered, mode, perBook, n - 1)[ordered[n - 1].id := Label(mode, perBook, CoordinatesOf(ordered), n - 1)]
  }

  function Indexes(releases: seq<Release>, byRelease: bool): map<string, string> {
    var ordered := Ordered(releases);
    var cs := CoordinatesOf(ordered);
    Labelled(ordered, ModeOf(cs, byRelease), PerBook(cs, byRelease), |ordered|)
  }

  /** The label of one release: never empty, and one the reader accepts if the label before it was. */
  method LabelOne(mode: Mode, perBook: bool, i: nat, c: Coordinates, last: string,
          current: int) returns (text: string, book: int)
    ensures State(text, book) == Next(mode, perBook, i, c, State(last, current))
    ensures text != ""
    ensures WellRead(c) && current >= 0 && (last == "" || Acceptable(last)) ==> Acceptable(text) && book >= 0
  {
    hide Decimal, Acceptable, WellRead;
    if WellRead(c) && current >= 0 && (last == "" || Acceptable(last)) {
      NextIsAcceptable(mode, perBook, i, c, State(last, current));
    }
    text, book := "", current;
    match mode {
      case OrdinalMode => text := Decimal(i + 1);
      case PartMode =>
        if c.part > 0 {
          text := Decimal(c.part);
        }
      case ChapterMode =>
        if !perBook {
          if c.half != "" {
            text := c.half;
          } else if c.chapter > 0 {
            text := Decimal(c.chapter);
          }
        } else if c.dotted != "" {
          text, book := c.dotted, c.book;
        } else if c.book > 0 && c.chapter > 0 {
          text, book := Decimal(c.book) + "." + Decimal(c.chapter), c.book;
        } else if c.chapter > 0 {
          text := Decimal(book) + "." + Decimal(c.chapter);
        } else if c.book > 0 && c.book != book {
          book := c.book;
          text := Decimal(book) + ".0";
        } else if last == "" {
          text := Decimal(book) + ".0";
        }
    }
    if text == "" {
      text := last;
      if text == "" {
        text := "0";
      }
    }
  }

  method SeriesIndexes(releases: seq<Release>, byRelease: bool) returns (indexes: map<string, string>)
    ensures indexes == Indexes(releases, byRelease)
  {
    var ordered := SortReleases(releases);
    var cs := CoordinatesOf(ordered);
    var mode := DecideMode(cs, byRelease);
    var restarts := Restarts(cs);
    var perBook := mode == ChapterMode && restarts;
    hide Next, ModeOf, RestartsPerBook, Ordered;
    indexes := map[];
    var last, book := "", 1;
    for i := 0 to |ordered|
      invariant State(last, book) == After(mode, perBook, cs[..i])
      invariant indexes == Labelled(ordered, mode, perBook, i)
    {
      assert cs[..i + 1][..i] == cs[..i];
      last, book := LabelOne(mode, perBook, i, cs[i], last, book);
      indexes := indexes[ordered[i].id := last];
    }
  }

  /* ---- Later releases ---- */

  /** `later` is `earlier` and releases that sort after all of it, in any order. */
  ghost predicate Extends(earlier: seq<Release>, added: seq<Release>, later: seq<Release>) {
    && multiset(later) == multiset(earlier) + multiset(added)
    && (forall a, b :: a in earlier && b in added ==> Before(a, b))
    && DistinctIds(later)
  }

  lemma JoinInOrder(s: seq<Release>, t: seq<Release>)
    requires InOrder(Before, s) && InOrder(Before, t) && forall a, b :: a in s && b in t ==> Before(a, b)
    ensures InOrder(Before, s + t)
  {
    var u := s + t;
    forall i, j | 0 <= i < j < |u|
      ensures !Before(u[j], u[i])
    {
      if i < |s| <= j {
        assert s[i] in s && t[j - |s|] in t;
        BeforeIsOrder();
      }
    }
  }

  lemma SameReleases(s: seq<Release>, t: seq<Release>)
    requires multiset(s) == multiset(t)
    ensures forall r :: r in s <==> r in t
  {
    forall r
      ensures r in s <==> r in t
    {
      assert r in s <==> r in multiset(s);
      assert r in t <==> r in multiset(t);
    }
  }

  lemma OrderedExtends(earlier: seq<Release>, added: seq<Release>, later: seq<Release>)
    requires Extends(earlier, added, later)
    ensures Ordered(later) == Ordered(earlier) + Ordered(added)
  {
    OrderedSorts(earlier);
    OrderedSorts(added);
    OrderedSorts(later);
    hide Ordered, Before, InOrder, DistinctIds;
    DistinctAnyOrder(later, Ordered(later));
    SameReleases(earlier, Ordered(earlier));
    SameReleases(added, Ordered(added));
    JoinInOrder(Ordered(earlier), Ordered(added));
    OneOrder(Ordered(later), Ordered(earlier) + Ordered(added));
  }

  lemma DistinctAnyOrder(s: seq<Release>, t: seq<Release>)
    requires multiset(s) == multiset(t) && DistinctIds(s)
    ensures DistinctIds(t)
  {
    DistinctInAnyOrder((r: Release) => r.id, s, t);
  }

  lemma {:induction false} LabelledAt(ordered: seq<Release>, mode: Mode, perBook: bool, n: nat, i: nat)
    requires i < n <= |ordered| && DistinctIds(ordered)
    ensures ordered[i].id in Labelled(ordered, mode, perBook, n)
    ensures Labelled(ordered, mode, perBook, n)[ordered[i].id] == Label(mode, perBook, CoordinatesOf(ordered), i)
  {
    hide Label;
    if i == n - 1 {
    } else {
      LabelledAt(ordered, mode, perBook, n - 1, i);
    }
  }

  /** The label of the release at place `i` of the publication order. */
  lemma IndexAt(releases: seq<Release>, byRelease: bool, i: nat)
    requires DistinctIds(releases) && i < |Ordered(releases)|
    ensures var ordered := Ordered(releases);
            var cs := CoordinatesOf(ordered);
            && ordered[i].id in Indexes(releases, byRelease)
            && Indexes(releases, byRelease)[ordered[i].id] == Label(ModeOf(cs, byRelease), PerBook(cs, byRelease), cs, i)
  {
    var ordered := Ordered(releases);
    var cs := CoordinatesOf(ordered);
    OrderedSorts(releases);
    DistinctAnyOrder(releases, ordered);
    LabelledAt(ordered, ModeOf(cs, byRelease), PerBook(cs, byRelease), |ordered|, i);
  }

  ghost function CsOf(releases: seq<Release>): seq<Coordinates> {
    CoordinatesOf(Ordered(releases))
  }

  ghost predicate SameLabels(earlier: seq<Release>, later: seq<Release>, byRelease: bool) {
    forall r :: r in earlier ==>
      && r.id in Indexes(earlier, byRelease) && r.id in Indexes(later, byRelease)
      && Indexes(later, byRelease)[r.id] == Indexes(earlier, byRelease)[r.id]
  }

  lemma PlaceOf(releases: seq<Release>, r: Release) returns (i: nat)
    requires r in releases
    ensures i < |Ordered(releases)| && Ordered(releases)[i] == r
  {
    OrderedSorts(releases);
    assert r in multiset(releases) && r in multiset(Ordered(releases));
    i :| 0 <= i < |Ordered(releases)| && Ordered(releases)[i] == r;
  }

  lemma EarlierDistinct(earlier: seq<Release>, added: seq<Release>, later: seq<Release>)
    requires Extends(earlier, added, later)
    ensures DistinctIds(earlier)
  {
    assert multiset(earlier + added) == multiset(later);
    DistinctAnyOrder(later, earlier + added);
    assert forall i :: 0 <= i < |earlier| ==> (earlier + added)[i] == earlier[i];
  }

  /** While the mode and the per-book flag stay, later releases relabel nothing. */
  lemma LaterReleasesKeepLabels(earlier: seq<Release>, added: seq<Release>, later: seq<Release>, byRelease: bool)
    requires Extends(earlier, added, later)
    requires ModeOf(CsOf(later), byRelease) == ModeOf(CsOf(earlier), byRelease)
    requires PerBook(CsOf(later), byRelease) == PerBook(CsOf(earlier), byRelease)
    ensures SameLabels(earlier, later, byRelease)
  {
    OrderedExtends(earlier, added, later);
    EarlierDistinct(earlier, added, later);
    hide Ordered, ModeOf, PerBook, Label, Indexes, Extends, DistinctIds;
    forall r | r in earlier
      ensures r.id in Indexes(earlier, byRelease) && r.id in Indexes(later, byRelease)
      ensures Indexes(later, byRelease)[r.id] == Indexes(earlier, byRelease)[r.id]
    {
      var i := PlaceOf(earlier, r);
      IndexAt(earlier, byRelease, i);
      LaterDistinct(earlier, added, later);
      IndexAt(later, byRelease, i);
      LabelOfPrefix(ModeOf(CsOf(earlier), byRelease), PerBook(CsOf(earlier), byRelease), CsOf(earlier), CsOf(later), i);
    }
  }

  lemma LaterDistinct(earlier: seq<Release>, added: seq<Release>, later: seq<Release>)
    requires Extends(earlier, added, later)
    ensures DistinctIds(later)
  {
  }

  lemma LabelOfPrefix(mode: Mode, perBook: bool, cs: seq<Coordinates>, more: seq<Coordinates>, i: nat)
    requires i < |cs| <= |more| && forall k :: 0 <= k < |cs| ==> more[k] == cs[k]
    ensures Label(mode, perBook, more, i) == Label(mode, perBook, cs, i)
  {
    assert more[..i + 1] == cs[..i + 1];
  }

  /** Once numbering restarts per book, it does on every extension. */
  lemma RestartsStay(cs: seq<Coordinates>, more: seq<Coordinates>)
    requires RestartsPerBook(cs)
    ensures RestartsPerBook(cs + more)
  {
    var i :| 0 <= i < |cs| && RestartsAt(cs, i);
    CarriedOver(cs, more, i);
    assert RestartsAt(cs + more, i);
  }

  lemma {:induction false} CarriedOver(cs: seq<Coordinates>, more: seq<Coordinates>, i: nat)
    requires i <= |cs|
    ensures Highest(cs + more, i) == Highest(cs, i) && LatestBook(cs + more, i) == LatestBook(cs, i)
  {
    if i == 0 {
    } else {
      CarriedOver(cs, more, i - 1);
    }
  }

  /* ---- When labels are safe from every later release ---- */

  /** The author's shorthand is a pattern with a dot in it. */
  ghost predicate WellDotted(releases: seq<Release>) {
    forall r :: r in releases ==> r.coordinates.dotted != "" ==> '.' in r.coordinates.dotted
  }

  ghost predicate NeverRelabelled(earlier: seq<Release>, byRelease: bool) {
    forall added, later :: Extends(earlier, added, later) && WellDotted(later) ==> SameLabels(earlier, later, byRelease)
  }

  lemma {:induction false} Counts(cs: seq<Coordinates>)
    ensures Chapters(cs) + Parts(cs) <= |cs|
  {
    if cs == [] {
    } else {
      Counts(cs[..|cs| - 1]);
    }
  }

  lemma {:induction false} CountsJoin(cs: seq<Coordinates>, c: Coordinates, n: nat)
    ensures Chapters(cs + Repeat(c, n)) == Chapters(cs) + (if c.Numbered() then n else 0)
    ensures Parts(cs + Repeat(c, n)) == Parts(cs) + (if !c.Numbered() && c.part > 0 then n else 0)
  {
    hide Coordinates.Numbered;
    if n == 0 {
      assert cs + Repeat(c, n) == cs;
    } else {
      CountsJoin(cs, c, n - 1);
      RepeatLast(cs, c, n);
      hide Repeat;
    }
  }

  lemma RepeatLast<T>(s: seq<T>, x: T, n: nat)
    requires n > 0
    ensures s + Repeat(x, n) == s + Repeat(x, n - 1) + [x]
    ensures (s + Repeat(x, n))[..|s| + n - 1] == s + Repeat(x, n - 1)
  {
  }

  function Repeat<T>(x: T, n: nat): (r: seq<T>)
    ensures |r| == n
  {
    seq(n, i requires 0 <= i < n => x)
  }

  const PLAIN := Coordinates(0, 0, 0, "", "")
  const SHORTHAND := Coordinates(1, 1, 0, "", "1.1")

  /** Enough unnumbered releases switch any series to release order. */
  lemma PlainMeansOrdinal(cs: seq<Coordinates>)
    ensures ModeOf(cs + Repeat(PLAIN, |cs| + 1), false) == OrdinalMode
  {
    Counts(cs);
    CountsJoin(cs, PLAIN, |cs| + 1);
  }

  /** Enough releases in the author's shorthand switch any series to chapters per book. */
  lemma ShorthandMeansPerBook(cs: seq<Coordinates>)
    ensures PerBook(cs + Repeat(SHORTHAND, |cs| + 1), false)
  {
    var all := cs + Repeat(SHORTHAND, |cs| + 1);
    CountsJoin(cs, SHORTHAND, |cs| + 1);
    assert RestartsAt(all, |cs|);
  }

  lemma FirstLabels(cs: seq<Coordinates>)
    requires cs != [] && (cs[0].dotted != "" ==> '.' in cs[0].dotted)
    ensures Label(OrdinalMode, false, cs, 0) == "1"
    ensures '.' in Label(ChapterMode, true, cs, 0)
  {
    var c := cs[0];
    assert cs[..1] == [c] && [c][..0] == [];
    assert After(ChapterMode, true, [c]) == Next(ChapterMode, true, 0, c, State("", 1));
    assert After(OrdinalMode, false, [c]) == Next(OrdinalMode, false, 0, c, State("", 1));
    assert Decimal(1) == "1";
    hide Decimal;
    assert '.' in Own(ChapterMode, true, 0, c, State("", 1)).last by {
      assert forall a: string, b: string :: (a + "." + b)[|a|] == '.';
      assert forall a: string :: (a + ".0")[|a|] == '.';
    }
  }

  function Longest(releases: seq<Release>): nat {
    if releases == [] then 0
    else
      var rest := Longest(releases[1..]);
      if |releases[0].id| > rest then |releases[0].id| else rest
  }

  function Newest(releases: seq<Release>): int {
    if releases == [] then 0
    else
      var rest := Newest(releases[1..]);
      if releases[0].published > rest then releases[0].published else rest
  }

  lemma {:induction false} Bounds(releases: seq<Release>)
    ensures forall r :: r in releases ==> |r.id| <= Longest(releases) && r.published <= Newest(releases)
  {
    if releases == [] {
    } else {
      Bounds(releases[1..]);
      assert releases == [releases[0]] + releases[1..];
    }
  }

  function Sequel(releases: seq<Release>, c: Coordinates, i: nat): (r: Release)
    ensures |r.id| == Longest(releases) + 1 + i && r.published == Newest(releases) + 1 && r.coordinates == c
  {
    Release(Repeat('x', Longest(releases) + 1 + i), Newest(releases) + 1, c)
  }

  /** `n` releases with the same coordinates, newer than the whole series. */
  function Sequels(releases: seq<Release>, c: Coordinates, n: nat): (added: seq<Release>)
    ensures |added| == n
    ensures forall i :: 0 <= i < n ==> added[i] == Sequel(releases, c, i)
  {
    seq(n, i requires 0 <= i < n => Sequel(releases, c, i))
  }

  lemma SequelsExtend(releases: seq<Release>, c: Coordinates, n: nat)
    requires DistinctIds(releases)
    ensures Extends(releases, Sequels(releases, c, n), releases + Sequels(releases, c, n))
  {
    hide Sequels, Sequel, Longest, Newest;
    var added := Sequels(releases, c, n);
    Bounds(releases);
    var later := releases + added;
    forall i, j | 0 <= i < j < |later|
      ensures later[i].id != later[j].id
    {
      if i < |releases| <= j {
        assert releases[i] in releases && added[j - |releases|] == Sequel(releases, c, j - |releases|);
      } else if |releases| <= i {
        assert added[i - |releases|] == Sequel(releases, c, i - |releases|);
        assert added[j - |releases|] == Sequel(releases, c, j - |releases|);
      }
    }
  }

  lemma OrderedAlike(releases: seq<Release>, c: Coordinates)
    requires forall r :: r in releases ==> r.coordinates == c
    ensures CsOf(releases) == Repeat(c, |releases|)
  {
    OrderedSorts(releases);
    hide Ordered, InOrder;
    var t := Ordered(releases);
    SameReleases(releases, t);
    assert |t| == |multiset(t)| == |multiset(releases)| == |releases|;
    assert forall i :: 0 <= i < |t| ==> t[i] in t;
  }

  lemma CoordinatesJoin(s: seq<Release>, t: seq<Release>)
    ensures CoordinatesOf(s + t) == CoordinatesOf(s) + CoordinatesOf(t)
  {
  }

  lemma SequelsCounted(releases: seq<Release>, c: Coordinates, n: nat)
    requires DistinctIds(releases)
    ensures CsOf(releases + Sequels(releases, c, n)) == CsOf(releases) + Repeat(c, n)
  {
    hide Sequel, Ordered, Extends, Repeat, CoordinatesOf, DistinctIds;
    var added := Sequels(releases, c, n);
    SequelsExtend(releases, c, n);
    OrderedExtends(releases, added, releases + added);
    OrderedAlike(added, c);
    CoordinatesJoin(Ordered(releases), Ordered(added));
  }

  lemma FirstChanges(earlier: seq<Release>, c: Coordinates, n: nat)
    requires DistinctIds(earlier) && WellDotted(earlier) && earlier != [] && (c.dotted != "" ==> '.' in c.dotted)
    requires var cs := CsOf(earlier);
             var all := cs + Repeat(c, n);
             cs != [] && Label(ModeOf(all, false), PerBook(all, false), cs, 0) != Label(ModeOf(cs, false), PerBook(cs, false), cs, 0)
    ensures !NeverRelabelled(earlier, false)
  {
    var added := Sequels(earlier, c, n);
    var later := earlier + added;
    SequelsExtend(earlier, c, n);
    SequelsCounted(earlier, c, n);
    assert WellDotted(later);
    OrderedSorts(earlier);
    var first := Ordered(earlier)[0];
    assert first in multiset(Ordered(earlier));
    OrderedExtends(earlier, added, later);
    hide Ordered, ModeOf, PerBook, Label, Indexes;
    IndexAt(earlier, false, 0);
    IndexAt(later, false, 0);
    var all := CsOf(later);
    LabelOfPrefix(ModeOf(all, false), PerBook(all, false), CsOf(earlier), all, 0);
    assert !SameLabels(earlier, later, false);
  }

  /**
   * Labels never depend on later releases exactly when the series is indexed by release: any other
   * series that has a release can be relabelled by ones that sort later.
   */
  lemma OnlyReleaseOrderIsSafe(earlier: seq<Release>, byRelease: bool)
    requires DistinctIds(earlier) && WellDotted(earlier)
    ensures NeverRelabelled(earlier, byRelease) <==> byRelease || earlier == []
  {
    if byRelease {
      forall added, later | Extends(earlier, added, later)
        ensures SameLabels(earlier, later, true)
      {
        LaterReleasesKeepLabels(earlier, added, later, true);
      }
    } else if earlier != [] {
      var cs := CsOf(earlier);
      OrderedSorts(earlier);
      assert |cs| == |multiset(Ordered(earlier))| == |earlier|;
      assert Ordered(earlier)[0] in multiset(Ordered(earlier));
      FirstLabels(cs);
      PlainMeansOrdinal(cs);
      ShorthandMeansPerBook(cs);
      hide Ordered, Label, NeverRelabelled, ModeOf;
      if Label(ModeOf(cs, false), PerBook(cs, false), cs, 0) == "1" {
        FirstChanges(earlier, SHORTHAND, |cs| + 1);
      } else {
        FirstChanges(earlier, PLAIN, |cs| + 1);
      }
    }
  }

  const STORY := Release("a", 1, PLAIN)
  const FIFTH := Release("b", 2, Coordinates(0, 5, 0, "", ""))

  lemma StoryAlone()
    ensures Indexes([STORY], false) == map["a" := "1"]
  {
    assert [STORY][..0] == [] && [STORY][..1] == [STORY];
    assert Ordered([STORY]) == [STORY];
    var one := CoordinatesOf([STORY]);
    assert one == [PLAIN] && one[..0] == [] && one[..1] == one;
    assert Chapters(one) == 0 && Parts(one) == 0;
    assert Decimal(1) == "1";
    hide Decimal;
    assert After(OrdinalMode, false, one).last == "1";
    assert Labelled([STORY], OrdinalMode, false, 0) == map[];
    assert Labelled([STORY], OrdinalMode, false, 1) == map[]["a" := "1"];
  }

  lemma StoryAndChapter()
    ensures Ordered([STORY, FIFTH]) == [STORY, FIFTH]
    ensures var cs := CoordinatesOf([STORY, FIFTH]);
            ModeOf(cs, false) == ChapterMode && !PerBook(cs, false)
  {
    assert [STORY][..0] == [] && [STORY, FIFTH][..1] == [STORY] && [STORY][1..] == [];
    assert !Before(FIFTH, STORY);
    assert Inserted(Before, [], FIFTH) == [FIFTH];
    assert Inserted(Before, [STORY], FIFTH) == [STORY] + [FIFTH];
    assert Ordered([STORY]) == [STORY];
    var two := CoordinatesOf([STORY, FIFTH]);
    assert two == [PLAIN, FIFTH.coordinates] && two[..1] == [PLAIN] && [PLAIN][..0] == [];
    assert Chapters([PLAIN]) == 0 && Chapters(two) == 1;
    assert Highest(two, 0) == 0 && LatestBook(two, 0) == 0 && Highest(two, 1) == 0 && LatestBook(two, 1) == 0;
    assert !RestartsAt(two, 0) && !RestartsAt(two, 1);
  }

  /** One unnumbered release is "1"; once a numbered chapter follows, it becomes "0". */
  lemma ChapterRelabelsStory()
    ensures Extends([STORY], [FIFTH], [STORY, FIFTH])
    ensures Indexes([STORY], false) == map["a" := "1"]
    ensures Indexes([STORY, FIFTH], false) == map["a" := "0", "b" := "5"]
  {
    StoryAlone();
    StoryAndChapter();
    hide Ordered, ModeOf, PerBook;
    var two := CoordinatesOf([STORY, FIFTH]);
    assert two[..0] == [] && two[..1] == [PLAIN] && two[..2] == two && [PLAIN][..0] == [];
    assert Decimal(5) == "5";
    hide Decimal;
    assert After(ChapterMode, false, [PLAIN]).last == "0";
    assert After(ChapterMode, false, two).last == "5";
    assert Labelled([STORY, FIFTH], ChapterMode, false, 1) == map[]["a" := "0"];
  }

  /* ---- What the reader accepts ---- */

  predicate Digits(s: string) {
    s != "" && forall i :: 0 <= i < |s| ==> '0' <= s[i] <= '9'
  }

  /** The reader takes digits, or digits, a dot and digits. */
  predicate Acceptable(s: string) {
    Digits(s) || exists k :: 0 <= k < |s| && s[k] == '.' && Digits(s[..k]) && Digits(s[k + 1..])
  }

  predicate WellRead(c: Coordinates) {
    && c.book >= 0
    && (c.half != "" ==> Acceptable(c.half))
    && (c.dotted != "" ==> Acceptable(c.dotted))
  }

  lemma {:induction false} DecimalIsDigits(n: nat)
    ensures Digits(Decimal(n))
  {
    if n < 10 {
    } else {
      DecimalIsDigits(n / 10);
    }
  }

  lemma PairIsAcceptable(a: nat, b: string)
    requires Digits(b)
    ensures Acceptable(Decimal(a) + "." + b)
  {
    DecimalIsDigits(a);
    hide Decimal, Digits;
    var p := Decimal(a);
    var s := p + "." + b;
    assert s[|p|] == '.' && s[..|p|] == p && s[|p| + 1..] == b;
  }

  lemma ZeroIsDigits()
    ensures Digits("0")
  {
  }

  lemma OwnIsAcceptable(mode: Mode, perBook: bool, index: nat, c: Coordinates, s: State)
    requires WellRead(c) && s.book >= 0
    ensures var own := Own(mode, perBook, index, c, s);
            own.book >= 0 && (own.last == "" || Acceptable(own.last))
  {
    ZeroIsDigits();
    DecimalIsDigits(index + 1);
    if c.part > 0 {
      DecimalIsDigits(c.part);
    }
    if c.chapter > 0 {
      DecimalIsDigits(c.chapter);
      PairIsAcceptable(c.book, Decimal(c.chapter));
      PairIsAcceptable(s.book, Decimal(c.chapter));
    }
    PairIsAcceptable(c.book, "0");
    PairIsAcceptable(s.book, "0");
    assert forall p: string :: p + "." + "0" == p + ".0";
    hide Decimal, Digits;
  }

  lemma NextIsAcceptable(mode: Mode, perBook: bool, index: nat, c: Coordinates, s: State)
    requires WellRead(c) && s.book >= 0 && (s.last == "" || Acceptable(s.last))
    ensures var next := Next(mode, perBook, index, c, s);
            next.book >= 0 && Acceptable(next.last)
  {
    OwnIsAcceptable(mode, perBook, index, c, s);
    ZeroIsDigits();
    hide Own, Digits, WellRead;
  }

  lemma {:induction false} AfterIsAcceptable(mode: Mode, perBook: bool, cs: seq<Coordinates>)
    requires forall c :: c in cs ==> WellRead(c)
    ensures var s := After(mode, perBook, cs);
            s.book >= 0 && if cs == [] then s.last == "" else Acceptable(s.last)
  {
    if cs == [] {
    } else {
      var front, last := cs[..|cs| - 1], cs[|cs| - 1];
      AfterIsAcceptable(mode, perBook, front);
      NextIsAcceptable(mode, perBook, |cs| - 1, last, After(mode, perBook, front));
      hide Next, Acceptable, WellRead;
    }
  }

  lemma {:induction false} LabelledValues(ordered: seq<Release>, mode: Mode, perBook: bool, n: nat, id: string)
    requires n <= |ordered| && id in Labelled(ordered, mode, perBook, n)
    ensures exists i: nat :: i < n && Labelled(ordered, mode, perBook, n)[id] == Label(mode, perBook, CoordinatesOf(ordered), i)
  {
    hide Label;
    if ordered[n - 1].id == id {
    } else {
      LabelledValues(ordered, mode, perBook, n - 1, id);
    }
  }

  /** Whatever the series, every label is one the reader accepts. */
  lemma IndexesAreAcceptable(releases: seq<Release>, byRelease: bool, id: string)
    requires forall r :: r in releases ==> WellRead(r.coordinates)
    requires id in Indexes(releases, byRelease)
    ensures Acceptable(Indexes(releases, byRelease)[id])
  {
    var ordered := Ordered(releases);
    var cs := CoordinatesOf(ordered);
    OrderedSorts(releases);
    SameReleases(releases, ordered);
    hide Ordered, ModeOf, PerBook, WellRead, Acceptable, After;
    LabelledValues(ordered, ModeOf(cs, byRelease), PerBook(cs, byRelease), |ordered|, id);
    var i: nat :| i < |ordered| &&
      Indexes(releases, byRelease)[id] == Label(ModeOf(cs, byRelease), PerBook(cs, byRelease), cs, i);
    forall c | c in cs[..i + 1]
      ensures WellRead(c)
    {
      var k :| 0 <= k <= i && cs[k] == c;
      assert ordered[k] in ordered;
    }
    AfterIsAcceptable(ModeOf(cs, byRelease), PerBook(cs, byRelease), cs[..i + 1]);
  }
}
