/** What index every release of a series gets, read off the coordinates in publication order. */
module Labels {
  import opened Common
  import opened SeriesIndex

  /* ---- The order and the mode ---- */

  /** Publication order is by date, and by id among releases of one date. */
  lemma OrderedExactly(releases: seq<Release>)
    ensures var s := Ordered(releases);
            && multiset(s) == multiset(releases)
            && forall i, j :: 0 <= i < j < |s| ==>
                 s[i].published < s[j].published || (s[i].published == s[j].published && !Less(s[j].id, s[i].id))
  {
    OrderedSorts(releases);
    hide Ordered, Less;
    var s := Ordered(releases);
    assert forall i, j :: 0 <= i < j < |s| ==> !Before(s[j], s[i]);
  }

  /** The places where something is found. */
  function Places(cs: seq<Coordinates>, test: Coordinates -> bool): set<int> {
    set i | 0 <= i < |cs| && test(cs[i])
  }

  predicate HasNumber(c: Coordinates) {
    c.chapter > 0 || c.dotted != ""
  }

  predicate OnlyPart(c: Coordinates) {
    c.chapter <= 0 && c.dotted == "" && c.part > 0
  }

  function Numbered(cs: seq<Coordinates>): set<int> {
    Places(cs, HasNumber)
  }

  /** The unnumbered releases that are parts. */
  function PartsOnly(cs: seq<Coordinates>): set<int> {
    Places(cs, OnlyPart)
  }

  lemma {:induction false} CountsAre(cs: seq<Coordinates>)
    ensures Chapters(cs) == |Numbered(cs)| && Parts(cs) == |PartsOnly(cs)|
  {
    if cs == [] {
    } else {
      CountsAre(cs[..|cs| - 1]);
      OneMorePlace(cs, HasNumber);
      OneMorePlace(cs, OnlyPart);
      hide Places;
    }
  }

  lemma OneMorePlace(cs: seq<Coordinates>, test: Coordinates -> bool)
    requires cs != []
    ensures |Places(cs, test)| == |Places(cs[..|cs| - 1], test)| + if test(cs[|cs| - 1]) then 1 else 0
  {
    var before, n := Places(cs[..|cs| - 1], test), |cs| - 1;
    assert n !in before;
    if test(cs[n]) {
      assert Places(cs, test) == before + {n};
    } else {
      assert Places(cs, test) == before;
    }
  }

  /** Chapters count when half the releases have one, parts when more have a part and half have either, else releases do. */
  lemma ModeExactly(cs: seq<Coordinates>, byRelease: bool)
    ensures var mode, chapters, parts := ModeOf(cs, byRelease), |Numbered(cs)|, |PartsOnly(cs)|;
            && (mode == ChapterMode <==> !byRelease && 2 * chapters >= |cs|)
            && (mode == PartMode <==> !byRelease && 2 * chapters < |cs| && parts > chapters && 2 * (chapters + parts) >= |cs|)
  {
    CountsAre(cs);
    hide Chapters, Parts, Numbered, PartsOnly;
  }

  /* ---- Numbering that restarts in every book ---- */

  /** A chapter of a later book than every chapter before, with a number an earlier chapter has reached. */
  predicate StartsAgain(cs: seq<Coordinates>, i: nat)
    requires i < |cs|
  {
    && cs[i].chapter > 0 && cs[i].book > 0
    && (forall j :: 0 <= j < i && cs[j].chapter > 0 ==> cs[j].book < cs[i].book)
    && exists j :: 0 <= j < i && cs[j].chapter >= cs[i].chapter
  }

  lemma {:induction false} ReachedIs(cs: seq<Coordinates>, i: nat, c: Coordinates)
    requires i <= |cs| && forall c :: c in cs ==> c.chapter >= 0
    ensures c.chapter > 0 ==> (c.chapter <= Highest(cs, i) <==> exists j :: 0 <= j < i && cs[j].chapter >= c.chapter)
    ensures c.book > LatestBook(cs, i) <==> c.book > 0 && forall j :: 0 <= j < i && cs[j].chapter > 0 ==> cs[j].book < c.book
  {
    if i == 0 {
    } else {
      ReachedIs(cs, i - 1, c);
      assert cs[i - 1] in cs;
    }
  }

  /** Books number their chapters anew when the author writes both numbers, or when some chapter starts again. */
  lemma RestartsExactly(cs: seq<Coordinates>)
    requires forall c :: c in cs ==> c.chapter >= 0
    ensures RestartsPerBook(cs) <==> (exists c :: c in cs && c.dotted != "") || exists i :: 0 <= i < |cs| && StartsAgain(cs, i)
  {
    forall i | 0 <= i < |cs|
      ensures RestartsAt(cs, i) <==> cs[i].dotted != "" || StartsAgain(cs, i)
    {
      ReachedIs(cs, i, cs[i]);
      assert cs[i] in cs;
      hide Highest, LatestBook;
    }
    hide StartsAgain, RestartsAt;
    if c :| c in cs && c.dotted != "" {
      var i :| 0 <= i < |cs| && cs[i] == c;
      assert RestartsAt(cs, i);
    }
  }

  /* ---- One label ---- */

  /** The release says which book it is in. */
  predicate SaysBook(c: Coordinates) {
    c.dotted != "" || c.book > 0
  }

  /** The book of the last release that says one, or book 1. */
  predicate IsCurrent(cs: seq<Coordinates>, n: nat, book: int)
    requires n <= |cs|
  {
    || (exists j :: 0 <= j < n && SaysBook(cs[j]) && cs[j].book == book && forall k :: j < k < n ==> !SaysBook(cs[k]))
    || (book == 1 && forall k :: 0 <= k < n ==> !SaysBook(cs[k]))
  }

  lemma AfterNext(mode: Mode, perBook: bool, cs: seq<Coordinates>, i: nat)
    requires i < |cs|
    ensures After(mode, perBook, cs[..i + 1]) == Next(mode, perBook, i, cs[i], After(mode, perBook, cs[..i]))
  {
    assert cs[..i + 1][..i] == cs[..i];
    hide Next;
  }

  lemma {:induction false} CurrentIs(cs: seq<Coordinates>, n: nat)
    requires n <= |cs|
    ensures IsCurrent(cs, n, After(ChapterMode, true, cs[..n]).book)
  {
    if n == 0 {
    } else {
      CurrentIs(cs, n - 1);
      AfterNext(ChapterMode, true, cs, n - 1);
      NextBook(n - 1, cs[n - 1], After(ChapterMode, true, cs[..n - 1]));
      CurrentNext(cs, n - 1, After(ChapterMode, true, cs[..n - 1]).book);
      hide Next, IsCurrent, SaysBook;
    }
  }

  lemma NextBook(index: nat, c: Coordinates, s: State)
    ensures Next(ChapterMode, true, index, c, s).book == if SaysBook(c) then c.book else s.book
  {
    hide Decimal;
  }

  lemma CurrentNext(cs: seq<Coordinates>, n: nat, book: int)
    requires n < |cs| && IsCurrent(cs, n, book)
    ensures IsCurrent(cs, n + 1, if SaysBook(cs[n]) then cs[n].book else book)
  {
    hide SaysBook;
  }

  lemma OneCurrent(cs: seq<Coordinates>, n: nat, a: int, b: int)
    requires n <= |cs| && IsCurrent(cs, n, a) && IsCurrent(cs, n, b)
    ensures a == b
  {
    hide SaysBook;
  }

  /** What is before: nothing, or the label of the release before. */
  lemma BeforeIs(mode: Mode, perBook: bool, cs: seq<Coordinates>, i: nat)
    requires i <= |cs|
    ensures var last := After(mode, perBook, cs[..i]).last;
            if i == 0 then last == "" else last != "" && last == Label(mode, perBook, cs, i - 1)
  {
    if i > 0 {
      AfterNext(mode, perBook, cs, i - 1);
    }
    hide Own;
  }

  /** The label an unnumbered release takes over. */
  function Previous(mode: Mode, perBook: bool, cs: seq<Coordinates>, i: nat): string
    requires i < |cs|
  {
    if i == 0 then "0" else Label(mode, perBook, cs, i - 1)
  }

  /** Release order numbers the releases from 1. */
  lemma OrdinalLabels(perBook: bool, cs: seq<Coordinates>, i: nat)
    requires i < |cs|
    ensures Label(OrdinalMode, perBook, cs, i) == Decimal(i + 1)
  {
    AfterNext(OrdinalMode, perBook, cs, i);
    DecimalIsDigits(i + 1);
    hide Decimal;
  }

  /** A part has its number, and what is no part repeats the label before it. */
  lemma PartLabels(perBook: bool, cs: seq<Coordinates>, i: nat)
    requires i < |cs|
    ensures Label(PartMode, perBook, cs, i) == if cs[i].part > 0 then Decimal(cs[i].part) else Previous(PartMode, perBook, cs, i)
  {
    AfterNext(PartMode, perBook, cs, i);
    BeforeIs(PartMode, perBook, cs, i);
    if cs[i].part > 0 {
      DecimalIsDigits(cs[i].part);
    }
    hide Decimal;
  }

  /** Numbered through, a half chapter keeps its label, a chapter has its number, and the rest repeat the label before. */
  lemma ChapterLabels(cs: seq<Coordinates>, i: nat)
    requires i < |cs|
    ensures Label(ChapterMode, false, cs, i) == if cs[i].half != "" then cs[i].half
                                                else if cs[i].chapter > 0 then Decimal(cs[i].chapter)
                                                else Previous(ChapterMode, false, cs, i)
  {
    AfterNext(ChapterMode, false, cs, i);
    BeforeIs(ChapterMode, false, cs, i);
    if cs[i].chapter > 0 {
      DecimalIsDigits(cs[i].chapter);
    }
    hide Decimal;
  }

  /**
   * Numbered per book: the author's own label, or book and chapter, where a chapter without a book is in the
   * current one; an unnumbered release that opens another book is its number 0, the first release of all is
   * number 0 of the book it is in, and the rest repeat the label before.
   */
  lemma BookLabels(cs: seq<Coordinates>, i: nat, current: int)
    requires i < |cs| && IsCurrent(cs, i, current)
    ensures var c, text := cs[i], Label(ChapterMode, true, cs, i);
            text == if c.dotted != "" then c.dotted
                     else if c.chapter > 0 then Decimal(if c.book > 0 then c.book else current) + "." + Decimal(c.chapter)
                     else if c.book > 0 && c.book != current then Decimal(c.book) + ".0"
                     else if i == 0 then Decimal(current) + ".0"
                     else Label(ChapterMode, true, cs, i - 1)
  {
    AfterNext(ChapterMode, true, cs, i);
    BeforeIs(ChapterMode, true, cs, i);
    CurrentIs(cs, i);
    OneCurrent(cs, i, current, After(ChapterMode, true, cs[..i]).book);
    hide Decimal, IsCurrent, After;
  }

  /** The index of the release at a place of the publication order, in each of the four numberings. */
  lemma IndexesExactly(releases: seq<Release>, byRelease: bool, i: nat)
    requires DistinctIds(releases) && i < |Ordered(releases)| && forall r :: r in releases ==> r.coordinates.chapter >= 0
    ensures var cs := CoordinatesOf(Ordered(releases));
            var chapters, parts := |Numbered(cs)|, |PartsOnly(cs)|;
            var restarts := (exists c :: c in cs && c.dotted != "") || exists k :: 0 <= k < |cs| && StartsAgain(cs, k);
            && Ordered(releases)[i].id in Indexes(releases, byRelease)
            && Indexes(releases, byRelease)[Ordered(releases)[i].id] ==
                 if byRelease then Label(OrdinalMode, false, cs, i)
                 else if 2 * chapters >= |cs| then Label(ChapterMode, restarts, cs, i)
                 else if parts > chapters && 2 * (chapters + parts) >= |cs| then Label(PartMode, false, cs, i)
                 else Label(OrdinalMode, false, cs, i)
  {
    var cs := CoordinatesOf(Ordered(releases));
    IndexAt(releases, byRelease, i);
    ModeExactly(cs, byRelease);
    OrderedSorts(releases);
    SameReleases(releases, Ordered(releases));
    forall c | c in cs
      ensures c.chapter >= 0
    {
      var k :| 0 <= k < |cs| && cs[k] == c;
      assert Ordered(releases)[k] in releases;
    }
    RestartsExactly(cs);
    hide Ordered, ModeOf, Numbered, PartsOnly, StartsAgain, RestartsPerBook, Label, Indexes;
  }
}
