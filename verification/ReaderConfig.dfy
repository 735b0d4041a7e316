/**
 * Validation of a series' declared layout, and its agreement with the resolution of positions: the
 * validator reads each book's range off its declaration, the resolver carries a running position.
 */
module ReaderConfig {
  import opened Common
  import opened Sequence

  datatype Output = Output(chaptersPerVolume: int, finalChapter: int, gaps: seq<Gap>)

  datatype Style = Style(bundling: string, format: string, seriesIndex: string)

  /** One input of the series, explicit or made of a book's label. */
  datatype Feed = Feed(bookId: string, anthology: bool)

  datatype SequenceOverride = SequenceOverride(source: string, release: string, bookId: string, chapter: int, keepSingle: bool)
  {
    /** The text the validator compares to find a release overridden twice. */
    function Key(): string {
      source + "/" + release
    }

    /** It places the release as a chapter. */
    predicate Places() {
      chapter > 0 && !keepSingle
    }

    /** The text the validator compares to find a chapter placed twice. */
    function Slot(): string {
      bookId + "/" + Decimal(chapter)
    }
  }

  /** A series as declared: where its labels are looked up, its inputs and its overrides. */
  datatype Declared = Declared(series: Series, output: Output, style: Style, source: string, feeds: seq<Feed>,
                               overrides: seq<SequenceOverride>)

  /* ---- What is accepted ---- */

  /** Where book `i` starts and ends in the series, as declared; an open-ended book ends where it starts. */
  function Starts(books: seq<Book>, i: nat): int
    requires i < |books|
    decreases i, 1
  {
    var b := books[i];
    if b.start != 0 then b.start else if b.First() > 1 then b.First() else PreviousEnd(books, i) + 1
  }

  function Ends(books: seq<Book>, i: nat): int
    requires i < |books|
    decreases i, 2
  {
    if books[i].last > 0 then Starts(books, i) + books[i].last - books[i].First() else Starts(books, i)
  }

  function PreviousEnd(books: seq<Book>, i: nat): int
    requires i <= |books|
    decreases i, 0
  {
    if i == 0 then 0 else Ends(books, i - 1)
  }

  predicate SoundRange(b: Book) {
    b.First() >= 1 && b.last >= 0 && (b.last > 0 ==> b.last >= b.First())
  }

  /** Every gap is reasoned, in range and listed once. */
  ghost predicate SoundGaps(gaps: seq<Gap>, first: int, last: int) {
    && (forall i :: 0 <= i < |gaps| ==> first <= gaps[i].chapter && (last > 0 ==> gaps[i].chapter <= last) && !Blank(gaps[i].reason))
    && (forall i, j :: 0 <= i < j < |gaps| ==> gaps[i].chapter != gaps[j].chapter)
  }

  ghost predicate AcceptedBook(books: seq<Book>, i: nat)
    requires i < |books|
  {
    var b := books[i];
    && !Blank(b.id) && b.number >= 1 && SoundRange(b) && b.start >= 0
    && PreviousEnd(books, i) < Starts(books, i)
    && SoundGaps(b.gaps, b.First(), b.last)
  }

  /** The books, in number order, as the validator accepts them. */
  ghost predicate AcceptedBooks(books: seq<Book>) {
    && (forall i :: 0 <= i < |books| ==> AcceptedBook(books, i))
    && (forall i, j :: 0 <= i < j < |books| ==> books[i].id != books[j].id && books[i].number != books[j].number)
  }

  ghost predicate Accepted(series: Series, output: Output) {
    && output.chaptersPerVolume >= 1 && output.finalChapter >= 0
    && SoundGaps(output.gaps, 1, output.finalChapter)
    && AcceptedBooks(ByNumber(series.books))
  }

  /* What else is accepted of a declaration, its defaults filled in. */

  function Defaulted(d: Declared): Declared {
    d.(output := d.output.(chaptersPerVolume := if d.output.chaptersPerVolume == 0 then 50 else d.output.chaptersPerVolume),
       style := d.style.(bundling := if d.style.bundling == "" then "none" else d.style.bundling,
                         format := if Trim(d.style.format) == "" then "preserve" else d.style.format))
  }

  predicate AcceptedStyle(style: Style) {
    && style.bundling in {"none", "volume"} && (style.bundling == "volume" ==> style.format == "epub")
    && style.seriesIndex in {"", "author", "release"}
  }

  predicate DeclaresBook(books: seq<Book>, id: string) {
    id == "" || exists b :: b in books && b.id == id
  }

  predicate AcceptedFeed(books: seq<Book>, feed: Feed) {
    DeclaresBook(books, feed.bookId) && !feed.anthology
  }

  ghost predicate AcceptedOverride(books: seq<Book>, sources: set<string>, o: SequenceOverride) {
    && o.source in sources && !Blank(o.release) && DeclaresBook(books, o.bookId) && o.chapter >= 0
    && (o.chapter > 0 || o.bookId != "" || o.keepSingle)
  }

  /** Each release is overridden once, and each chapter of a book is placed once. */
  ghost predicate AcceptedOverrides(books: seq<Book>, sources: set<string>, overrides: seq<SequenceOverride>) {
    && (forall i :: 0 <= i < |overrides| ==> AcceptedOverride(books, sources, overrides[i]))
    && (forall i, j :: 0 <= i < j < |overrides| ==> overrides[i].Key() != overrides[j].Key())
    && (forall i, j :: 0 <= i < j < |overrides| && overrides[i].Places() && overrides[j].Places() ==>
          overrides[i].Slot() != overrides[j].Slot())
  }

  ghost predicate LabelsHaveSource(books: seq<Book>, source: string) {
    forall i :: 0 <= i < |books| && books[i].labelled ==> source != ""
  }

  /** What the validator accepts of a whole declaration. */
  ghost predicate AcceptedDeclaration(d: Declared, sources: set<string>) {
    && AcceptedStyle(d.style) && Accepted(d.series, d.output)
    && LabelsHaveSource(ByNumber(d.series.books), d.source)
    && (forall i :: 0 <= i < |d.feeds| ==> AcceptedFeed(d.series.books, d.feeds[i]))
    && AcceptedOverrides(d.series.books, sources, d.overrides)
  }

  /* ---- The validator ---- */

  method IsBlank(s: string) returns (blank: bool)
    ensures blank <==> Blank(s)
  {
    for i := 0 to |s|
      invariant forall j :: 0 <= j < i ==> Space(s[j])
    {
      if !Space(s[i]) {
        return false;
      }
    }
    blank := true;
  }

  method ValidateGaps(gaps: seq<Gap>, first: int, last: int) returns (ok: bool)
    ensures ok <==> SoundGaps(gaps, first, last)
  {
    var seen: set<int> := {};
    for i := 0 to |gaps|
      invariant SoundGaps(gaps[..i], first, last)
      invariant forall n :: n in seen <==> exists j :: 0 <= j < i && gaps[j].chapter == n
    {
      var gap := gaps[i];
      assert gaps[..i + 1] == gaps[..i] + [gap];
      if gap.chapter < first || (last > 0 && gap.chapter > last) || gap.chapter in seen {
        return false;
      }
      var blank := IsBlank(gap.reason);
      if blank {
        return false;
      }
      seen := seen + {gap.chapter};
    }
    assert gaps[..|gaps|] == gaps;
    ok := true;
  }

  method ValidateBook(books: seq<Book>, i: nat, previousEnd: int) returns (ok: bool, end: int)
    requires i < |books| && previousEnd == PreviousEnd(books, i)
    ensures ok <==> AcceptedBook(books, i)
    ensures ok ==> end == Ends(books, i)
  {
    hide SoundGaps, Blank;
    var book := books[i];
    end := previousEnd;
    var blank := IsBlank(book.id);
    if blank || book.number < 1 {
      return false, end;
    }
    var first := if book.firstChapter == 0 then 1 else book.firstChapter;
    if first < 1 || book.last < 0 || (book.last > 0 && book.last < first) || book.start < 0 {
      return false, end;
    }
    var start := book.start;
    if start == 0 {
      start := previousEnd + 1;
      if first > 1 {
        start := first;
      }
    }
    if start <= previousEnd {
      return false, end;
    }
    end := start;
    if book.last > 0 {
      end := start + book.last - first;
    }
    ok := ValidateGaps(book.gaps, first, book.last);
  }

  method ValidateBooks(series: Series, output: Output, source: string) returns (ok: bool)
    ensures ok <==> Accepted(series, output) && LabelsHaveSource(ByNumber(series.books), source)
  {
    if output.chaptersPerVolume < 1 || output.finalChapter < 0 {
      return false;
    }
    var sound := ValidateGaps(output.gaps, 1, output.finalChapter);
    if !sound {
      return false;
    }
    var books := SortBooks(series.books);
    hide SoundGaps, AcceptedBook, ByNumber, Ends;
    var ids: set<string>, numbers: set<int> := {}, {};
    var previousEnd := 0;
    for i := 0 to |books|
      invariant previousEnd == PreviousEnd(books, i)
      invariant forall j :: 0 <= j < i ==> AcceptedBook(books, j)
      invariant forall j :: 0 <= j < i && books[j].labelled ==> source != ""
      invariant forall j, k :: 0 <= j < k < i ==> books[j].id != books[k].id && books[j].number != books[k].number
      invariant forall s :: s in ids <==> exists j :: 0 <= j < i && books[j].id == s
      invariant forall n :: n in numbers <==> exists j :: 0 <= j < i && books[j].number == n
    {
      if books[i].labelled && source == "" {
        return false;
      }
      if books[i].id in ids || books[i].number in numbers {
        return false;
      }
      ids, numbers := ids + {books[i].id}, numbers + {books[i].number};
      ok, previousEnd := ValidateBook(books, i, previousEnd);
      if !ok {
        return false;
      }
    }
    ok := true;
  }

  method ValidateFeeds(books: seq<Book>, feeds: seq<Feed>) returns (ok: bool)
    ensures ok <==> forall i :: 0 <= i < |feeds| ==> AcceptedFeed(books, feeds[i])
  {
    var ids := set b | b in books :: b.id;
    for i := 0 to |feeds|
      invariant forall j :: 0 <= j < i ==> AcceptedFeed(books, feeds[j])
    {
      if feeds[i].bookId != "" && feeds[i].bookId !in ids {
        return false;
      }
      if feeds[i].anthology {
        return false;
      }
    }
    ok := true;
  }

  method ValidateOverride(ids: set<string>, books: seq<Book>, sources: set<string>, o: SequenceOverride) returns (ok: bool)
    requires ids == set b | b in books :: b.id
    ensures ok <==> AcceptedOverride(books, sources, o)
  {
    if o.source !in sources {
      return false;
    }
    var blank := IsBlank(o.release);
    ok := !blank && (o.bookId == "" || o.bookId in ids) && o.chapter >= 0 && !(o.chapter == 0 && o.bookId == "" && !o.keepSingle);
  }

  method ValidateOverrides(books: seq<Book>, sources: set<string>, all: seq<SequenceOverride>) returns (ok: bool)
    ensures ok <==> AcceptedOverrides(books, sources, all)
  {
    var ids := set b | b in books :: b.id;
    var keys: set<string>, slots: set<string> := {}, {};
    hide AcceptedOverride, SequenceOverride.Key, SequenceOverride.Slot, SequenceOverride.Places;
    for i := 0 to |all|
      invariant AcceptedOverrides(books, sources, all[..i])
      invariant forall k :: k in keys <==> exists j :: 0 <= j < i && all[j].Key() == k
      invariant forall t :: t in slots <==> exists j :: 0 <= j < i && all[j].Places() && all[j].Slot() == t
    {
      var o := all[i];
      var sound := ValidateOverride(ids, books, sources, o);
      if !sound || o.Key() in keys || (o.Places() && o.Slot() in slots) {
        return false;
      }
      keys := keys + {o.Key()};
      if o.Places() {
        slots := slots + {o.Slot()};
      }
      assert all[..i + 1] == all[..i] + [o];
    }
    assert all[..|all|] == all;
    ok := true;
  }

  method Validate(declared: Declared, sources: set<string>) returns (ok: bool)
    ensures ok <==> AcceptedDeclaration(Defaulted(declared), sources)
  {
    var d := Defaulted(declared);
    if (d.style.bundling != "none" && d.style.bundling != "volume") || (d.style.bundling == "volume" && d.style.format != "epub")
      || (d.style.seriesIndex != "" && d.style.seriesIndex != "author" && d.style.seriesIndex != "release") {
      return false;
    }
    hide Accepted, Defaulted, LabelsHaveSource, AcceptedFeed, AcceptedOverrides;
    ok := ValidateBooks(d.series, d.output, d.source);
    if ok {
      ok := ValidateFeeds(d.series.books, d.feeds);
    }
    if ok {
      ok := ValidateOverrides(d.series.books, sources, d.overrides);
    }
  }

  /** Exactly the overrides of one chapter of one book share a slot. */
  lemma SlotsAreChapters(a: SequenceOverride, b: SequenceOverride)
    requires a.chapter >= 0 && b.chapter >= 0
    ensures a.Slot() == b.Slot() <==> a.bookId == b.bookId && a.chapter == b.chapter
  {
    NoSlash(a.chapter);
    NoSlash(b.chapter);
    if a.Slot() == b.Slot() {
      LastSlash(a.bookId, Decimal(a.chapter), b.bookId, Decimal(b.chapter));
      DecimalInjective(a.chapter, b.chapter);
    }
  }

  lemma {:induction false} NoSlash(n: nat)
    ensures '/' !in Decimal(n)
  {
    if n < 10 {
    } else {
      NoSlash(n / 10);
    }
  }

  lemma SlashesBefore(a: string, x: string)
    requires '/' !in x
    ensures var s := a + "/" + x;
            s[|a|] == '/' && forall k :: 0 <= k < |s| && s[k] == '/' ==> k <= |a|
  {
    var s := a + "/" + x;
    assert forall k :: |a| < k < |s| ==> s[k] == x[k - |a| - 1];
  }

  /** A text splits in one way at its last slash. */
  lemma LastSlash(a: string, x: string, b: string, y: string)
    requires '/' !in x && '/' !in y && a + "/" + x == b + "/" + y
    ensures a == b && x == y
  {
    var s, t := a + "/" + x, b + "/" + y;
    SlashesBefore(a, x);
    SlashesBefore(b, y);
    assert s[..|a|] == a && t[..|b|] == b && s[|a| + 1..] == x && t[|b| + 1..] == y;
  }

  /* ---- Accepted layouts ---- */

  /** Accepted books occupy disjoint, increasing ranges of series positions. */
  lemma {:induction false} RangesIncrease(books: seq<Book>, i: nat, j: nat)
    requires AcceptedBooks(books) && i < j < |books|
    ensures 0 < Starts(books, i) <= Ends(books, i) < Starts(books, j) <= Ends(books, j)
  {
    hide SoundGaps, Blank;
    assert AcceptedBook(books, i) && AcceptedBook(books, j) && AcceptedBook(books, j - 1);
    StartsPositive(books, i);
    if i == j - 1 {
    } else {
      RangesIncrease(books, i, j - 1);
    }
  }

  lemma {:induction false} StartsPositive(books: seq<Book>, i: nat)
    requires AcceptedBooks(books) && i < |books|
    ensures 0 < Starts(books, i) <= Ends(books, i)
  {
    hide SoundGaps, Blank;
    assert AcceptedBook(books, i);
    if i == 0 {
    } else {
      StartsPositive(books, i - 1);
    }
  }

  ghost predicate HasText(s: string) {
    exists k :: 0 <= k < |s| && !Space(s[k])
  }

  /** A book that is fine by itself: named, numbered, not empty, its gaps reasoned, different and inside it. */
  ghost predicate FineAlone(b: Book) {
    && HasText(b.id) && b.number >= 1 && b.firstChapter >= 0 && b.start >= 0
    && (b.last == 0 || b.last >= b.First())
    && (forall gap :: gap in b.gaps ==>
          b.First() <= gap.chapter && (b.last == 0 || gap.chapter <= b.last) && HasText(gap.reason))
    && forall i, j :: 0 <= i < j < |b.gaps| ==> b.gaps[i].chapter != b.gaps[j].chapter
  }

  ghost predicate FineBooks(books: seq<Book>) {
    && (forall i :: 0 <= i < |books| ==> FineAlone(books[i]))
    && (forall i, j :: 0 <= i < j < |books| ==> books[i].id != books[j].id && books[i].number != books[j].number)
    && (forall i, j :: 0 <= i < j < |books| && DeclaredStart(books[j]) > 0 ==> Ends(books, i) < DeclaredStart(books[j]))
  }

  /** A layout is refused for a book by itself, a repeated id or number, or a book declared to start within an earlier one. */
  lemma RefusedExactly(books: seq<Book>)
    ensures AcceptedBooks(books) <==> FineBooks(books)
  {
    hide AcceptedBook, FineAlone, Ends, DeclaredStart;
    forall i | 0 <= i < |books|
      ensures AcceptedBook(books, i) <==> FineAlone(books[i]) && (DeclaredStart(books[i]) > 0 ==> PreviousEnd(books, i) < DeclaredStart(books[i]))
      ensures PreviousEnd(books, i) == if i == 0 then 0 else Ends(books, i - 1)
    {
      AcceptedAlone(books, i);
    }
    if AcceptedBooks(books) {
      forall i, j | 0 <= i < j < |books| && DeclaredStart(books[j]) > 0
        ensures Ends(books, i) < DeclaredStart(books[j])
      {
        AcceptedAlone(books, j);
        RangesIncrease(books, i, j);
      }
    }
    if FineBooks(books) {
      FineAreAccepted(books);
    }
  }

  lemma FineAreAccepted(books: seq<Book>)
    requires FineBooks(books)
    ensures AcceptedBooks(books)
  {
    hide AcceptedBook, FineAlone, Ends, DeclaredStart;
    forall i | 0 <= i < |books|
      ensures AcceptedBook(books, i)
    {
      AcceptedAlone(books, i);
      if i > 0 {
        assert DeclaredStart(books[i]) > 0 ==> Ends(books, i - 1) < DeclaredStart(books[i]);
      }
    }
  }

  lemma AcceptedAlone(books: seq<Book>, i: nat)
    requires i < |books|
    ensures AcceptedBook(books, i) <==>
              FineAlone(books[i]) && (DeclaredStart(books[i]) > 0 ==> PreviousEnd(books, i) < DeclaredStart(books[i]))
    ensures FineAlone(books[i]) && DeclaredStart(books[i]) > 0 ==> Starts(books, i) == DeclaredStart(books[i])
    ensures PreviousEnd(books, i) == if i == 0 then 0 else Ends(books, i - 1)
  {
    if books[i].last >= 0 {
      SoundGapsAre(books[i]);
    }
    hide SoundGaps;
  }

  lemma SoundGapsAre(b: Book)
    requires b.last >= 0
    ensures SoundGaps(b.gaps, b.First(), b.last) <==>
              && (forall gap :: gap in b.gaps ==>
                    b.First() <= gap.chapter && (b.last == 0 || gap.chapter <= b.last) && HasText(gap.reason))
              && forall i, j :: 0 <= i < j < |b.gaps| ==> b.gaps[i].chapter != b.gaps[j].chapter
  {
  }

  /**
   * The resolver knows where a book starts when the book says so, or when it directly follows a
   * bounded book whose start is known (or is book 1).
   */
  predicate Anchored(books: seq<Book>, i: nat)
    requires i < |books|
  {
    || books[i].start > 0
    || books[i].First() > 1
    || (!Skips(books, i) && (i > 0 ==> books[i - 1].last > 0 && Anchored(books, i - 1)))
  }

  /** Where the resolver knows a start, it is the validator's. */
  lemma {:induction false} ResolverAgrees(books: seq<Book>, i: nat)
    requires AcceptedBooks(books) && i < |books|
    ensures Base(books, i) == if Anchored(books, i) then Starts(books, i) else 0
  {
    hide SoundGaps, Blank;
    assert AcceptedBook(books, i);
    if i == 0 {
    } else {
      assert AcceptedBook(books, i - 1);
      StartsPositive(books, i - 1);
      ResolverAgrees(books, i - 1);
    }
  }

  /** A chapter within a bounded book ends before any later book begins. */
  lemma BoundedNeverReaches(books: seq<Book>, i: nat, position: int)
    requires AcceptedBooks(books) && i < |books| && books[i].last > 0
    requires position <= Ends(books, i)
    ensures FirstReached(books, i + 1, position) == |books|
  {
    forall j | i < j < |books|
      ensures !Reaches(books[j], position)
    {
      RangesIncrease(books, i, j);
      assert AcceptedBook(books, j);
    }
    hide Reaches;
    assert FirstReached(books, i + 1, position) == |books|;
  }

  /** What the resolver makes of an integral chapter in the range of a bounded, accepted book. */
  lemma InRangePosition(series: Series, output: Output, p: Placement, bookId: string)
    requires Accepted(series, output) && (p.book != 0 || bookId != "") && !p.Extended()
    requires var books := ByNumber(series.books);
             var i := FindBook(books, 0, p, bookId);
             i < |books| && books[i].last > 0 && InRange(books[i], p.chapter)
    ensures var books := ByNumber(series.books);
            var i := FindBook(books, 0, p, bookId);
            var r := Resolved(series, p, bookId);
            && r.keepSingle == p.keepSingle
            && r.position == (if Anchored(books, i) then Starts(books, i) + p.chapter - books[i].First() else 0)
            && (r.position > 0 <==> Anchored(books, i))
  {
    var books := ByNumber(series.books);
    var i := FindBook(books, 0, p, bookId);
    hide ByNumber, SoundGaps, Blank, AcceptedBook;
    StartsPositive(books, i);
    ResolverAgrees(books, i);
    BoundedNeverReaches(books, i, if Anchored(books, i) then Starts(books, i) + p.chapter - books[i].First() else 0);
  }

  ghost predicate BoundedFromOne(books: seq<Book>) {
    forall i :: 0 <= i < |books| ==> books[i].last > 0 && books[i].number == i + 1
  }

  /** With bounded books numbered from 1, every integral chapter in range gets its declared position. */
  lemma EveryChapterPlaced(series: Series, output: Output, p: Placement, bookId: string)
    requires Accepted(series, output) && BoundedFromOne(ByNumber(series.books))
    requires (p.book != 0 || bookId != "") && !p.Extended()
    requires var books := ByNumber(series.books);
             var i := FindBook(books, 0, p, bookId);
             i < |books| && InRange(books[i], p.chapter)
    ensures Resolved(series, p, bookId).position > 0
  {
    var books := ByNumber(series.books);
    var i := FindBook(books, 0, p, bookId);
    AllAnchored(books, i);
    hide Resolved, Accepted;
    InRangePosition(series, output, p, bookId);
  }

  lemma {:induction false} AllAnchored(books: seq<Book>, i: nat)
    requires BoundedFromOne(books) && i < |books|
    ensures Anchored(books, i)
  {
    if i == 0 {
    } else {
      AllAnchored(books, i - 1);
    }
  }

  /** In an accepted series only an open-ended book can overlap a later one. */
  lemma OverlapNeedsOpenEnd(series: Series, output: Output, p: Placement, bookId: string)
    requires Accepted(series, output) && !p.reason.Overlaps? && Resolved(series, p, bookId).reason.Overlaps?
    ensures var books := ByNumber(series.books);
            var i := FindBook(books, 0, p, bookId);
            i < |books| && books[i].last == 0 && InRange(books[i], p.chapter)
  {
    var books := ByNumber(series.books);
    var i := FindBook(books, 0, p, bookId);
    hide ByNumber, SoundGaps, Blank, Base, Anchored, Starts;
    if i < |books| {
      assert AcceptedBook(books, i);
      StartsPositive(books, i);
      ResolverAgrees(books, i);
      if books[i].last > 0 {
        BoundedNeverReaches(books, i, if Base(books, i) > 0 && !p.Extended() then Base(books, i) + p.chapter - books[i].First() else 0);
      }
    }
  }

  /* ---- A whole declaration, field by field ---- */

  /** Bundling needs EPUB; leaving bundling out means none. */
  predicate FineStyle(style: Style) {
    && (style.bundling == "" || style.bundling == "none" || (style.bundling == "volume" && style.format == "epub"))
    && (style.seriesIndex == "" || style.seriesIndex == "author" || style.seriesIndex == "release")
  }

  /** Leaving the volume size out is fine; the gaps of a series without books are reasoned, different and in its range. */
  ghost predicate FineOutput(output: Output) {
    && output.chaptersPerVolume >= 0 && output.finalChapter >= 0
    && (forall gap :: gap in output.gaps ==>
          1 <= gap.chapter && (output.finalChapter == 0 || gap.chapter <= output.finalChapter) && HasText(gap.reason))
    && forall i, j :: 0 <= i < j < |output.gaps| ==> output.gaps[i].chapter != output.gaps[j].chapter
  }

  /** An override is of a known source, names a release, and says something: a declared book, a chapter, or to keep it single. */
  ghost predicate FineOverride(books: seq<Book>, sources: set<string>, o: SequenceOverride) {
    && o.source in sources && HasText(o.release) && o.chapter >= 0 && (o.bookId != "" || o.chapter > 0 || o.keepSingle)
    && (o.bookId != "" ==> exists b :: b in books && b.id == o.bookId)
  }

  ghost predicate FineOverrides(books: seq<Book>, sources: set<string>, all: seq<SequenceOverride>) {
    && (forall o :: o in all ==> FineOverride(books, sources, o))
    && forall i, j :: 0 <= i < j < |all| ==>
         && all[i].source + "/" + all[i].release != all[j].source + "/" + all[j].release
         && (all[i].chapter > 0 && !all[i].keepSingle && all[j].chapter > 0 && !all[j].keepSingle ==>
               all[i].bookId != all[j].bookId || all[i].chapter != all[j].chapter)
  }

  lemma OutputExactly(output: Output)
    ensures FineOutput(output) <==>
              output.chaptersPerVolume >= 0 && output.finalChapter >= 0 && SoundGaps(output.gaps, 1, output.finalChapter)
  {
  }

  lemma OverrideExactly(books: seq<Book>, sources: set<string>, o: SequenceOverride)
    ensures FineOverride(books, sources, o) <==> AcceptedOverride(books, sources, o)
  {
  }

  lemma OverridesExactly(books: seq<Book>, sources: set<string>, all: seq<SequenceOverride>)
    ensures FineOverrides(books, sources, all) <==> AcceptedOverrides(books, sources, all)
  {
    forall o
      ensures FineOverride(books, sources, o) <==> AcceptedOverride(books, sources, o)
    {
      OverrideExactly(books, sources, o);
    }
    assert (forall o :: o in all ==> AcceptedOverride(books, sources, o)) <==>
           forall i :: 0 <= i < |all| ==> AcceptedOverride(books, sources, all[i]);
    if forall i :: 0 <= i < |all| ==> AcceptedOverride(books, sources, all[i]) {
      forall i, j | 0 <= i < j < |all|
        ensures all[i].Slot() == all[j].Slot() <==> all[i].bookId == all[j].bookId && all[i].chapter == all[j].chapter
      {
        assert AcceptedOverride(books, sources, all[i]) && AcceptedOverride(books, sources, all[j]);
        SlotsAreChapters(all[i], all[j]);
      }
    }
    hide FineOverride, AcceptedOverride, SequenceOverride.Slot;
  }

  /** Exactly the declarations that are accepted. */
  lemma AcceptedExactly(d: Declared, sources: set<string>)
    ensures AcceptedDeclaration(Defaulted(d), sources) <==>
              && FineStyle(d.style) && FineOutput(d.output) && FineBooks(ByNumber(d.series.books))
              && ((exists b :: b in d.series.books && b.labelled) ==> d.source != "")
              && (forall feed :: feed in d.feeds ==>
                    !feed.anthology && (feed.bookId != "" ==> exists b :: b in d.series.books && b.id == feed.bookId))
              && FineOverrides(d.series.books, sources, d.overrides)
  {
    OutputExactly(d.output);
    RefusedExactly(ByNumber(d.series.books));
    OverridesExactly(d.series.books, sources, d.overrides);
    StyleExactly(d.style);
    LabelsExactly(d.series.books, d.source);
    hide FineOutput, FineBooks, AcceptedBooks, FineOverrides, AcceptedOverrides, SoundGaps, ByNumber, FineStyle, AcceptedStyle, LabelsHaveSource,
         Trim;
  }

  lemma StyleExactly(style: Style)
    ensures FineStyle(style) <==>
              AcceptedStyle(style.(bundling := if style.bundling == "" then "none" else style.bundling,
                                   format := if Trim(style.format) == "" then "preserve" else style.format))
  {
    assert Trim("epub") == "epub";
    assert "epub"[0] != "preserve"[0] && |"none"| != |"volume"| && |""| == 0;
  }

  lemma LabelsExactly(books: seq<Book>, source: string)
    ensures LabelsHaveSource(ByNumber(books), source) <==> ((exists b :: b in books && b.labelled) ==> source != "")
  {
    ByNumberSorts(books);
    hide ByNumber;
    forall b
      ensures b in books <==> b in ByNumber(books)
    {
      assert b in multiset(books) <==> b in multiset(ByNumber(books));
    }
  }
}
