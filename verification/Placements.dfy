/** Exactly where a release is placed, read off the declared books in any order. */
module Placements {
  import opened Common
  import opened Sequence
  import opened ReaderConfig

  function Shelf(books: seq<Book>): set<Book> {
    set b | b in books
  }

  /** The book a configured id names, or else the one with the detected number. */
  predicate IsTarget(books: set<Book>, p: Placement, bookId: string, b: Book) {
    b in books && if bookId != "" then b.id == bookId else b.number == p.book
  }

  /**
   * Where a book starts in the series, as far as that is declared: where it says, or where it counts on,
   * or at 1 for the first book, or after the last chapter of the book with the number before.
   */
  ghost predicate StartsAt(books: set<Book>, b: Book, s: int)
    decreases if b.number < 0 then 0 else b.number
  {
    if b.start > 0 then s == b.start
    else if b.firstChapter > 1 then s == b.firstChapter
    else if b.number == 1 then s == 1
    else b.number > 1 && exists a, t :: a in books && a.number == b.number - 1 && a.last > 0 && StartsAt(books, a, t)
                                        && s == t + a.last - a.First() + 1
  }

  /** The position is at or after the declared start of a book. */
  predicate ReachedBy(b: Book, position: int) {
    0 < b.start <= position || (b.start == 0 && 1 < b.firstChapter <= position)
  }

  predicate ReachesLater(books: set<Book>, b: Book, position: int, later: Book) {
    later in books && later.number > b.number && ReachedBy(later, position)
  }

  /** Of the later books whose declared start the position reaches, the one with the least number. */
  ghost predicate ReachesFirst(books: set<Book>, b: Book, position: int, later: Book) {
    && ReachesLater(books, b, position, later)
    && forall other :: ReachesLater(books, b, position, other) ==> later.number <= other.number
  }

  /* ---- Without a book ---- */

  /** A chapter of no book is at its own number, and past the declared final chapter it stays a single. */
  lemma WithoutBook(series: Series, p: Placement)
    requires p.book == 0
    ensures var r := Resolved(series, p, "");
            && r.position == (if p.chapterLabel != "" || p.part != "" then 0 else p.chapter)
            && (r.position == 0 <==> p.chapter == 0 || p.chapterLabel != "" || p.part != "")
            && (if 0 < series.finalChapter < p.chapter then r.keepSingle && r.reason == ExceedsFinal
                else r.keepSingle == p.keepSingle && r.reason == p.reason)
            && r == p.(position := r.position, keepSingle := r.keepSingle, reason := r.reason)
  {
  }

  /* ---- In a book ---- */

  lemma SortedShelf(series: Series, output: Output)
    requires Accepted(series, output)
    ensures var sorted := ByNumber(series.books);
            && Shelf(sorted) == Shelf(series.books) && AcceptedBooks(sorted)
            && forall i, j :: 0 <= i < j < |sorted| ==> sorted[i].number < sorted[j].number
  {
    var sorted := ByNumber(series.books);
    ByNumberSorts(series.books);
    hide ByNumber, AcceptedBook;
    forall b
      ensures b in series.books <==> b in sorted
    {
      assert b in multiset(series.books) <==> b in multiset(sorted);
    }
    assert forall i, j :: 0 <= i < j < |sorted| ==> sorted[i].number != sorted[j].number;
  }

  predicate Ascending(books: seq<Book>) {
    forall i, j :: 0 <= i < j < |books| ==> books[i].number < books[j].number
  }

  /** The running position is where the declarations say the book starts, and 0 where they do not say. */
  lemma {:induction false} StartsAtIs(books: seq<Book>, i: nat, s: int)
    requires AcceptedBooks(books) && Ascending(books) && i < |books|
    ensures StartsAt(Shelf(books), books[i], s) <==> s == Base(books, i) && Base(books, i) > 0
  {
    hide SoundGaps, Blank;
    var b := books[i];
    assert AcceptedBook(books, i);
    StartsPositive(books, i);
    ResolverAgrees(books, i);
    if i > 0 {
      assert AcceptedBook(books, i - 1);
      StartsPositive(books, i - 1);
      ResolverAgrees(books, i - 1);
    }
    if b.start > 0 || b.firstChapter > 1 || b.number == 1 {
      NumberOneIsFirst(books, i);
    } else {
      hide Starts, Ends, Anchored, AcceptedBooks;
      forall a, t | a in Shelf(books) && a.number == b.number - 1
        ensures i > 0 && a == books[i - 1]
        ensures StartsAt(Shelf(books), a, t) <==> t == Base(books, i - 1) && Base(books, i - 1) > 0
      {
        PreviousNumber(books, i, a);
        StartsAtIs(books, i - 1, t);
      }
      if i > 0 && books[i - 1].number == b.number - 1 {
        var a := books[i - 1];
        assert a in Shelf(books);
        if Base(books, i - 1) > 0 {
          assert StartsAt(Shelf(books), a, Base(books, i - 1));
        }
      }
    }
  }

  lemma NumberOneIsFirst(books: seq<Book>, i: nat)
    requires AcceptedBooks(books) && Ascending(books) && i < |books|
    ensures books[i].number == 1 ==> i == 0
  {
    assert AcceptedBook(books, 0);
  }

  lemma PreviousNumber(books: seq<Book>, i: nat, a: Book)
    requires Ascending(books) && i < |books| && a in Shelf(books) && a.number == books[i].number - 1
    ensures i > 0 && a == books[i - 1]
  {
    var j :| 0 <= j < |books| && books[j] == a;
    assert j < i;
    assert books[j].number <= books[i - 1].number < books[i].number;
  }

  /** The target is the book the loop finds. */
  lemma TargetIs(books: seq<Book>, p: Placement, bookId: string, b: Book)
    requires AcceptedBooks(books) && IsTarget(Shelf(books), p, bookId, b)
    ensures var i := FindBook(books, 0, p, bookId);
            i < |books| && books[i] == b
  {
    var j :| 0 <= j < |books| && books[j] == b;
    var i := FindBook(books, 0, p, bookId);
    assert AcceptedBook(books, j);
    assert Matches(books[j], p, bookId);
    assert AcceptedBook(books, i);
    NotEmpty(books[i].id);
  }

  lemma NotEmpty(id: string)
    requires !Blank(id)
    ensures id != ""
  {
  }

  lemma NoTargetIs(books: seq<Book>, p: Placement, bookId: string)
    requires AcceptedBooks(books) && forall b :: !IsTarget(Shelf(books), p, bookId, b)
    ensures FindBook(books, 0, p, bookId) == |books|
  {
    var i := FindBook(books, 0, p, bookId);
    if i < |books| {
      assert AcceptedBook(books, i);
      NotEmpty(books[i].id);
      assert !IsTarget(Shelf(books), p, bookId, books[i]);
    }
  }

  /** A release of a book that is not declared needs that book's range; it is kept under the book's number. */
  lemma UndeclaredBook(series: Series, output: Output, p: Placement, bookId: string)
    requires Accepted(series, output) && (p.book != 0 || bookId != "")
    requires forall b :: !IsTarget(Shelf(series.books), p, bookId, b)
    ensures var r := Resolved(series, p, bookId);
            && r.position == 0 && r.reason == NeedsRange && r.keepSingle == p.keepSingle
            && r.bookId == (if bookId != "" then bookId else if p.bookId != "" then p.bookId else "book:" + Decimal(p.book))
            && r == p.(position := 0, reason := NeedsRange, bookId := r.bookId, origin := r.origin)
            && r.origin == (if bookId == "" then p.origin else if p.origin == Override then Override else Input)
  {
    SortedShelf(series, output);
    hide ByNumber, AcceptedBooks;
    NoTargetIs(ByNumber(series.books), p, bookId);
  }

  /** Which later book the overlap check stops at. */
  lemma FirstReachedIs(books: seq<Book>, i: nat, position: int)
    requires AcceptedBooks(books) && Ascending(books) && i < |books|
    ensures var k := FirstReached(books, i + 1, position);
            && (k < |books| ==> ReachesFirst(Shelf(books), books[i], position, books[k]))
            && (forall later :: ReachesFirst(Shelf(books), books[i], position, later) ==> k < |books| && books[k] == later)
            && (k == |books| <==> forall later :: !ReachesLater(Shelf(books), books[i], position, later))
  {
    var k := FirstReached(books, i + 1, position);
    forall j | i < j < |books|
      ensures Reaches(books[j], position) <==> ReachedBy(books[j], position)
    {
      assert AcceptedBook(books, j);
    }
    forall later | ReachesLater(Shelf(books), books[i], position, later)
      ensures k < |books| && books[k].number <= later.number
      ensures books[k].number == later.number ==> books[k] == later
    {
      var j :| 0 <= j < |books| && books[j] == later;
      assert j > i && Reaches(books[j], position);
      assert k <= j;
    }
    hide Reaches, ReachedBy, AcceptedBooks;
  }

  /** What an integral chapter in range gets: its position, unless its book's start is not known or it runs into a later book. */
  ghost predicate InBook(books: set<Book>, b: Book, p: Placement, r: Placement) {
    && ((forall s :: !StartsAt(books, b, s)) ==> r.position == 0 && r.reason == MissingEarlier && r.keepSingle == p.keepSingle)
    && forall s :: StartsAt(books, b, s) ==> Located(books, b, s + p.chapter - b.First(), p, r)
  }

  ghost predicate Located(books: set<Book>, b: Book, position: int, p: Placement, r: Placement) {
    && position > 0
    && ((forall later :: !ReachesLater(books, b, position, later)) ==>
          r.position == position && r.reason == p.reason && r.keepSingle == p.keepSingle)
    && ((exists later :: ReachesLater(books, b, position, later)) ==>
          r.position == 0 && r.keepSingle && exists later :: ReachesFirst(books, b, position, later) && r.reason == Overlaps(later.id))
  }

  /** What becomes of a release of a book: `r` is its placement. */
  ghost predicate OfBook(books: set<Book>, b: Book, p: Placement, r: Placement) {
    && (r.book, r.bookId) == (b.number, b.id)
    && (r.chapter, r.chapterLabel, r.part) == (p.chapter, p.chapterLabel, p.part)
    && if p.chapter < b.First() || 0 < b.last < p.chapter
       then r.position == 0 && r.keepSingle && r.reason == OutsideRange
       else if p.chapterLabel != "" || p.part != ""
       then r.position == 0 && r.keepSingle == p.keepSingle && r.reason == p.reason
       else InBook(books, b, p, r)
  }

  /** Exactly what becomes of a release of a declared book. */
  lemma PlacedExactly(series: Series, output: Output, p: Placement, bookId: string, b: Book)
    requires Accepted(series, output) && (p.book != 0 || bookId != "") && IsTarget(Shelf(series.books), p, bookId, b)
    ensures OfBook(Shelf(series.books), b, p, Resolved(series, p, bookId))
    ensures Resolved(series, p, bookId).origin == if bookId == "" then p.origin else if p.origin == Override then Override else Input
  {
    SortedShelf(series, output);
    var books := ByNumber(series.books);
    TargetIs(books, p, bookId, b);
    hide ByNumber, AcceptedBooks, Shelf, IsTarget, FindBook, OfBook, Placed;
    PlacedOfBook(books, FindBook(books, 0, p, bookId), Given(p, bookId));
    GivenIs(Shelf(books), b, p, bookId, Resolved(series, p, bookId));
  }

  lemma GivenIs(books: set<Book>, b: Book, p: Placement, bookId: string, r: Placement)
    ensures OfBook(books, b, Given(p, bookId), r) <==> OfBook(books, b, p, r)
  {
    var q := Given(p, bookId);
    assert InBook(books, b, q, r) <==> InBook(books, b, p, r) by {
      hide StartsAt, ReachesLater, ReachesFirst;
      forall s | StartsAt(books, b, s)
        ensures Located(books, b, s + q.chapter - b.First(), q, r) <==> Located(books, b, s + p.chapter - b.First(), p, r)
      {
      }
    }
    hide InBook;
  }

  lemma PlacedOfBook(books: seq<Book>, i: nat, p: Placement)
    requires AcceptedBooks(books) && Ascending(books) && i < |books|
    ensures OfBook(Shelf(books), books[i], p, Placed(books, i, p))
  {
    FirstReachedIs(books, i, 0);
    if InRange(books[i], p.chapter) && !p.Extended() {
      PlacedInBook(books, i, p);
    }
    hide Base, StartsAt, InBook, Shelf, AcceptedBooks, ReachesFirst;
  }

  lemma PlacedInBook(books: seq<Book>, i: nat, p: Placement)
    requires AcceptedBooks(books) && Ascending(books) && i < |books| && InRange(books[i], p.chapter) && !p.Extended()
    ensures InBook(Shelf(books), books[i], p, Placed(books, i, p))
  {
    forall s
      ensures StartsAt(Shelf(books), books[i], s) <==> s == Base(books, i) && Base(books, i) > 0
    {
      StartsAtIs(books, i, s);
    }
    if Base(books, i) > 0 {
      LocatedIs(books, i, p);
    } else {
      FirstReachedIs(books, i, 0);
    }
    hide Base, StartsAt, Located, ReachesLater, AcceptedBooks, Shelf;
    assert Base(books, i) > 0 ==> StartsAt(Shelf(books), books[i], Base(books, i));
  }

  lemma LocatedIs(books: seq<Book>, i: nat, p: Placement)
    requires AcceptedBooks(books) && Ascending(books) && i < |books| && InRange(books[i], p.chapter) && !p.Extended()
    requires Base(books, i) > 0
    ensures Located(Shelf(books), books[i], Base(books, i) + p.chapter - books[i].First(), p, Placed(books, i, p))
  {
    FirstReachedIs(books, i, Base(books, i) + p.chapter - books[i].First());
    hide Base, StartsAt, ReachesFirst, ReachesLater, AcceptedBooks, Shelf;
  }
}
