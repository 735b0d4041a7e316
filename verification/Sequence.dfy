/** Where a chapter stands: series positions across the declared books of a series. */
module Sequence {
  import opened Common

  datatype Gap = Gap(chapter: int, reason: string)

  /**
   * `last` is 0 for an open-ended book, `start` is 0 when the book declares no series position; a
   * labelled book is found by its collection or tag.
   */
  datatype Book = Book(id: string, number: int, title: string, firstChapter: int, last: int, start: int, gaps: seq<Gap>,
                       labelled: bool)
  {
    function First(): int {
      if firstChapter == 0 then 1 else firstChapter
    }
  }

  datatype Series = Series(id: string, title: string, books: seq<Book>, finalChapter: int)

  datatype Reason =
    | NoReason
    | Detected(text: string)
    | ExceedsFinal
    | OutsideRange
    | Overlaps(book: string)
    | MissingEarlier
    | NeedsRange

  /** Where a placement was read: off a title, off an attachment, from an override, or from the input's book. */
  datatype Origin = Title | Attachment | Override | Input

  /** A book of 0 is no book; a position of 0 is unknown. */
  datatype Placement = Placement(book: int, bookId: string, chapter: int, chapterLabel: string, part: string,
                                 position: int, keepSingle: bool, reason: Reason, origin: Origin)
  {
    /** Not an integral chapter of its own: a half chapter, a prologue, a part. */
    predicate Extended() {
      chapterLabel != "" || part != ""
    }
  }

  /* ---- Books in number order ---- */

  predicate InNumberOrder(books: seq<Book>) {
    forall i, j :: 0 <= i < j < |books| ==> books[i].number <= books[j].number
  }

  predicate Before(a: Book, b: Book) {
    a.number < b.number
  }

  function ByNumber(books: seq<Book>): (r: seq<Book>)
    ensures |r| == |books|
  {
    Sorted(Before, books)
  }

  lemma ByNumberSorts(books: seq<Book>)
    ensures multiset(ByNumber(books)) == multiset(books)
    ensures InNumberOrder(ByNumber(books))
  {
    SortedSorts(Before, books);
    assert forall i, j :: 0 <= i < j < |books| ==> !Before(ByNumber(books)[j], ByNumber(books)[i]);
  }

  method SortBooks(books: seq<Book>) returns (r: seq<Book>)
    ensures r == ByNumber(books)
  {
    r := SortBy(Before, books);
  }

  /* ---- The positions books take ---- */

  /** The running position when the loop reaches book `i`: 0 once an earlier book has no known end. */
  function Entry(books: seq<Book>, i: nat): int
    requires i <= |books|
    decreases i, 0
  {
    if i == 0 then 1
    else
      var b := books[i - 1];
      if b.last < b.First() then 0
      else if Base(books, i - 1) > 0 then Base(books, i - 1) + b.last - b.First() + 1
      else Base(books, i - 1)
  }

  /** The series position of the first chapter of book `i`, or 0 when it is unknown. */
  function Base(books: seq<Book>, i: nat): int
    requires i < |books|
    decreases i, 1
  {
    var b := books[i];
    if b.start > 0 then b.start
    else if b.First() > 1 then b.First()
    else if Skips(books, i) then 0
    else Entry(books, i)
  }

  /** The book does not directly follow the one before it. */
  predicate Skips(books: seq<Book>, i: nat)
    requires i < |books|
  {
    if i == 0 then books[0].number != 1 else books[i].number != books[i - 1].number + 1
  }

  /** Where a later book is declared to start, or 0 when it only continues. */
  function DeclaredStart(b: Book): int {
    if b.start == 0 && b.firstChapter > 1 then b.firstChapter else b.start
  }

  predicate Reaches(b: Book, position: int) {
    DeclaredStart(b) > 0 && position >= DeclaredStart(b)
  }

  /** The first book of books[from..] whose declared start `position` reaches, or |books|. */
  function FirstReached(books: seq<Book>, from: nat, position: int): (k: nat)
    requires from <= |books|
    ensures from <= k <= |books|
    ensures k < |books| ==> Reaches(books[k], position)
    ensures forall j :: from <= j < k ==> !Reaches(books[j], position)
    decreases |books| - from
  {
    if from == |books| || Reaches(books[from], position) then from else FirstReached(books, from + 1, position)
  }

  predicate Matches(b: Book, p: Placement, bookId: string) {
    b.id == bookId || (bookId == "" && b.number == p.book)
  }

  function FindBook(books: seq<Book>, from: nat, p: Placement, bookId: string): (k: nat)
    requires from <= |books|
    ensures from <= k <= |books|
    ensures k < |books| ==> Matches(books[k], p, bookId)
    ensures forall j :: from <= j < k ==> !Matches(books[j], p, bookId)
    decreases |books| - from
  {
    if from == |books| || Matches(books[from], p, bookId) then from else FindBook(books, from + 1, p, bookId)
  }

  predicate InRange(b: Book, chapter: int) {
    b.First() <= chapter && (b.last > 0 ==> chapter <= b.last)
  }

  /** The placement of a chapter in book `i`. */
  function Placed(books: seq<Book>, i: nat, p: Placement): Placement
    requires i < |books|
  {
    var b := books[i];
    var inBook := p.(bookId := b.id, book := b.number, position := 0);
    if !InRange(b, p.chapter) then inBook.(keepSingle := true, reason := OutsideRange)
    else
      var position := if Base(books, i) > 0 && !p.Extended() then Base(books, i) + p.chapter - b.First() else 0;
      var k := FirstReached(books, i + 1, position);
      if k < |books| then inBook.(keepSingle := true, reason := Overlaps(books[k].id))
      else if position == 0 && !p.Extended() then inBook.(reason := MissingEarlier)
      else inBook.(position := position)
  }

  /** What Resolve makes of a detected placement and a configured book. */
  function Resolved(series: Series, p: Placement, bookId: string): Placement {
    var given := Given(p, bookId);
    if p.book == 0 && bookId == "" then
      var single := given.(position := if p.Extended() then 0 else p.chapter);
      if series.finalChapter > 0 && p.chapter > series.finalChapter
      then single.(keepSingle := true, reason := ExceedsFinal) else single
    else
      var books := ByNumber(series.books);
      var i := FindBook(books, 0, p, bookId);
      if i < |books| then Placed(books, i, given)
      else given.(position := 0, reason := NeedsRange,
                  bookId := if given.bookId == "" then SyntheticBook(p.book) else given.bookId)
  }

  /** The id of a book nobody declared: "book:" and its number. */
  function SyntheticBook(number: int): string {
    "book:" + Decimal(number)
  }

  method Resolve(series: Series, sequence: Placement, bookId: string) returns (r: Placement)
    ensures r == Resolved(series, sequence, bookId)
  {
    hide Base, Entry, Placed, FirstReached, ByNumber, SyntheticBook, Placement.Extended;
    var given := sequence;
    if bookId != "" {
      given := given.(bookId := bookId);
      if given.origin != Override {
        given := given.(origin := Input);
      }
    }
    r := given.(position := if sequence.Extended() then 0 else sequence.chapter);
    if r.book == 0 && bookId == "" {
      if series.finalChapter > 0 && r.chapter > series.finalChapter {
        r := r.(keepSingle := true, reason := ExceedsFinal);
      }
      return;
    }
    var books := SortBooks(series.books);
    EntryAtStart(books);
    var position := 1;
    for index := 0 to |books|
      invariant position == Entry(books, index)
      invariant FindBook(books, 0, sequence, bookId) == FindBook(books, index, sequence, bookId)
    {
      BaseAndEntry(books, index);
      var book := books[index];
      var first := if book.firstChapter == 0 then 1 else book.firstChapter;
      if book.start > 0 {
        position := book.start;
      } else if first > 1 {
        position := first;
      } else if (index == 0 && book.number != 1) || (index > 0 && book.number != books[index - 1].number + 1) {
        position := 0;
      }
      if book.id == bookId || (bookId == "" && book.number == r.book) {
        r := PlaceIn(books, index, position, given.(position := 0));
        return;
      }
      if book.last < first {
        position := 0;
      } else if position > 0 {
        position := position + book.last - first + 1;
      }
    }
    r := given.(position := 0, reason := NeedsRange);
    if r.bookId == "" {
      r := r.(bookId := SyntheticBook(r.book));
    }
  }

  lemma EntryAtStart(books: seq<Book>)
    ensures Entry(books, 0) == 1
  {
  }

  lemma BaseAndEntry(books: seq<Book>, i: nat)
    requires i < |books|
    ensures var b := books[i];
            && Base(books, i) == (if b.start > 0 then b.start else if b.First() > 1 then b.First()
                                  else if Skips(books, i) then 0 else Entry(books, i))
            && Entry(books, i + 1) == (if b.last < b.First() then 0
                                       else if Base(books, i) > 0 then Base(books, i) + b.last - b.First() + 1
                                       else Base(books, i))
  {
  }

  /** The matching turn of Resolve's loop: the range check, the position and the overlap check. */
  method PlaceIn(books: seq<Book>, index: nat, position: int, sequence: Placement) returns (r: Placement)
    requires index < |books| && position == Base(books, index) && sequence.position == 0
    ensures forall p: Placement :: p.(position := 0) == sequence ==> r == Placed(books, index, p)
  {
    hide Base;
    var book := books[index];
    var first := book.First();
    r := sequence.(bookId := book.id, book := book.number);
    if r.chapter < first || (book.last > 0 && r.chapter > book.last) {
      return r.(keepSingle := true, reason := OutsideRange);
    }
    if position > 0 && r.chapter >= first && !r.Extended() {
      r := r.(position := position + r.chapter - first);
    }
    for k := index + 1 to |books|
      invariant FirstReached(books, index + 1, r.position) == FirstReached(books, k, r.position)
    {
      var start := books[k].start;
      if start == 0 && books[k].firstChapter > 1 {
        start := books[k].firstChapter;
      }
      if start > 0 && r.position >= start {
        return r.(position := 0, keepSingle := true, reason := Overlaps(books[k].id));
      }
    }
    if r.position == 0 && !r.Extended() {
      r := r.(reason := MissingEarlier);
    }
  }

  /* ---- Positions embed the author's order ---- */

  /** What validation demands of each book by itself. */
  predicate SoundBook(b: Book) {
    b.firstChapter >= 0 && b.start >= 0
  }

  ghost predicate SoundBooks(books: seq<Book>) {
    && (forall b :: b in books ==> SoundBook(b))
    && (forall i, j :: 0 <= i < j < |books| ==> books[i].number != books[j].number)
  }

  lemma SoundByNumber(books: seq<Book>)
    requires SoundBooks(books)
    ensures SoundBooks(ByNumber(books))
    ensures var sorted := ByNumber(books);
            forall i, j :: 0 <= i < j < |sorted| ==> sorted[i].number < sorted[j].number
  {
    var sorted := ByNumber(books);
    ByNumberSorts(books);
    hide ByNumber;
    forall b
      ensures b in books <==> b in sorted
    {
      assert b in multiset(books) <==> b in multiset(sorted);
    }
    DistinctInAnyOrder((b: Book) => b.number, books, sorted);
  }

  /** Every later book with a known position starts after a chapter that passed the overlap check. */
  lemma {:induction false} LaterBooksStartLater(books: seq<Book>, i: nat, position: int, j: nat)
    requires i < j <= |books| && forall b :: b in books ==> SoundBook(b)
    requires 0 < Base(books, i) <= position
    requires books[i].last > 0 ==> position <= Base(books, i) + books[i].last - books[i].First()
    requires FirstReached(books, i + 1, position) == |books|
    ensures Entry(books, j) > 0 ==> Entry(books, j) > position
    ensures j < |books| && Base(books, j) > 0 ==> Base(books, j) > position
  {
    assert books[i] in books;
    if j > i + 1 {
      LaterBooksStartLater(books, i, position, j - 1);
    }
    if j < |books| {
      assert books[j] in books;
      assert !Reaches(books[j], position);
    }
  }

  lemma PlacedInOrder(books: seq<Book>, i: nat, j: nat, p: Placement, q: Placement)
    requires i <= j < |books| && forall b :: b in books ==> SoundBook(b)
    requires Placed(books, i, p).position != 0 && Placed(books, j, q).position != 0
    requires i < j || p.chapter < q.chapter
    ensures Placed(books, i, p).position < Placed(books, j, q).position
  {
    if i < j {
      LaterBooksStartLater(books, i, Placed(books, i, p).position, j);
    }
  }

  /** Across any two declared books, (book number, chapter) order is position order. */
  lemma PositionsEmbedOrder(series: Series, p: Placement, pBook: string, q: Placement, qBook: string)
    requires SoundBooks(series.books)
    requires var a, b := Resolved(series, p, pBook), Resolved(series, q, qBook);
             && a.position != 0 && b.position != 0 && a.book != 0 && b.book != 0
             && (a.book < b.book || (a.book == b.book && a.chapter < b.chapter))
    ensures Resolved(series, p, pBook).position < Resolved(series, q, qBook).position
  {
    var books := ByNumber(series.books);
    SoundByNumber(series.books);
    var i := ResolvedInBook(series, p, pBook);
    var j := ResolvedInBook(series, q, qBook);
    hide ByNumber, Placed, Resolved, SoundBooks;
    assert i <= j;
    SoundIsSound(books);
    PlacedInOrder(books, i, j, Given(p, pBook), Given(q, qBook));
  }

  function Given(p: Placement, bookId: string): Placement {
    if bookId != "" then p.(bookId := bookId, origin := if p.origin == Override then Override else Input) else p
  }

  /** A known position in a book is a placement in one of the declared books. */
  lemma ResolvedInBook(series: Series, p: Placement, bookId: string) returns (i: nat)
    requires Resolved(series, p, bookId).position != 0 && Resolved(series, p, bookId).book != 0
    ensures var books, r := ByNumber(series.books), Resolved(series, p, bookId);
            i < |books| && r == Placed(books, i, Given(p, bookId)) && r.book == books[i].number && r.chapter == p.chapter
  {
    var books := ByNumber(series.books);
    i := FindBook(books, 0, p, bookId);
    PlacedBook(books, i, Given(p, bookId));
    hide ByNumber, Placed;
  }

  lemma SoundIsSound(books: seq<Book>)
    requires SoundBooks(books)
    ensures forall b :: b in books ==> SoundBook(b)
  {
  }

  lemma PlacedBook(books: seq<Book>, i: nat, p: Placement)
    requires i <= |books|
    ensures i < |books| ==> Placed(books, i, p).book == books[i].number && Placed(books, i, p).chapter == p.chapter
  {
  }
}
