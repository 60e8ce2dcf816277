/**
 * The concurrent bookstore (ConcurrentCertainBookStore) as a sequential
 * object: the catalog and the key set of its lock table, both updated in
 * place. Each method is proved to compute what the matching StoreSpec
 * function says.
 */
module CertainStore {
  import opened BookStoreTypes
  import opened StoreSpec

  class ConcurrentCertainBookStore {
    /** ISBN to book record (bookMap). */
    var bookMap: Catalog
    /** The ISBNs that own a read/write lock (the key set of locks). */
    var locks: set<ISBN>

    ghost predicate Valid()
      reads this
    {
      locks == bookMap.Keys && WellKeyed(bookMap)
    }

    constructor()
      ensures Valid() && bookMap == map[] && locks == {}
    {
      bookMap := map[];
      locks := {};
    }

    /**
     * read_lock/write_lock: look up the lock of every ISBN in turn; the
     * lookup of an ISBN without a lock yields null and the call fails.
     */
    method TakeLocks(isbns: seq<ISBN>) returns (ok: bool)
      requires Valid()
      ensures ok <==> AllLockable(bookMap, isbns)
    {
      var i := 0;
      while i < |isbns|
        invariant 0 <= i <= |isbns|
        invariant forall j :: 0 <= j < i ==> isbns[j] in locks
      {
        if isbns[i] !in locks {
          return false;
        }
        i := i + 1;
      }
      return true;
    }

    /** addBooks' first loop: the first book it rejects, if any. */
    method CheckNewBooks(books: seq<StockBook>) returns (e: Option<Error>)
      ensures e == AddBooksCheck(bookMap, books)
    {
      var i := 0;
      while i < |books|
        invariant 0 <= i <= |books|
        invariant AddBooksCheck(bookMap, books[i..]) == AddBooksCheck(bookMap, books)
      {
        var b := books[i];
        assert books[i..][1..] == books[i + 1..];
        if IsInvalidBook(b) {
          return Some(InvalidBook(b.isbn));
        } else if b.isbn in bookMap {
          return Some(DuplicatedIsbn(b.isbn));
        }
        i := i + 1;
      }
      return None;
    }

    /** addBooks' second loop: give every book a lock and put it into the catalog. */
    method InsertAll(books: seq<StockBook>)
      requires Valid()
      modifies this
      ensures Valid()
      ensures bookMap == InsertBooks(old(bookMap), books)
    {
      var i := 0;
      while i < |books|
        invariant 0 <= i <= |books|
        invariant Valid()
        invariant InsertBooks(bookMap, books[i..]) == InsertBooks(old(bookMap), books)
      {
        assert books[i..][1..] == books[i + 1..];
        locks := locks + {books[i].isbn};
        bookMap := bookMap[books[i].isbn := books[i]];
        i := i + 1;
      }
    }

    /** addBooks: check every book, then give each a lock and insert it. */
    method AddBooks(bookSet: Option<seq<StockBook>>) returns (s: Status)
      requires Valid()
      modifies this
      ensures Valid()
      ensures (bookMap, s) == AddBooksOp(old(bookMap), bookSet)
    {
      if bookSet.None? {
        return Failure(NullInput);
      }
      var e := CheckNewBooks(bookSet.value);
      if e.Some? {
        return Failure(e.value);
      }
      InsertAll(bookSet.value);
      return Success;
    }

    /** addCopies' first loop: the first entry it rejects, if any. */
    method CheckCopies(copies: seq<BookCopy>) returns (e: Option<Error>)
      ensures e == AddCopiesCheck(bookMap, copies)
    {
      var i := 0;
      while i < |copies|
        invariant 0 <= i <= |copies|
        invariant AddCopiesCheck(bookMap, copies[i..]) == AddCopiesCheck(bookMap, copies)
      {
        var c := copies[i];
        assert copies[i..][1..] == copies[i + 1..];
        if IsInvalidIsbn(c.isbn) {
          return Some(InvalidIsbn(c.isbn));
        }
        if IsInvalidNumCopies(c.numCopies) {
          return Some(InvalidNumCopies(c.numCopies));
        }
        if c.isbn !in bookMap {
          return Some(IsbnNotAvailable(c.isbn));
        }
        i := i + 1;
      }
      return None;
    }

    /** addCopies' second loop: add each entry's copies to its book. */
    method AddAllCopies(copies: seq<BookCopy>)
      requires forall j :: 0 <= j < |copies| ==> copies[j].isbn in bookMap
      modifies this
      ensures locks == old(locks)
      ensures bookMap == AddCopiesAll(old(bookMap), copies)
    {
      var i := 0;
      while i < |copies|
        invariant 0 <= i <= |copies|
        invariant locks == old(locks) && bookMap.Keys == old(bookMap).Keys
        invariant forall j :: i <= j < |copies| ==> copies[j].isbn in bookMap
        invariant AddCopiesAll(bookMap, copies[i..]) == AddCopiesAll(old(bookMap), copies)
      {
        var c := copies[i];
        assert copies[i..][1..] == copies[i + 1..];
        var book := bookMap[c.isbn];
        ghost var before := bookMap;
        bookMap := bookMap[c.isbn := book.(numCopies := book.numCopies + c.numCopies)];
        AddCopiesAllStep(before, copies[i..], bookMap);
        i := i + 1;
      }
    }

    /** addCopies: take the locks, validate every entry, then add the copies. */
    method AddCopies(bookCopiesSet: Option<seq<BookCopy>>) returns (s: Status)
      requires Valid()
      modifies this
      ensures Valid() && locks == old(locks)
      ensures (bookMap, s) == AddCopiesOp(old(bookMap), bookCopiesSet)
    {
      if bookCopiesSet.None? {
        return Failure(NullInput);
      }
      var copies := bookCopiesSet.value;
      var locked := TakeLocks(CopyIsbnSeq(copies));
      if !locked {
        return Failure(NullReference);
      }
      var e := CheckCopies(copies);
      if e.Some? {
        return Failure(e.value);
      }
      AddAllCopies(copies);
      return Success;
    }

    /**
     * buyBooks' first loop: validate each entry in turn, recording a sale
     * miss on each book found short, and stop at the first invalid entry.
     */
    method RecordSaleMisses(copies: seq<BookCopy>) returns (error: Option<Error>, saleMiss: bool)
      modifies this
      ensures locks == old(locks)
      ensures BuyScan(bookMap, error, saleMiss) == BuyCheck(old(bookMap), copies, false)
    {
      saleMiss := false;
      var i := 0;
      while i < |copies|
        invariant 0 <= i <= |copies|
        invariant locks == old(locks)
        invariant BuyCheck(bookMap, copies[i..], saleMiss) == BuyCheck(old(bookMap), copies, false)
      {
        var c := copies[i];
        assert copies[i..][1..] == copies[i + 1..];
        if c.numCopies < 0 {
          return Some(InvalidNumCopies(c.numCopies)), saleMiss;
        }
        if IsInvalidIsbn(c.isbn) {
          return Some(InvalidIsbn(c.isbn)), saleMiss;
        }
        if c.isbn !in bookMap {
          return Some(IsbnNotAvailable(c.isbn)), saleMiss;
        }
        var book := bookMap[c.isbn];
        if book.numCopies < c.numCopies {
          bookMap := bookMap[c.isbn := book.(saleMisses := book.saleMisses + 1)];
          saleMiss := true;
        }
        i := i + 1;
      }
      return None, saleMiss;
    }

    /** buyBooks' last loop: take each entry's copies from its book. */
    method TakeAllCopies(copies: seq<BookCopy>)
      requires forall j :: 0 <= j < |copies| ==> copies[j].isbn in bookMap
      modifies this
      ensures locks == old(locks)
      ensures bookMap == BuyCopiesAll(old(bookMap), copies)
    {
      var i := 0;
      while i < |copies|
        invariant 0 <= i <= |copies|
        invariant locks == old(locks) && bookMap.Keys == old(bookMap).Keys
        invariant forall j :: i <= j < |copies| ==> copies[j].isbn in bookMap
        invariant BuyCopiesAll(bookMap, copies[i..]) == BuyCopiesAll(old(bookMap), copies)
      {
        var c := copies[i];
        assert copies[i..][1..] == copies[i + 1..];
        var book := bookMap[c.isbn];
        ghost var before := bookMap;
        bookMap := bookMap[c.isbn := book.(numCopies := book.numCopies - c.numCopies)];
        BuyCopiesAllStep(before, copies[i..], bookMap);
        i := i + 1;
      }
    }

    /**
     * buyBooks: take the locks, check every entry while recording a sale
     * miss on each short book, fail if any was short, else take the copies.
     */
    method BuyBooks(bookCopiesToBuy: Option<seq<BookCopy>>) returns (s: Status)
      requires Valid()
      modifies this
      ensures Valid() && locks == old(locks)
      ensures (bookMap, s) == BuyBooksOp(old(bookMap), bookCopiesToBuy)
    {
      if bookCopiesToBuy.None? {
        return Failure(NullInput);
      }
      var copies := bookCopiesToBuy.value;
      var locked := TakeLocks(CopyIsbnSeq(copies));
      if !locked {
        return Failure(NullReference);
      }
      var error, saleMiss := RecordSaleMisses(copies);
      BuyCheckFinds(old(bookMap), copies, false);
      BuyCheckOnlyAddsSaleMisses(old(bookMap), copies, false);
      if error.Some? {
        return Failure(error.value);
      }
      if saleMiss {
        return Failure(BooksNotAvailable);
      }
      TakeAllCopies(copies);
      return Success;
    }

    /** The validation loop of updateEditorPicks, removeBooks and the lookups by ISBN. */
    method CheckIsbns(isbns: seq<ISBN>) returns (e: Option<Error>)
      ensures e == IsbnCheck(bookMap, isbns)
    {
      var i := 0;
      while i < |isbns|
        invariant 0 <= i <= |isbns|
        invariant IsbnCheck(bookMap, isbns[i..]) == IsbnCheck(bookMap, isbns)
      {
        var isbn := isbns[i];
        assert isbns[i..][1..] == isbns[i + 1..];
        if IsInvalidIsbn(isbn) {
          return Some(InvalidIsbn(isbn));
        }
        if isbn !in bookMap {
          return Some(IsbnNotAvailable(isbn));
        }
        i := i + 1;
      }
      return None;
    }

    /** updateEditorPicks' second loop: set each entry's flag on its book. */
    method SetAllEditorPicks(picks: seq<BookEditorPick>)
      requires forall j :: 0 <= j < |picks| ==> picks[j].isbn in bookMap
      modifies this
      ensures locks == old(locks)
      ensures bookMap == SetEditorPicks(old(bookMap), picks)
    {
      var i := 0;
      while i < |picks|
        invariant 0 <= i <= |picks|
        invariant locks == old(locks) && bookMap.Keys == old(bookMap).Keys
        invariant SetEditorPicks(bookMap, picks[i..]) == SetEditorPicks(old(bookMap), picks)
      {
        var p := picks[i];
        assert picks[i..][1..] == picks[i + 1..];
        bookMap := bookMap[p.isbn := bookMap[p.isbn].(editorPick := p.editorPick)];
        i := i + 1;
      }
    }

    /** updateEditorPicks: take the locks, validate every ISBN, then set every flag. */
    method UpdateEditorPicks(editorPicks: Option<seq<BookEditorPick>>) returns (s: Status)
      requires Valid()
      modifies this
      ensures Valid() && locks == old(locks)
      ensures (bookMap, s) == UpdateEditorPicksOp(old(bookMap), editorPicks)
    {
      if editorPicks.None? {
        return Failure(NullInput);
      }
      var picks := editorPicks.value;
      var locked := TakeLocks(PickIsbns(picks));
      if !locked {
        return Failure(NullReference);
      }
      var e := CheckIsbns(PickIsbns(picks));
      if e.Some? {
        return Failure(e.value);
      }
      SetAllEditorPicks(picks);
      return Success;
    }

    /** removeBooks' second loop: drop each listed book and its lock. */
    method DropAll(isbns: seq<ISBN>)
      requires Valid()
      modifies this
      ensures Valid()
      ensures bookMap == old(bookMap) - Elements(isbns)
    {
      var i := 0;
      while i < |isbns|
        invariant 0 <= i <= |isbns|
        invariant Valid()
        invariant bookMap == old(bookMap) - Elements(isbns[..i])
      {
        assert Elements(isbns[..i + 1]) == Elements(isbns[..i]) + {isbns[i]} by {
          assert forall j :: 0 <= j < i ==> isbns[..i + 1][j] == isbns[..i][j];
        }
        bookMap := bookMap - {isbns[i]};
        locks := locks - {isbns[i]};
        i := i + 1;
      }
      assert isbns[..|isbns|] == isbns;
    }

    /** removeBooks: take the locks, validate every ISBN, then drop each book and its lock. */
    method RemoveBooks(isbnSet: Option<seq<ISBN>>) returns (s: Status)
      requires Valid()
      modifies this
      ensures Valid()
      ensures (bookMap, s) == RemoveBooksOp(old(bookMap), isbnSet)
    {
      if isbnSet.None? {
        return Failure(NullInput);
      }
      var isbns := isbnSet.value;
      var locked := TakeLocks(isbns);
      if !locked {
        return Failure(NullReference);
      }
      var e := CheckIsbns(isbns);
      if e.Some? {
        return Failure(e.value);
      }
      DropAll(isbns);
      return Success;
    }

    /** removeAllBooks: empty the catalog and the lock table. */
    method RemoveAllBooks()
      modifies this
      ensures Valid() && bookMap == map[] && locks == {}
    {
      bookMap := map[];
      locks := {};
    }

    /** getBooks: a snapshot of every record, in the map's iteration order. */
    method GetBooks() returns (books: seq<StockBook>)
      requires Valid()
      ensures IsListingOf(bookMap, books)
      ensures |books| == |bookMap|
    {
      books := [];
      var remaining := bookMap.Keys;
      ghost var position: map<ISBN, nat> := map[];
      while |remaining| > 0
        invariant remaining <= bookMap.Keys
        invariant forall i :: 0 <= i < |books| ==>
          books[i].isbn in bookMap && bookMap[books[i].isbn] == books[i] && books[i].isbn !in remaining
        invariant forall k :: k in bookMap && k !in remaining ==>
          k in position && position[k] < |books| && books[position[k]].isbn == k
        invariant forall i, j :: 0 <= i < j < |books| ==> books[i].isbn != books[j].isbn
        decreases remaining
      {
        NonEmptyHasElement(remaining);
        var k :| k in remaining;
        position := position[k := |books|];
        books := books + [bookMap[k]];
        remaining := remaining - {k};
      }
      forall k | k in bookMap ensures exists i :: 0 <= i < |books| && books[i].isbn == k {
        assert books[position[k]].isbn == k;
      }
      ListingHasCatalogSize(bookMap, books);
    }

    /** getBooksByISBN: take the locks, validate every ISBN, then list the records. */
    method GetBooksByIsbn(isbnSet: Option<seq<ISBN>>) returns (r: Result<seq<StockBook>>)
      requires Valid()
      ensures r == GetBooksByIsbnOp(bookMap, isbnSet)
    {
      if isbnSet.None? {
        return Err(NullInput);
      }
      var isbns := isbnSet.value;
      var locked := TakeLocks(isbns);
      if !locked {
        return Err(NullReference);
      }
      var e := CheckIsbns(isbns);
      if e.Some? {
        return Err(e.value);
      }
      var listBooks: seq<StockBook> := [];
      var i := 0;
      while i < |isbns|
        invariant 0 <= i <= |isbns|
        invariant |listBooks| == i
        invariant forall j :: 0 <= j < i ==> listBooks[j] == bookMap[isbns[j]]
      {
        listBooks := listBooks + [bookMap[isbns[i]]];
        i := i + 1;
      }
      var m := bookMap;
      assert listBooks == seq(|isbns|, j requires 0 <= j < |isbns| => m[isbns[j]]);
      return Ok(listBooks);
    }

    /** getBooks(Set): as getBooksByISBN, but the customer's view of each book. */
    method GetCustomerBooks(isbnSet: Option<seq<ISBN>>) returns (r: Result<seq<Book>>)
      requires Valid()
      ensures r == GetBooksOp(bookMap, isbnSet)
    {
      if isbnSet.None? {
        return Err(NullInput);
      }
      var isbns := isbnSet.value;
      var locked := TakeLocks(isbns);
      if !locked {
        return Err(NullReference);
      }
      var e := CheckIsbns(isbns);
      if e.Some? {
        return Err(e.value);
      }
      var listBooks: seq<Book> := [];
      var i := 0;
      while i < |isbns|
        invariant 0 <= i <= |isbns|
        invariant |listBooks| == i
        invariant forall j :: 0 <= j < i ==> listBooks[j] == CustomerView(bookMap[isbns[j]])
      {
        listBooks := listBooks + [CustomerView(bookMap[isbns[i]])];
        i := i + 1;
      }
      var m := bookMap;
      assert listBooks == seq(|isbns|, j requires 0 <= j < |isbns| => CustomerView(m[isbns[j]]));
      return Ok(listBooks);
    }

    /**
     * getEditorPicks: fail on a negative count; otherwise list the editor
     * picks and return all of them, or numBooks distinct ones chosen by
     * the random draws when there are more.
     */
    method GetEditorPicks(numBooks: int, draws: seq<int>) returns (r: Result<seq<Book>>)
      requires Valid()
      requires 0 <= numBooks < |EditorPickIsbns(bookMap)| ==>
        (forall j :: 0 <= j < |draws| ==> 0 <= draws[j] < |EditorPickIsbns(bookMap)|) &&
        numBooks <= |DrawSet(draws)|
      ensures numBooks < 0 ==> r == Err(InvalidNumBooks(numBooks))
      ensures numBooks >= 0 ==> r.Ok? && |r.value| == Min(numBooks, |EditorPickIsbns(bookMap)|)
      ensures r.Ok? ==> forall i :: 0 <= i < |r.value| ==>
        r.value[i].isbn in EditorPickIsbns(bookMap) && r.value[i] == CustomerView(bookMap[r.value[i].isbn])
      ensures r.Ok? ==> forall i, j :: 0 <= i < j < |r.value| ==> r.value[i].isbn != r.value[j].isbn
    {
      if numBooks < 0 {
        return Err(InvalidNumBooks(numBooks));
      }
      var books := GetBooks();
      var allPicks := FilterEditorPicks(books);
      ListingEditorPicks(bookMap, books);
      var tobePicked := ChooseIndices(|allPicks|, numBooks, draws);
      var listEditorPicks, _ := CopyChosen(allPicks, tobePicked);
      return Ok(listEditorPicks);
    }

    /** getTopRatedBooks is not implemented and always fails. */
    method GetTopRatedBooks(numBooks: int) returns (r: Result<seq<Book>>)
      ensures r == Err(NotImplemented)
    {
      return Err(NotImplemented);
    }

    /** getBooksInDemand is not implemented and always fails. */
    method GetBooksInDemand() returns (r: Result<seq<StockBook>>)
      ensures r == Err(NotImplemented)
    {
      return Err(NotImplemented);
    }

    /** rateBooks is not implemented and always fails. */
    method RateBooks(bookRating: Option<seq<BookRating>>) returns (s: Status)
      ensures s == Failure(NotImplemented)
    {
      return Failure(NotImplemented);
    }
  }

  /** getEditorPicks' first loop: keep the books flagged as editor picks. */
  method FilterEditorPicks(books: seq<StockBook>) returns (picks: seq<StockBook>)
    ensures picks == EditorPicksOf(books)
  {
    picks := [];
    var i := 0;
    while i < |books|
      invariant 0 <= i <= |books|
      invariant picks == EditorPicksOf(books[..i])
    {
      assert books[..i + 1][..i] == books[..i];
      if books[i].editorPick {
        picks := picks + [books[i]];
      }
      i := i + 1;
    }
    assert books[..|books|] == books;
  }

  /**
   * getEditorPicks' index choice: every index when numBooks covers the
   * range, otherwise the draws, in order, until numBooks distinct ones
   * have been seen.
   */
  method ChooseIndices(range: nat, numBooks: nat, draws: seq<int>) returns (chosen: set<int>)
    requires numBooks < range ==>
      (forall j :: 0 <= j < |draws| ==> 0 <= draws[j] < range) && numBooks <= |DrawSet(draws)|
    ensures forall x :: x in chosen ==> 0 <= x < range
    ensures |chosen| == Min(numBooks, range)
  {
    chosen := {};
    if range <= numBooks {
      var i := 0;
      while i < range
        invariant 0 <= i <= range
        invariant forall x :: x in chosen <==> 0 <= x < i
        invariant |chosen| == i
      {
        assert i !in chosen;
        chosen := chosen + {i};
        i := i + 1;
      }
    } else {
      var d := 0;
      while |chosen| < numBooks
        invariant 0 <= d <= |draws|
        invariant chosen == DrawSet(draws[..d])
        invariant |chosen| <= numBooks
        decreases |draws| - d
      {
        assert draws[..|draws|] == draws;
        assert d < |draws|;
        assert DrawSet(draws[..d + 1]) == DrawSet(draws[..d]) + {draws[d]} by {
          assert forall j :: 0 <= j < d ==> draws[..d + 1][j] == draws[..d][j];
        }
        chosen := chosen + {draws[d]};
        d := d + 1;
      }
      assert forall x :: x in chosen ==> x in DrawSet(draws);
    }
  }

  /**
   * getEditorPicks' last loop: the customer's view of the book at each
   * chosen index, in the order the loop visits the indices (order).
   */
  method CopyChosen(picks: seq<StockBook>, chosen: set<int>) returns (r: seq<Book>, order: seq<int>)
    requires forall x :: x in chosen ==> 0 <= x < |picks|
    requires DistinctBookIsbns(picks)
    ensures |r| == |order| == |chosen|
    ensures forall i :: 0 <= i < |order| ==> order[i] in chosen && 0 <= order[i] < |picks|
    ensures forall i :: 0 <= i < |r| ==> r[i] == CustomerView(picks[order[i]])
    ensures forall i, j :: 0 <= i < j < |r| ==> r[i].isbn != r[j].isbn
  {
    r := [];
    order := [];
    var remaining := chosen;
    while |remaining| > 0
      invariant remaining <= chosen
      invariant |r| + |remaining| == |chosen|
      invariant |order| == |r|
      invariant forall i :: 0 <= i < |r| ==>
        order[i] in chosen && order[i] !in remaining && r[i] == CustomerView(picks[order[i]])
      invariant forall i, j :: 0 <= i < j < |r| ==> r[i].isbn != r[j].isbn
      decreases remaining
    {
      NonEmptyHasElement(remaining);
      var x :| x in remaining;
      assert forall i :: 0 <= i < |r| ==> order[i] != x;
      order := order + [x];
      r := r + [CustomerView(picks[x])];
      remaining := remaining - {x};
    }
  }
}
