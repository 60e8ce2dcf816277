/**
 * The random books the workload tools generate: each class that makes them
 * (BookSetGenerator, CertainWorkload) has its own static ISBN counter
 * and the same makeRandomBook, which turns a fresh ISBN and a handful of
 * random draws into a stock book.
 */
module RandomBooks {
  import opened BookStoreTypes
  import opened StoreSpec

  /** randomInt(min, max) is ThreadLocalRandom's nextInt(min, max): a value in [min, max). */
  predicate Drawn(x: int, min: int, max: int)
  {
    min <= x < max
  }

  /**
   * The random values makeRandomBook draws, in order: the title and the
   * author (randomString), the price, the copies, the sale misses, the
   * times rated, the total rating (used only when the times rated is
   * positive) and the editor-pick draw.
   */
  datatype BookDraws = BookDraws(
    title: string, author: string, price: real,
    copies: int, misses: int, rated: int, rating: int, pick: int)

  /**
   * Draws as the random sources produce them: randomString gives a
   * non-empty string, randomFloat(5, 100) a price in [5, 100), and each
   * randomInt a value in its range.
   */
  predicate WellDrawn(d: BookDraws)
  {
    && |d.title| > 0 && |d.author| > 0
    && 5.0 <= d.price < 100.0
    && Drawn(d.copies, 1, 10) && Drawn(d.misses, 0, 10) && Drawn(d.rated, 0, 10)
    && Drawn(d.rating, 0, 5) && Drawn(d.pick, 0, 9)
  }

  /**
   * makeRandomBook, given its ISBN and its draws: 1 to 9 copies, 0 to 9 sale
   * misses and times rated, a total rating of 0 unless the book was rated
   * and below 5 in any case, and an editor pick exactly when the pick draw
   * is 0. Such a book with a positive ISBN passes addBooks' checks.
   */
  function RandomBook(isbn: ISBN, d: BookDraws): (b: StockBook)
    ensures b.isbn == isbn
    ensures WellDrawn(d) ==>
      && 1 <= b.numCopies < 10 && 0 <= b.saleMisses < 10 && 0 <= b.timesRated < 10
      && 0 <= b.totalRating < 5 && (b.timesRated == 0 ==> b.totalRating == 0)
    ensures b.editorPick <==> d.pick == 0
    ensures WellDrawn(d) && isbn >= 1 ==> !IsInvalidBook(b)
  {
    var rating := if d.rated > 0 then d.rating else 0;
    StockBook(isbn, d.title, d.author, d.price, d.copies, d.misses, d.rated, rating, d.pick == 0)
  }

  /**
   * The books made with consecutive ISBNs from start on, the i-th from the
   * i-th draws: count books, no ISBN twice.
   */
  function RandomBatch(start: ISBN, draws: nat -> BookDraws, count: nat): (r: seq<StockBook>)
    ensures |r| == count && forall i :: 0 <= i < count ==> r[i].isbn == start + i
    ensures DistinctBookIsbns(r)
  {
    var r := seq(count, i requires 0 <= i < count => RandomBook(start + i, draws(i)));
    assert forall i :: 0 <= i < count ==> r[i] == RandomBook(start + i, draws(i)) && r[i].isbn == start + i;
    r
  }

  /**
   * When start is positive and the draws are well formed, addBooks on an
   * empty catalog accepts a batch of random books and leaves exactly its
   * ISBNs, start to start + count - 1, in the catalog.
   */
  lemma RandomBatchLoadsEmptyCatalog(start: ISBN, draws: nat -> BookDraws, count: nat)
    requires start >= 1
    requires forall i :: 0 <= i < count ==> WellDrawn(draws(i))
    ensures AddBooksOp(map[], Some(RandomBatch(start, draws, count))).1 == Success
    ensures forall k :: k in AddBooksOp(map[], Some(RandomBatch(start, draws, count))).0 <==> start <= k < start + count
  {
    var batch := RandomBatch(start, draws, count);
    forall k | start <= k < start + count
      ensures k in BookIsbns(batch)
    {
      assert batch[k - start].isbn == k;
    }
  }

  /** A static NEXT_ISBN counter and its getNextISBN: it hands out 1, 2, 3, ... */
  class IsbnCounter {
    /** The ISBN the next call hands out. */
    var next: ISBN

    ghost predicate Valid()
      reads this
    {
      next >= 1
    }

    constructor()
      ensures Valid() && next == 1
    {
      next := 1;
    }

    /** getNextISBN: the current value, then the counter moves on by one. */
    method GetNextIsbn() returns (isbn: ISBN)
      requires Valid()
      modifies this
      ensures Valid()
      ensures isbn == old(next) && next == old(next) + 1
    {
      isbn := next;
      next := next + 1;
    }
  }

  /** makeRandomBook: a random book with the counter's next ISBN. */
  method MakeRandomBook(counter: IsbnCounter, d: BookDraws) returns (b: StockBook)
    requires counter.Valid()
    modifies counter
    ensures counter.Valid() && counter.next == old(counter.next) + 1
    ensures b == RandomBook(old(counter.next), d)
  {
    var isbn := counter.GetNextIsbn();
    b := RandomBook(isbn, d);
  }

  /**
   * The loop both classes use to fill a set with count random books, the
   * i-th from the i-th draws: the books carry the counter's next count
   * ISBNs, each once.
   */
  method MakeRandomBooks(counter: IsbnCounter, count: nat, draws: nat -> BookDraws) returns (books: seq<StockBook>)
    requires counter.Valid()
    modifies counter
    ensures counter.Valid() && counter.next == old(counter.next) + count
    ensures books == RandomBatch(old(counter.next), draws, count)
  {
    books := [];
    var i := 0;
    while i < count
      invariant 0 <= i <= count
      invariant counter.Valid() && counter.next == old(counter.next) + i
      invariant books == RandomBatch(old(counter.next), draws, i)
    {
      var b := MakeRandomBook(counter, draws(i));
      books := books + [b];
      i := i + 1;
    }
  }
}
