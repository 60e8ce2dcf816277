/**
 * A workload worker (Worker): it runs warm-up and then measured
 * interactions, each chosen by a random draw against the configured
 * thresholds, and counts the ones that succeed; and the three interactions
 * themselves, against the store and the book set generator.
 */
module Workers {
  import opened BookStoreTypes
  import opened StoreSpec
  import opened CertainStore
  import opened BookSetGeneration

  /** What a worker reports (WorkerRunResult). */
  datatype WorkerRunResult = WorkerRunResult(
    successfulInteractions: int,
    elapsedTimeInNanoSecs: int,
    totalRuns: int,
    successfulFrequentBookStoreInteractionRuns: int,
    totalFrequentBookStoreInteractionRuns: int)

  /** The numbers a worker reads from its WorkloadConfiguration. */
  datatype WorkloadConfiguration = WorkloadConfiguration(
    percentRareStockManagerInteraction: real,
    percentFrequentStockManagerInteraction: real,
    warmUpRuns: int,
    numActualRuns: int,
    numBooksToAdd: int,
    numBooksWithLeastCopies: int,
    numEditorPicksToGet: int,
    numBooksToBuy: int,
    numBookCopiesToBuy: int)

  // ------------------------------------------------------- choosing and counting

  datatype Interaction = RareStockManager | FrequentStockManager | FrequentBookStore

  /**
   * runInteraction's choice: the rare stock-manager interaction below the
   * first threshold, the frequent one below the second, the customer
   * interaction otherwise.
   */
  function ChooseInteraction(choice: real, percentRare: real, percentFrequentStock: real): (r: Interaction)
    ensures r == RareStockManager <==> choice < percentRare
    ensures r == FrequentStockManager <==> percentRare <= choice < percentFrequentStock
    ensures r == FrequentBookStore <==> percentRare <= choice && percentFrequentStock <= choice
  {
    if choice < percentRare then RareStockManager
    else if choice < percentFrequentStock then FrequentStockManager
    else FrequentBookStore
  }

  /**
   * The exceptions that runInteraction does not catch: everything but a
   * BookStoreException, that is a NetworkException and the Java runtime
   * exceptions.
   */
  predicate Escapes(e: Error)
  {
    e.NetworkError? || e.NullReference? || e.PayloadMismatch? || e.DivisionByZero? || e.IndexOutOfBounds?
  }

  /**
   * What runInteraction makes of an interaction's status: Ok(true) when it
   * returns normally, Ok(false) when it throws a BookStoreException, and the
   * error itself when the exception escapes.
   */
  function Outcome(s: Status): (r: Result<bool>)
    ensures r == Ok(true) <==> s == Success
    ensures r == Ok(false) <==> s.Failure? && !Escapes(s.error)
    ensures r.Err? <==> s.Failure? && Escapes(s.error)
    ensures r.Err? ==> r.error == s.error
  {
    match s
    case Success => Ok(true)
    case Failure(e) => if Escapes(e) then Err(e) else Ok(false)
  }

  /** How many runs succeeded, how many chose the customer interaction, and how many of those succeeded. */
  datatype Tally = Tally(successful: nat, frequentTotal: nat, frequentSuccessful: nat)

  /** The tally of a sequence of runs, given each run's interaction and outcome. */
  function Count(chosen: seq<Interaction>, outcomes: seq<Result<bool>>): Tally
    requires |chosen| == |outcomes|
    decreases |chosen|
  {
    if chosen == [] then Tally(0, 0, 0)
    else
      var n := |chosen| - 1;
      var t := Count(chosen[..n], outcomes[..n]);
      var frequent := chosen[n] == FrequentBookStore;
      var ok := outcomes[n] == Ok(true);
      Tally(
        t.successful + (if ok then 1 else 0),
        t.frequentTotal + (if frequent then 1 else 0),
        t.frequentSuccessful + (if frequent && ok then 1 else 0))
  }

  /**
   * Of k runs at most k succeed; the successful customer interactions are
   * at most the customer interactions, and at most the successful runs.
   */
  lemma {:induction false} CountBounds(chosen: seq<Interaction>, outcomes: seq<Result<bool>>)
    requires |chosen| == |outcomes|
    ensures Count(chosen, outcomes).successful <= |chosen|
    ensures Count(chosen, outcomes).frequentSuccessful <= Count(chosen, outcomes).frequentTotal <= |chosen|
    ensures Count(chosen, outcomes).frequentSuccessful <= Count(chosen, outcomes).successful
    decreases |chosen|
  {
    if chosen != [] {
      var n := |chosen| - 1;
      CountBounds(chosen[..n], outcomes[..n]);
    }
  }

  /** When every run is a customer interaction, every run and every success is counted as one. */
  lemma {:induction false} CountAllCustomer(chosen: seq<Interaction>, outcomes: seq<Result<bool>>)
    requires |chosen| == |outcomes|
    requires forall j :: 0 <= j < |chosen| ==> chosen[j] == FrequentBookStore
    ensures Count(chosen, outcomes).frequentTotal == |chosen|
    ensures Count(chosen, outcomes).frequentSuccessful == Count(chosen, outcomes).successful
    decreases |chosen|
  {
    if chosen != [] {
      var n := |chosen| - 1;
      CountAllCustomer(chosen[..n], outcomes[..n]);
    }
  }

  /** Appending one run to a sequence of runs adds that run to the tally. */
  lemma CountAppend(chosen: seq<Interaction>, outcomes: seq<Result<bool>>, c: Interaction, o: Result<bool>)
    requires |chosen| == |outcomes|
    ensures var t := Count(chosen, outcomes);
      var frequent := c == FrequentBookStore;
      Count(chosen + [c], outcomes + [o]) == Tally(
        t.successful + (if o == Ok(true) then 1 else 0),
        t.frequentTotal + (if frequent then 1 else 0),
        t.frequentSuccessful + (if frequent && o == Ok(true) then 1 else 0))
  {
    assert (chosen + [c])[..|chosen|] == chosen;
    assert (outcomes + [o])[..|outcomes|] == outcomes;
  }

  /** No run so far let an exception escape. */
  ghost predicate AllReturned(outcomes: seq<Result<bool>>)
  {
    forall i :: 0 <= i < |outcomes| ==> outcomes[i].Ok?
  }

  lemma AllReturnedAppend(outcomes: seq<Result<bool>>, o: Result<bool>)
    requires AllReturned(outcomes) && o.Ok?
    ensures AllReturned(outcomes + [o])
  {
  }

  /**
   * Appending one run to a record keeps the record's first lo runs and adds
   * that run to the tally of the runs from the lo-th on.
   */
  lemma CountFromAppend(chosen: seq<Interaction>, outcomes: seq<Result<bool>>, lo: nat, c: Interaction, o: Result<bool>)
    requires |chosen| == |outcomes| && lo <= |chosen|
    ensures (chosen + [c])[..lo] == chosen[..lo] && (outcomes + [o])[..lo] == outcomes[..lo]
    ensures var t := Count(chosen[lo..], outcomes[lo..]);
      var frequent := c == FrequentBookStore;
      Count((chosen + [c])[lo..], (outcomes + [o])[lo..]) == Tally(
        t.successful + (if o == Ok(true) then 1 else 0),
        t.frequentTotal + (if frequent then 1 else 0),
        t.frequentSuccessful + (if frequent && o == Ok(true) then 1 else 0))
  {
    assert (chosen + [c])[lo..] == chosen[lo..] + [c];
    assert (outcomes + [o])[lo..] == outcomes[lo..] + [o];
    CountAppend(chosen[lo..], outcomes[lo..], c, o);
  }

  /**
   * The editor-pick draws a customer interaction needs against a catalog:
   * when fewer picks are asked for than there are, every draw is an index
   * of a pick and the draws name enough distinct ones.
   */
  predicate PicksDrawable(m: Catalog, numPicks: int, draws: seq<int>)
  {
    var available := |EditorPickIsbns(m)|;
    0 <= numPicks < available ==>
      (forall j :: 0 <= j < |draws| ==> 0 <= draws[j] < available) && numPicks <= |DrawSet(draws)|
  }

  function Max0(n: int): nat
  {
    if n > 0 then n else 0
  }

  // ------------------------------------------------------------ interactions

  /** The books of a list whose ISBN is not in a set, in list order. */
  function WithoutIsbns(books: seq<StockBook>, isbns: set<ISBN>): (r: seq<StockBook>)
    ensures |r| <= |books|
    ensures forall b :: b in r <==> b in books && b.isbn !in isbns
  {
    if books == [] then []
    else
      var last := books[|books| - 1];
      var init := books[..|books| - 1];
      assert forall b :: b in init ==> b in books;
      WithoutIsbns(init, isbns) + if last.isbn in isbns then [] else [last]
  }

  /** Filtering books with distinct ISBNs leaves books with distinct ISBNs. */
  lemma {:induction false} WithoutIsbnsKeepsDistinct(books: seq<StockBook>, isbns: set<ISBN>)
    requires DistinctBookIsbns(books)
    ensures DistinctBookIsbns(WithoutIsbns(books, isbns))
  {
    if books != [] {
      var last := books[|books| - 1];
      var init := books[..|books| - 1];
      WithoutIsbnsKeepsDistinct(init, isbns);
      forall b | b in WithoutIsbns(init, isbns)
        ensures b.isbn != last.isbn
      {
        var i :| 0 <= i < |init| && init[i] == b;
        assert books[i] == b;
      }
    }
  }

  /**
   * Adding books taken from a listing of the store changes nothing: every
   * such book's ISBN is already in the catalog, so a non-empty batch is
   * rejected and an empty one adds nothing.
   */
  lemma AddingListedBooksChangesNothing(m: Catalog, listing: seq<StockBook>, batch: seq<StockBook>)
    requires IsListingOf(m, listing)
    requires forall b :: b in batch ==> b in listing
    ensures AddBooksOp(m, Some(batch)).0 == m
    ensures batch != [] ==> AddBooksOp(m, Some(batch)).1.Failure?
    ensures batch == [] ==> AddBooksOp(m, Some(batch)).1 == Success
  {
    if batch != [] {
      assert batch[0] in listing;
      assert batch[0].isbn in m;
    } else {
      var r := AddBooksOp(m, Some(batch));
      assert r.1.Success?;
      assert r.0.Keys == m.Keys;
    }
  }

  /**
   * As written, the rare interaction never adds a book: its batch is the
   * listed books whose ISBN was not generated, taken from the store's own
   * listing, so addBooks rejects it whenever it is
   * non-empty, and the catalog stays as it was.
   */
  lemma BooksNotFoundAddsNothing(m: Catalog, listing: seq<StockBook>, generated: seq<StockBook>)
    requires IsListingOf(m, listing)
    ensures AddBooksOp(m, Some(WithoutIsbns(listing, BookIsbns(generated)))).0 == m
    ensures WithoutIsbns(listing, BookIsbns(generated)) != [] ==> AddBooksOp(m, Some(WithoutIsbns(listing, BookIsbns(generated)))).1.Failure?
  {
    AddingListedBooksChangesNothing(m, listing, WithoutIsbns(listing, BookIsbns(generated)));
  }

  /**
   * So the as-written batch is empty only when every book of the store
   * carries the ISBN of a generated book, and so of one of the generator's
   * books.
   */
  lemma EmptyBooksNotFoundCoversStore(m: Catalog, listing: seq<StockBook>, generated: seq<StockBook>,
                                      books: seq<StockBook>)
    requires IsListingOf(m, listing) && forall b :: b in generated ==> b in books
    requires WithoutIsbns(listing, BookIsbns(generated)) == []
    ensures forall k :: k in m ==> k in BookIsbns(books)
  {
    forall k | k in m
      ensures k in BookIsbns(books)
    {
      var i :| 0 <= i < |listing| && listing[i].isbn == k;
      assert listing[i] !in WithoutIsbns(listing, BookIsbns(generated));
      var g :| 0 <= g < |generated| && generated[g].isbn == k;
      assert generated[g] in books;
      var h :| 0 <= h < |books| && books[h] == generated[g];
    }
  }

  /**
   * The intended batch goes in: for valid generated books, addBooks accepts
   * the generated books whose ISBN the listing lacks, and afterwards every
   * generated ISBN is in the catalog, with the old records unchanged.
   */
  lemma GeneratedBooksNotFoundAreAdded(m: Catalog, listing: seq<StockBook>, generated: seq<StockBook>)
    requires IsListingOf(m, listing)
    requires forall b :: b in generated ==> !IsInvalidBook(b)
    ensures AddBooksOp(m, Some(WithoutIsbns(generated, BookIsbns(listing)))).1 == Success
    ensures forall b :: b in generated ==> b.isbn in AddBooksOp(m, Some(WithoutIsbns(generated, BookIsbns(listing)))).0
    ensures forall k :: k in m ==> AddBooksOp(m, Some(WithoutIsbns(generated, BookIsbns(listing)))).0[k] == m[k]
  {
    var batch := WithoutIsbns(generated, BookIsbns(listing));
    forall k | k in m
      ensures k in BookIsbns(listing)
    {
      var i :| 0 <= i < |listing| && listing[i].isbn == k;
    }
    forall i | 0 <= i < |batch|
      ensures !IsInvalidBook(batch[i]) && batch[i].isbn !in m
    {
      assert batch[i] in batch;
    }
    forall b | b in generated
      ensures b.isbn in BookIsbns(listing) || b.isbn in BookIsbns(batch)
    {
      if b.isbn !in BookIsbns(listing) {
        assert b in batch;
        var i :| 0 <= i < |batch| && batch[i] == b;
      }
    }
    forall k | k in BookIsbns(listing)
      ensures k in m
    {
      var i :| 0 <= i < |listing| && listing[i].isbn == k;
    }
  }

  /** The comparator of the frequent interaction: more copies sort first. */
  function CompareByCopies(a: StockBook, b: StockBook): (r: int)
    ensures r < 0 <==> a.numCopies > b.numCopies
    ensures r > 0 <==> a.numCopies < b.numCopies
  {
    if a.numCopies < b.numCopies then 1
    else if a.numCopies > b.numCopies then -1
    else 0
  }

  predicate NonIncreasingCopies(books: seq<StockBook>)
  {
    forall i, j :: 0 <= i < j < |books| ==> books[i].numCopies >= books[j].numCopies
  }

  /** A book with at least the copies of a sorted list's first book can go in front of it. */
  lemma ConsNonIncreasing(x: StockBook, rest: seq<StockBook>)
    requires NonIncreasingCopies(rest)
    requires rest != [] ==> x.numCopies >= rest[0].numCopies
    ensures NonIncreasingCopies([x] + rest)
  {
    forall i, j | 0 <= i < j < |[x] + rest|
      ensures ([x] + rest)[i].numCopies >= ([x] + rest)[j].numCopies
    {
      if i == 0 {
        assert ([x] + rest)[j] == rest[j - 1];
        assert rest[0].numCopies >= rest[j - 1].numCopies;
      }
    }
  }

  /** Insert a book into a sorted list after every book it does not sort before. */
  function InsertByCopies(b: StockBook, sorted: seq<StockBook>): (r: seq<StockBook>)
    requires NonIncreasingCopies(sorted)
    ensures multiset(r) == multiset(sorted) + multiset{b}
    ensures |r| == |sorted| + 1 && (r[0] == b || (|sorted| > 0 && r[0] == sorted[0]))
    ensures NonIncreasingCopies(r)
  {
    if sorted == [] then [b]
    else if CompareByCopies(b, sorted[0]) < 0 then
      ConsNonIncreasing(b, sorted);
      [b] + sorted
    else
      assert sorted == [sorted[0]] + sorted[1..];
      var rest := InsertByCopies(b, sorted[1..]);
      ConsNonIncreasing(sorted[0], rest);
      [sorted[0]] + rest
  }

  /** Collections.sort with CompareByCopies: the books ordered by non-increasing copies, a permutation of the list. */
  function SortByCopies(books: seq<StockBook>): (r: seq<StockBook>)
    ensures multiset(r) == multiset(books)
    ensures NonIncreasingCopies(r)
  {
    if books == [] then []
    else
      var init := books[..|books| - 1];
      assert books == init + [books[|books| - 1]];
      InsertByCopies(books[|books| - 1], SortByCopies(init))
  }

  /** In a list sorted by non-increasing copies, each of the first k books has at least as many copies as any later one. */
  lemma SortedPrefixDominates(sorted: seq<StockBook>, k: int)
    requires NonIncreasingCopies(sorted) && 0 <= k <= |sorted|
    ensures multiset(sorted[..k]) <= multiset(sorted)
    ensures forall b, c :: b in sorted[..k] && c in multiset(sorted) - multiset(sorted[..k]) ==> b.numCopies >= c.numCopies
  {
    assert sorted == sorted[..k] + sorted[k..];
    assert multiset(sorted) == multiset(sorted[..k]) + multiset(sorted[k..]);
    forall b, c | b in sorted[..k] && c in multiset(sorted) - multiset(sorted[..k])
      ensures b.numCopies >= c.numCopies
    {
      assert c in sorted[k..];
      var i :| 0 <= i < k && sorted[i] == b;
      var j :| k <= j < |sorted| && sorted[j] == c;
    }
  }

  /**
   * runFrequentStockManagerInteraction's batch: the first k books of the
   * sorted list (subList(0, k), which throws unless 0 <= k <= |books|),
   * so k of the books, each with at least as many copies as any book left
   * out.
   */
  function MostStockedBooks(books: seq<StockBook>, k: int): (r: Result<seq<StockBook>>)
    ensures r.Ok? <==> 0 <= k <= |books|
    ensures r.Err? ==> r.error == IndexOutOfBounds
    ensures r.Ok? ==> |r.value| == k && multiset(r.value) <= multiset(books)
    ensures r.Ok? ==> forall b :: b in r.value ==> b in books
    ensures r.Ok? ==> forall b, c :: b in r.value && c in multiset(books) - multiset(r.value) ==> b.numCopies >= c.numCopies
  {
    if 0 <= k <= |books| then
      var sorted := SortByCopies(books);
      assert |sorted| == |multiset(sorted)| == |books|;
      SortedPrefixDominates(sorted, k);
      assert forall b :: b in sorted[..k] ==> b in multiset(books);
      Ok(sorted[..k])
    else Err(IndexOutOfBounds)
  }

  /** A book whose ISBN a list lacks can go in front of it without repeating an ISBN. */
  lemma ConsDistinctIsbns(b: StockBook, rest: seq<StockBook>)
    requires DistinctBookIsbns(rest) && forall c :: c in rest ==> c.isbn != b.isbn
    ensures DistinctBookIsbns([b] + rest)
  {
    forall i, j | 0 <= i < j < |[b] + rest|
      ensures ([b] + rest)[i].isbn != ([b] + rest)[j].isbn
    {
      assert ([b] + rest)[j] == rest[j - 1];
    }
  }

  /** Inserting a book whose ISBN a sorted list lacks keeps the ISBNs distinct. */
  lemma {:induction false} InsertKeepsDistinctIsbns(b: StockBook, sorted: seq<StockBook>)
    requires NonIncreasingCopies(sorted) && DistinctBookIsbns(sorted)
    requires forall c :: c in sorted ==> c.isbn != b.isbn
    ensures DistinctBookIsbns(InsertByCopies(b, sorted))
    decreases |sorted|
  {
    if sorted == [] || CompareByCopies(b, sorted[0]) < 0 {
      ConsDistinctIsbns(b, sorted);
    } else {
      var rest := sorted[1..];
      assert forall c :: c in rest ==> c in sorted;
      InsertKeepsDistinctIsbns(b, rest);
      var r := InsertByCopies(b, rest);
      assert forall c :: c in r ==> c in multiset(rest) + multiset{b};
      ConsDistinctIsbns(sorted[0], r);
    }
  }

  /** Sorting books with distinct ISBNs keeps the ISBNs distinct. */
  lemma {:induction false} SortKeepsDistinctIsbns(books: seq<StockBook>)
    requires DistinctBookIsbns(books)
    ensures DistinctBookIsbns(SortByCopies(books))
    decreases |books|
  {
    if books != [] {
      var init := books[..|books| - 1];
      var last := books[|books| - 1];
      SortKeepsDistinctIsbns(init);
      var sorted := SortByCopies(init);
      assert forall c :: c in sorted ==> c in multiset(init);
      InsertKeepsDistinctIsbns(last, sorted);
    }
  }

  /**
   * In a sorted permutation of a list, each of the last k books is in the
   * list and has at most the copies of any book of the list before them.
   */
  lemma SortedSuffixDominated(sorted: seq<StockBook>, books: seq<StockBook>, k: int)
    requires NonIncreasingCopies(sorted) && multiset(sorted) == multiset(books) && 0 <= k <= |books|
    ensures |sorted| == |books|
    ensures var last := sorted[|books| - k..];
      && |last| == k && multiset(last) <= multiset(books)
      && (forall b :: b in last ==> b in books)
      && (forall b, c :: b in last && c in multiset(books) - multiset(last) ==> b.numCopies <= c.numCopies)
  {
    assert |sorted| == |multiset(sorted)| == |books|;
    var j := |books| - k;
    assert sorted == sorted[..j] + sorted[j..];
    assert multiset(sorted) == multiset(sorted[..j]) + multiset(sorted[j..]);
    forall b | b in sorted[j..] ensures b in books {
      assert b in multiset(sorted);
    }
    forall b, c | b in sorted[j..] && c in multiset(books) - multiset(sorted[j..])
      ensures b.numCopies <= c.numCopies
    {
      assert c in sorted[..j];
      var i :| j <= i < |sorted| && sorted[i] == b;
      var i' :| 0 <= i' < j && sorted[i'] == c;
    }
  }

  /**
   * The batch that numBooksWithLeastCopies names: the last k books of the
   * sorted list, so k of the books, each with at most as many copies as
   * any book left out.
   */
  function LeastStockedBooks(books: seq<StockBook>, k: int): (r: Result<seq<StockBook>>)
    ensures r.Ok? <==> 0 <= k <= |books|
    ensures r.Err? ==> r.error == IndexOutOfBounds
    ensures r.Ok? ==> |r.value| == k && multiset(r.value) <= multiset(books)
    ensures r.Ok? ==> forall b :: b in r.value ==> b in books
    ensures r.Ok? ==> forall b, c :: b in r.value && c in multiset(books) - multiset(r.value) ==> b.numCopies <= c.numCopies
  {
    if 0 <= k <= |books| then
      var sorted := SortByCopies(books);
      SortedSuffixDominated(sorted, books, k);
      Ok(sorted[|books| - k..])
    else Err(IndexOutOfBounds)
  }

  /** addCopies' batch for a list of books: n more copies of each. */
  function Restock(books: seq<StockBook>, n: int): (r: seq<BookCopy>)
    ensures |r| == |books| && forall i :: 0 <= i < |books| ==> r[i] == BookCopy(books[i].isbn, n)
  {
    seq(|books|, i requires 0 <= i < |books| => BookCopy(books[i].isbn, n))
  }

  /**
   * addCopies of n >= 1 copies of each of some listed books with distinct
   * ISBNs succeeds, gives each of them n more copies and leaves every
   * other book as it was.
   */
  lemma RestockListedBooks(m: Catalog, listing: seq<StockBook>, batch: seq<StockBook>, n: int)
    requires IsListingOf(m, listing) && (forall i :: i in m ==> !IsInvalidIsbn(i))
    requires (forall b :: b in batch ==> b in listing) && DistinctBookIsbns(batch) && n >= 1
    ensures var r := AddCopiesOp(m, Some(Restock(batch, n)));
      && r.1 == Success
      && (forall b :: b in batch ==> r.0[b.isbn].numCopies == m[b.isbn].numCopies + n)
      && (forall i :: i in m && i !in BookIsbns(batch) ==> r.0[i] == m[i])
  {
    var copies := Restock(batch, n);
    assert DistinctCopyIsbns(copies);
    forall i | 0 <= i < |copies| ensures CopiesEntryOk(m, copies[i]) {
      assert batch[i] in listing;
    }
    var r := AddCopiesOp(m, Some(copies));
    assert r.1 == Success;
    forall b | b in batch
      ensures r.0[b.isbn].numCopies == m[b.isbn].numCopies + n
    {
      var i :| 0 <= i < |batch| && batch[i] == b;
      assert copies[i].isbn == b.isbn && b.isbn in m;
      DemandOfDistinct(copies, i);
    }
    forall i | i in m && i !in BookIsbns(batch)
      ensures r.0[i] == m[i]
    {
      DemandOfAbsent(copies, i);
    }
  }

  /**
   * The frequent stock-manager interaction as its configuration means it:
   * adding n >= 1 copies of each of the k least-stocked books of a store's
   * listing with addCopies succeeds, gives each of them n more copies and
   * leaves every other book as it was.
   */
  lemma LeastStockedBooksAreRestocked(m: Catalog, listing: seq<StockBook>, k: int, n: int)
    requires IsListingOf(m, listing) && (forall i :: i in m ==> !IsInvalidIsbn(i))
    requires 0 <= k <= |listing| && n >= 1
    ensures var batch := LeastStockedBooks(listing, k).value;
      var r := AddCopiesOp(m, Some(Restock(batch, n)));
      && r.1 == Success
      && (forall b :: b in batch ==> r.0[b.isbn].numCopies == m[b.isbn].numCopies + n)
      && (forall i :: i in m && i !in BookIsbns(batch) ==> r.0[i] == m[i])
  {
    var sorted := SortByCopies(listing);
    var batch := LeastStockedBooks(listing, k).value;
    assert batch == sorted[|sorted| - k..];
    SortKeepsDistinctIsbns(listing);
    RestockListedBooks(m, listing, batch, n);
  }

  /**
   * runFrequentBookStoreInteraction's purchase: the first n editor picks
   * (subList(0, n), which throws unless 0 <= n <= |picks|), each asked for
   * with the configured number of copies.
   */
  function Purchase(picks: seq<Book>, n: int, copies: int): (r: Result<seq<BookCopy>>)
    ensures r.Ok? <==> 0 <= n <= |picks|
    ensures r.Err? ==> r.error == IndexOutOfBounds
    ensures r.Ok? ==> |r.value| == n && forall i :: 0 <= i < n ==> r.value[i] == BookCopy(picks[i].isbn, copies)
  {
    if 0 <= n <= |picks| then Ok(seq(n, i requires 0 <= i < n => BookCopy(picks[i].isbn, copies)))
    else Err(IndexOutOfBounds)
  }

  /** Picks with distinct ISBNs give a purchase with distinct ISBNs. */
  lemma PurchaseOfDistinctPicks(picks: seq<Book>, n: int, copies: int)
    requires forall i, j :: 0 <= i < j < |picks| ==> picks[i].isbn != picks[j].isbn
    requires 0 <= n <= |picks|
    ensures DistinctCopyIsbns(Purchase(picks, n, copies).value)
    ensures CopyIsbns(Purchase(picks, n, copies).value) <= set i | 0 <= i < |picks| :: picks[i].isbn
  {
  }

  /** The loop that builds the rare interaction's batch: keep the store's books whose ISBN was not drawn. */
  method SelectNotListed(storeBooks: seq<StockBook>, drawnIsbns: set<ISBN>) returns (booksNotFound: seq<StockBook>)
    ensures booksNotFound == WithoutIsbns(storeBooks, drawnIsbns)
  {
    booksNotFound := [];
    var i := 0;
    while i < |storeBooks|
      invariant 0 <= i <= |storeBooks|
      invariant booksNotFound == WithoutIsbns(storeBooks[..i], drawnIsbns)
    {
      assert storeBooks[..i + 1][..i] == storeBooks[..i];
      if storeBooks[i].isbn !in drawnIsbns {
        booksNotFound := booksNotFound + [storeBooks[i]];
      }
      i := i + 1;
    }
    assert storeBooks[..|storeBooks|] == storeBooks;
  }

  // ------------------------------------------------------------------ worker

  class Worker {
    const configuration: WorkloadConfiguration
    /** The configuration's stock manager, book store and book set generator, each possibly null. */
    const stockManager: ConcurrentCertainBookStore?
    const bookStore: ConcurrentCertainBookStore?
    const bookSetGenerator: BookSetGenerator?
    var numSuccessfulFrequentBookStoreInteraction: int
    var numTotalFrequentBookStoreInteraction: int

    ghost predicate Valid()
      reads this, stockManager, bookStore
    {
      && (stockManager != null ==> stockManager.Valid())
      && (bookStore != null ==> bookStore.Valid())
      && (bookSetGenerator != null ==> bookSetGenerator.Valid())
    }

    constructor(config: WorkloadConfiguration, stockManager: ConcurrentCertainBookStore?,
                bookStore: ConcurrentCertainBookStore?, bookSetGenerator: BookSetGenerator?)
      ensures configuration == config && this.stockManager == stockManager
      ensures this.bookStore == bookStore && this.bookSetGenerator == bookSetGenerator
      ensures numSuccessfulFrequentBookStoreInteraction == 0 && numTotalFrequentBookStoreInteraction == 0
    {
      configuration := config;
      this.stockManager := stockManager;
      this.bookStore := bookStore;
      this.bookSetGenerator := bookSetGenerator;
      numSuccessfulFrequentBookStoreInteraction := 0;
      numTotalFrequentBookStoreInteraction := 0;
    }

    /** The interaction a draw chooses under this worker's thresholds. */
    function Choose(choice: real): Interaction
    {
      ChooseInteraction(choice, configuration.percentRareStockManagerInteraction,
        configuration.percentFrequentStockManagerInteraction)
    }

    /**
     * What the runs so far promise, given the stock manager's catalog before
     * them: each run ran the interaction its draw chooses; a frequent
     * stock-manager run returned normally exactly when there is a stock
     * manager and numBooksWithLeastCopies is 0; and a rare run returned
     * normally only with a stock manager and a generator, and, when the
     * stock manager is not also the book store, only if every book of the
     * catalog carries one of the generator's ISBNs.
     */
    ghost predicate RunsReport(choice: nat -> real, chosen: seq<Interaction>, outcomes: seq<Result<bool>>, stock: Catalog)
    {
      && |chosen| == |outcomes|
      && (forall j :: 0 <= j < |chosen| ==> chosen[j] == Choose(choice(j)))
      && (forall j :: 0 <= j < |chosen| && chosen[j] == FrequentStockManager ==>
            (outcomes[j] == Ok(true) <==> stockManager != null && configuration.numBooksWithLeastCopies == 0))
      && (forall j :: 0 <= j < |chosen| && chosen[j] == RareStockManager && outcomes[j] == Ok(true) ==>
            && stockManager != null && bookSetGenerator != null
            && (stockManager != bookStore ==> forall k :: k in stock ==> k in BookIsbns(bookSetGenerator.books)))
    }

    /**
     * runInteraction: run the interaction the draw chooses, with the
     * generator's offset draws and the book store's editor-pick draws, and
     * report its Outcome. A customer interaction is counted before it runs
     * and counted as a success only when it returns normally; the others
     * touch no counter. The stock-manager interactions never change a
     * store, and a purchase keeps the stock non-negative.
     */
    method RunInteraction(choice: real, offsetDraw: nat -> int, pickDraws: seq<int>)
      returns (r: Result<bool>, s: Status)
      requires Valid()
      requires bookStore != null ==> PicksDrawable(bookStore.bookMap, configuration.numEditorPicksToGet, pickDraws)
      modifies this, stockManager, bookStore
      ensures Valid()
      ensures r == Outcome(s)
      ensures Choose(choice) == FrequentBookStore ==>
        && numTotalFrequentBookStoreInteraction == old(numTotalFrequentBookStoreInteraction) + 1
        && numSuccessfulFrequentBookStoreInteraction ==
             old(numSuccessfulFrequentBookStoreInteraction) + (if r == Ok(true) then 1 else 0)
        && (bookStore == null ==> s == Failure(NullComponent))
        && (bookStore != null && configuration.numEditorPicksToGet < 0 ==>
              s == Failure(InvalidNumBooks(configuration.numEditorPicksToGet)))
      ensures Choose(choice) != FrequentBookStore ==>
        && numTotalFrequentBookStoreInteraction == old(numTotalFrequentBookStoreInteraction)
        && numSuccessfulFrequentBookStoreInteraction == old(numSuccessfulFrequentBookStoreInteraction)
        && (bookStore != null ==> bookStore.bookMap == old(bookStore.bookMap))
      ensures Choose(choice) == RareStockManager ==>
        && (stockManager == null || bookSetGenerator == null ==> s == Failure(NullComponent))
        && (s == Success ==>
              && stockManager != null && bookSetGenerator != null
              && forall k :: k in old(stockManager.bookMap) ==> k in BookIsbns(bookSetGenerator.books))
      ensures Choose(choice) == FrequentStockManager ==>
        && (s == Success <==> stockManager != null && configuration.numBooksWithLeastCopies == 0)
        && (stockManager != null && !(0 <= configuration.numBooksWithLeastCopies <= |old(stockManager.bookMap)|) ==>
              s == Failure(IndexOutOfBounds))
      ensures stockManager != null && stockManager != bookStore ==> stockManager.bookMap == old(stockManager.bookMap)
      ensures bookStore != null && NonNegativeStock(old(bookStore.bookMap)) ==> NonNegativeStock(bookStore.bookMap)
    {
      if choice < configuration.percentRareStockManagerInteraction {
        ghost var listing, generated;
        s, listing, generated := RunRareStockManagerInteraction(offsetDraw);
        if s == Success {
          EmptyBooksNotFoundCoversStore(old(stockManager.bookMap), listing, generated, bookSetGenerator.books);
        }
      } else if choice < configuration.percentFrequentStockManagerInteraction {
        ghost var listing;
        s, listing := RunFrequentStockManagerInteraction();
        if stockManager != null {
          ListingHasCatalogSize(old(stockManager.bookMap), listing);
        }
      } else {
        numTotalFrequentBookStoreInteraction := numTotalFrequentBookStoreInteraction + 1;
        ghost var picks;
        s, picks := RunFrequentBookStoreInteraction(pickDraws);
        if s == Success {
          numSuccessfulFrequentBookStoreInteraction := numSuccessfulFrequentBookStoreInteraction + 1;
        }
      }
      r := Outcome(s);
    }

    /**
     * One run of call's loops: draw the run's interaction and draws by its
     * index, run it and record what it reported.
     */
    method RecordRun(choice: nat -> real, offsetDraws: (nat, nat) -> int, pickDraws: (nat, Catalog) -> seq<int>,
                     run: nat, ghost chosen: seq<Interaction>, ghost outcomes: seq<Result<bool>>, ghost stock: Catalog)
      returns (out: Result<bool>, ghost chosen': seq<Interaction>, ghost outcomes': seq<Result<bool>>)
      requires Valid() && RunsReport(choice, chosen, outcomes, stock) && run == |chosen|
      requires forall j: nat, m: Catalog :: PicksDrawable(m, configuration.numEditorPicksToGet, pickDraws(j, m))
      requires stockManager != null && stockManager != bookStore ==> stockManager.bookMap == stock
      modifies this, stockManager, bookStore
      ensures Valid() && RunsReport(choice, chosen', outcomes', stock)
      ensures chosen' == chosen + [Choose(choice(|chosen|))] && outcomes' == outcomes + [out]
      ensures out.Err? ==> Escapes(out.error)
      ensures Choose(choice(|chosen|)) == FrequentBookStore ==>
        && numTotalFrequentBookStoreInteraction == old(numTotalFrequentBookStoreInteraction) + 1
        && numSuccessfulFrequentBookStoreInteraction ==
             old(numSuccessfulFrequentBookStoreInteraction) + (if out == Ok(true) then 1 else 0)
      ensures Choose(choice(|chosen|)) != FrequentBookStore ==>
        && numTotalFrequentBookStoreInteraction == old(numTotalFrequentBookStoreInteraction)
        && numSuccessfulFrequentBookStoreInteraction == old(numSuccessfulFrequentBookStoreInteraction)
      ensures stockManager != null && stockManager != bookStore ==> stockManager.bookMap == stock
      ensures bookStore != null && NonNegativeStock(old(bookStore.bookMap)) ==> NonNegativeStock(bookStore.bookMap)
    {
      var picks := if bookStore != null then pickDraws(run, bookStore.bookMap) else [];
      var s;
      out, s := RunInteraction(choice(run), (i: nat) => offsetDraws(run, i), picks);
      chosen', outcomes' := chosen + [Choose(choice(run))], outcomes + [out];
    }

    /**
     * One of call's loops: max(0, n) runs numbered on from the runs so
     * far, stopping at the first exception that escapes. It counts the runs
     * that return normally, and runInteraction counts the customer
     * interactions among them on top of the counters' old values.
     */
    method RunMany(choice: nat -> real, offsetDraws: (nat, nat) -> int, pickDraws: (nat, Catalog) -> seq<int>, n: int,
                   first: nat, ghost chosen0: seq<Interaction>, ghost outcomes0: seq<Result<bool>>, ghost stock: Catalog)
      returns (escaped: Option<Error>, successful: int, ghost chosen: seq<Interaction>, ghost outcomes: seq<Result<bool>>)
      requires Valid() && RunsReport(choice, chosen0, outcomes0, stock) && AllReturned(outcomes0) && first == |chosen0|
      requires forall j: nat, m: Catalog :: PicksDrawable(m, configuration.numEditorPicksToGet, pickDraws(j, m))
      requires stockManager != null && stockManager != bookStore ==> stockManager.bookMap == stock
      modifies this, stockManager, bookStore
      ensures Valid() && RunsReport(choice, chosen, outcomes, stock)
      ensures |chosen0| <= |chosen| <= |chosen0| + Max0(n)
      ensures chosen[..|chosen0|] == chosen0 && outcomes[..|outcomes0|] == outcomes0
      ensures escaped.None? <==> |chosen| == |chosen0| + Max0(n) && AllReturned(outcomes)
      ensures escaped.Some? ==>
        && |chosen| > |chosen0| && AllReturned(outcomes[..|outcomes| - 1])
        && outcomes[|outcomes| - 1] == Err(escaped.value) && Escapes(escaped.value)
      ensures escaped.None? ==>
        var t := Count(chosen[|chosen0|..], outcomes[|chosen0|..]);
        && successful == t.successful
        && numTotalFrequentBookStoreInteraction == old(numTotalFrequentBookStoreInteraction) + t.frequentTotal
        && numSuccessfulFrequentBookStoreInteraction == old(numSuccessfulFrequentBookStoreInteraction) + t.frequentSuccessful
      ensures stockManager != null && stockManager != bookStore ==> stockManager.bookMap == stock
      ensures bookStore != null && NonNegativeStock(old(bookStore.bookMap)) ==> NonNegativeStock(bookStore.bookMap)
    {
      var lo := first;
      chosen, outcomes := chosen0, outcomes0;
      successful := 0;
      var count := 1;
      while count <= n
        invariant 1 <= count <= Max0(n) + 1 && |chosen| == lo + count - 1
        invariant Valid() && RunsReport(choice, chosen, outcomes, stock) && AllReturned(outcomes)
        invariant chosen[..lo] == chosen0 && outcomes[..lo] == outcomes0
        invariant stockManager != null && stockManager != bookStore ==> stockManager.bookMap == stock
        invariant bookStore != null && NonNegativeStock(old(bookStore.bookMap)) ==> NonNegativeStock(bookStore.bookMap)
        invariant Count(chosen[lo..], outcomes[lo..]).successful == successful
        invariant numTotalFrequentBookStoreInteraction ==
          old(numTotalFrequentBookStoreInteraction) + Count(chosen[lo..], outcomes[lo..]).frequentTotal
        invariant numSuccessfulFrequentBookStoreInteraction ==
          old(numSuccessfulFrequentBookStoreInteraction) + Count(chosen[lo..], outcomes[lo..]).frequentSuccessful
        decreases n - count
      {
        ghost var before, beforeOutcomes := chosen, outcomes;
        var out;
        out, chosen, outcomes := RecordRun(choice, offsetDraws, pickDraws, lo + count - 1, chosen, outcomes, stock);
        count := count + 1;
        CountFromAppend(before, beforeOutcomes, lo, Choose(choice(|before|)), out);
        if out.Err? {
          assert outcomes[..|outcomes| - 1] == beforeOutcomes;
          assert !outcomes[|outcomes| - 1].Ok?;
          return Some(out.error), successful, chosen, outcomes;
        }
        AllReturnedAppend(beforeOutcomes, out);
        if out == Ok(true) {
          successful := successful + 1;
        }
      }
      escaped := None;
    }

    /**
     * call, given the run draws (the interaction draw, the generator's
     * offset draws and the editor-pick draws against the book store's
     * catalog of the moment) and the two clock readings: max(0, warmUpRuns)
     * warm-up runs, then the counters reset and max(0, numActualRuns)
     * measured runs. An exception that escapes a run ends the call with
     * that error. Otherwise the report counts the measured runs only: the
     * successful ones, the customer interactions and their successes.
     */
    method Call(choice: nat -> real, offsetDraws: (nat, nat) -> int, pickDraws: (nat, Catalog) -> seq<int>,
                startTime: int, endTime: int)
      returns (result: Result<WorkerRunResult>, ghost chosen: seq<Interaction>, ghost outcomes: seq<Result<bool>>)
      requires Valid()
      requires forall j: nat, m: Catalog :: PicksDrawable(m, configuration.numEditorPicksToGet, pickDraws(j, m))
      modifies this, stockManager, bookStore
      ensures Valid()
      ensures RunsReport(choice, chosen, outcomes, old(if stockManager != null then stockManager.bookMap else map[]))
      ensures |outcomes| <= Max0(configuration.warmUpRuns) + Max0(configuration.numActualRuns)
      ensures result.Ok? <==>
        |outcomes| == Max0(configuration.warmUpRuns) + Max0(configuration.numActualRuns) && AllReturned(outcomes)
      ensures result.Err? ==>
        && |outcomes| > 0 && AllReturned(outcomes[..|outcomes| - 1])
        && outcomes[|outcomes| - 1] == Err(result.error) && Escapes(result.error)
      ensures result.Ok? ==>
        var w := Max0(configuration.warmUpRuns);
        var t := Count(chosen[w..], outcomes[w..]);
        && result.value == WorkerRunResult(t.successful, endTime - startTime, configuration.numActualRuns,
                                           t.frequentSuccessful, t.frequentTotal)
        && numSuccessfulFrequentBookStoreInteraction == t.frequentSuccessful
        && numTotalFrequentBookStoreInteraction == t.frequentTotal
      ensures result.Ok? ==>
        && 0 <= result.value.successfulInteractions <= Max0(result.value.totalRuns)
        && 0 <= result.value.successfulFrequentBookStoreInteractionRuns <= result.value.totalFrequentBookStoreInteractionRuns
        && result.value.totalFrequentBookStoreInteractionRuns <= Max0(result.value.totalRuns)
      ensures stockManager != null && stockManager != bookStore ==> stockManager.bookMap == old(stockManager.bookMap)
      ensures bookStore != null && NonNegativeStock(old(bookStore.bookMap)) ==> NonNegativeStock(bookStore.bookMap)
    {
      ghost var stock := if stockManager != null then stockManager.bookMap else map[];
      var escaped, successfulInteractions;
      escaped, successfulInteractions, chosen, outcomes :=
        RunMany(choice, offsetDraws, pickDraws, configuration.warmUpRuns, 0, [], [], stock);
      if escaped.Some? {
        return Err(escaped.value), chosen, outcomes;
      }
      var w := Max0(configuration.warmUpRuns);
      numTotalFrequentBookStoreInteraction := 0;
      numSuccessfulFrequentBookStoreInteraction := 0;
      escaped, successfulInteractions, chosen, outcomes :=
        RunMany(choice, offsetDraws, pickDraws, configuration.numActualRuns, w, chosen, outcomes, stock);
      if escaped.Some? {
        return Err(escaped.value), chosen, outcomes;
      }
      CountBounds(chosen[w..], outcomes[w..]);
      result := Ok(WorkerRunResult(successfulInteractions, endTime - startTime, configuration.numActualRuns,
        numSuccessfulFrequentBookStoreInteraction, numTotalFrequentBookStoreInteraction));
    }

    /**
     * runRareStockManagerInteraction: list the store, draw a set of the
     * generator's books, and add the listed books whose ISBN was not drawn.
     * Those books are the store's own, so the store never changes and the
     * call fails whenever the batch is non-empty (BooksNotFoundAddsNothing;
     * GeneratedBooksNotFoundAreAdded states the batch the code means). A
     * missing stock manager or generator fails before anything is read or
     * changed.
     */
    method RunRareStockManagerInteraction(draw: nat -> int)
      returns (s: Status, ghost listing: seq<StockBook>, ghost generated: seq<StockBook>)
      requires Valid()
      modifies stockManager
      ensures Valid()
      ensures stockManager == null || bookSetGenerator == null ==> s == Failure(NullComponent)
      ensures stockManager != null ==> stockManager.bookMap == old(stockManager.bookMap)
      ensures stockManager != null && bookSetGenerator != null ==>
        && IsListingOf(old(stockManager.bookMap), listing)
        && |generated| == OffsetCount(configuration.numBooksToAdd, BookStoreSize - 1)
        && (forall b :: b in generated ==> b in bookSetGenerator.books)
        && (stockManager.bookMap, s) ==
             AddBooksOp(old(stockManager.bookMap), Some(WithoutIsbns(listing, BookIsbns(generated))))
        && (WithoutIsbns(listing, BookIsbns(generated)) != [] ==> s.Failure?)
    {
      if stockManager == null || bookSetGenerator == null {
        return Failure(NullComponent), [], [];
      }
      var storeBooks := stockManager.GetBooks();
      var randomBookSet, offsets := bookSetGenerator.NextSetOfStockBooks(configuration.numBooksToAdd, draw);
      var booksNotFound := SelectNotListed(storeBooks, BookIsbns(randomBookSet));
      listing, generated := storeBooks, randomBookSet;
      BooksNotFoundAddsNothing(stockManager.bookMap, listing, generated);
      s := stockManager.AddBooks(Some(booksNotFound));
    }

    /**
     * runFrequentStockManagerInteraction: list the store, sort the books by
     * non-increasing copies and add back the first numBooksWithLeastCopies
     * of them. Those books are the store's own, so the store never changes:
     * the call fails when the batch is non-empty and succeeds on an empty
     * one; a count beyond the listing fails in subList before the call.
     */
    method RunFrequentStockManagerInteraction() returns (s: Status, ghost listing: seq<StockBook>)
      requires Valid()
      modifies stockManager
      ensures Valid()
      ensures stockManager == null ==> s == Failure(NullComponent)
      ensures stockManager != null ==>
        && stockManager.bookMap == old(stockManager.bookMap)
        && IsListingOf(old(stockManager.bookMap), listing)
        && var k := configuration.numBooksWithLeastCopies;
           && (s == Success <==> k == 0)
           && (!(0 <= k <= |listing|) ==> s == Failure(IndexOutOfBounds))
    {
      if stockManager == null {
        return Failure(NullComponent), [];
      }
      var storeBooks := stockManager.GetBooks();
      listing := storeBooks;
      var batch := MostStockedBooks(storeBooks, configuration.numBooksWithLeastCopies);
      if batch.Err? {
        return Failure(batch.error), listing;
      }
      AddingListedBooksChangesNothing(stockManager.bookMap, storeBooks, batch.value);
      s := stockManager.AddBooks(Some(batch.value));
    }

    /**
     * runFrequentBookStoreInteraction: ask the store for
     * numEditorPicksToGet editor picks, take the first numBooksToBuy of them
     * and buy numBookCopiesToBuy copies of each. A missing store fails at
     * once; a negative number of picks fails in getEditorPicks and too few
     * picks in subList, neither changing the store; otherwise the purchase
     * is buyBooks on the chosen picks, which keeps the stock non-negative.
     */
    method RunFrequentBookStoreInteraction(draws: seq<int>) returns (s: Status, ghost picks: seq<Book>)
      requires Valid()
      requires bookStore != null ==> PicksDrawable(bookStore.bookMap, configuration.numEditorPicksToGet, draws)
      modifies bookStore
      ensures Valid()
      ensures bookStore == null ==> s == Failure(NullComponent)
      ensures bookStore != null && configuration.numEditorPicksToGet < 0 ==>
        s == Failure(InvalidNumBooks(configuration.numEditorPicksToGet)) && bookStore.bookMap == old(bookStore.bookMap)
      ensures bookStore != null && configuration.numEditorPicksToGet >= 0 ==>
        && |picks| == Min(configuration.numEditorPicksToGet, |EditorPickIsbns(old(bookStore.bookMap))|)
        && (forall i :: 0 <= i < |picks| ==> picks[i].isbn in EditorPickIsbns(old(bookStore.bookMap)))
        && (!(0 <= configuration.numBooksToBuy <= |picks|) ==>
              s == Failure(IndexOutOfBounds) && bookStore.bookMap == old(bookStore.bookMap))
        && (0 <= configuration.numBooksToBuy <= |picks| ==>
              var copies := Purchase(picks, configuration.numBooksToBuy, configuration.numBookCopiesToBuy).value;
              && DistinctCopyIsbns(copies)
              && (bookStore.bookMap, s) == BuyBooksOp(old(bookStore.bookMap), Some(copies)))
      ensures bookStore != null && NonNegativeStock(old(bookStore.bookMap)) ==> NonNegativeStock(bookStore.bookMap)
    {
      if bookStore == null {
        return Failure(NullComponent), [];
      }
      var editorPicks := bookStore.GetEditorPicks(configuration.numEditorPicksToGet, draws);
      if editorPicks.Err? {
        return Failure(editorPicks.error), [];
      }
      picks := editorPicks.value;
      var booksToBuy := Purchase(editorPicks.value, configuration.numBooksToBuy, configuration.numBookCopiesToBuy);
      if booksToBuy.Err? {
        return Failure(booksToBuy.error), picks;
      }
      PurchaseOfDistinctPicks(editorPicks.value, configuration.numBooksToBuy, configuration.numBookCopiesToBuy);
      if NonNegativeStock(bookStore.bookMap) {
        BuyBooksKeepsStockNonNegative(bookStore.bookMap, booksToBuy.value);
      }
      s := bookStore.BuyBooks(Some(booksToBuy.value));
    }
  }
}
