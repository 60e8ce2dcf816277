/**
 * The sequential meaning of every catalog operation of the concurrent
 * bookstore, as functions from the catalog before the call to the catalog
 * after it and the call's outcome, with the properties the store promises.
 * A Java Set argument is a sequence in the set's iteration order.
 */
module StoreSpec {
  import opened BookStoreTypes

  /** The catalog: ISBN to book record (bookMap). */
  type Catalog = map<ISBN, StockBook>

  /** Every record is stored under its own ISBN. */
  predicate WellKeyed(m: Catalog)
  {
    forall k :: k in m ==> m[k].isbn == k
  }

  predicate NonNegativeStock(m: Catalog)
  {
    forall k :: k in m ==> m[k].numCopies >= 0
  }

  function BookIsbns(batch: seq<StockBook>): set<ISBN>
  {
    set i | 0 <= i < |batch| :: batch[i].isbn
  }

  function CopyIsbns(batch: seq<BookCopy>): set<ISBN>
  {
    set i | 0 <= i < |batch| :: batch[i].isbn
  }

  function Elements(isbns: seq<ISBN>): set<ISBN>
  {
    set i | 0 <= i < |isbns| :: isbns[i]
  }

  function PickIsbns(picks: seq<BookEditorPick>): (r: seq<ISBN>)
    ensures |r| == |picks| && forall i :: 0 <= i < |picks| ==> r[i] == picks[i].isbn
  {
    seq(|picks|, i requires 0 <= i < |picks| => picks[i].isbn)
  }

  function CopyIsbnSeq(batch: seq<BookCopy>): (r: seq<ISBN>)
    ensures |r| == |batch| && forall i :: 0 <= i < |batch| ==> r[i] == batch[i].isbn
  {
    seq(|batch|, i requires 0 <= i < |batch| => batch[i].isbn)
  }

  /**
   * Taking the per-book locks of a batch looks up the lock of every listed
   * ISBN and dereferences it; the locks are keyed like the catalog, so an
   * ISBN the catalog lacks makes the call fail with a null dereference
   * before any check or change.
   */
  predicate AllLockable(m: Catalog, isbns: seq<ISBN>)
  {
    forall i :: 0 <= i < |isbns| ==> isbns[i] in m
  }

  // ---------------------------------------------------------------- addBooks

  /** The first book of the batch that addBooks rejects, in iteration order. */
  function AddBooksCheck(m: Catalog, batch: seq<StockBook>): (r: Option<Error>)
    ensures r.None? <==> forall i :: 0 <= i < |batch| ==> !IsInvalidBook(batch[i]) && batch[i].isbn !in m
    ensures r.Some? ==> exists i :: (0 <= i < |batch| &&
      (r.value == InvalidBook(batch[i].isbn) || r.value == DuplicatedIsbn(batch[i].isbn)))
  {
    if batch == [] then None
    else if IsInvalidBook(batch[0]) then Some(InvalidBook(batch[0].isbn))
    else if batch[0].isbn in m then Some(DuplicatedIsbn(batch[0].isbn))
    else
      var r := AddBooksCheck(m, batch[1..]);
      assert r.Some? ==> exists i :: (1 <= i < |batch| &&
        (r.value == InvalidBook(batch[i].isbn) || r.value == DuplicatedIsbn(batch[i].isbn))) by {
        if r.Some? {
          var j :| 0 <= j < |batch[1..]| &&
            (r.value == InvalidBook(batch[1..][j].isbn) || r.value == DuplicatedIsbn(batch[1..][j].isbn));
          assert batch[1..][j] == batch[j + 1];
        }
      }
      r
  }

  /** The catalog after putting every book of the batch under its ISBN, in order. */
  function InsertBooks(m: Catalog, batch: seq<StockBook>): (r: Catalog)
    ensures r.Keys == m.Keys + BookIsbns(batch)
    ensures forall k :: k in m && k !in BookIsbns(batch) ==> r[k] == m[k]
    ensures forall k :: k in BookIsbns(batch) ==> r[k] in batch && r[k].isbn == k
    ensures WellKeyed(m) ==> WellKeyed(r)
    decreases |batch|
  {
    if batch == [] then m
    else
      assert BookIsbns(batch) == {batch[0].isbn} + BookIsbns(batch[1..]) by {
        forall k | k in BookIsbns(batch) ensures k in {batch[0].isbn} + BookIsbns(batch[1..]) {
          var i :| 0 <= i < |batch| && batch[i].isbn == k;
          if i > 0 { assert batch[1..][i - 1] == batch[i]; }
        }
        forall k | k in BookIsbns(batch[1..]) ensures k in BookIsbns(batch) {
          var i :| 0 <= i < |batch[1..]| && batch[1..][i].isbn == k;
          assert batch[i + 1] == batch[1..][i];
        }
      }
      InsertBooks(m[batch[0].isbn := batch[0]], batch[1..])
  }

  /** addBooks: check the whole batch, then insert it. */
  function AddBooksOp(m: Catalog, batch: Option<seq<StockBook>>): (r: (Catalog, Status))
    ensures batch.None? ==> r == (m, Failure(NullInput))
    ensures r.1.Failure? ==> r.0 == m
    ensures r.1.Success? <==> (batch.Some? &&
      forall i :: 0 <= i < |batch.value| ==> !IsInvalidBook(batch.value[i]) && batch.value[i].isbn !in m)
    ensures r.1.Success? ==> r.0.Keys == m.Keys + BookIsbns(batch.value)
    ensures r.1.Success? ==> forall k :: k in m ==> r.0[k] == m[k]
    ensures WellKeyed(m) ==> WellKeyed(r.0)
  {
    match batch
    case None => (m, Failure(NullInput))
    case Some(books) =>
      match AddBooksCheck(m, books)
      case Some(e) => (m, Failure(e))
      case None => (InsertBooks(m, books), Success)
  }

  // --------------------------------------------------------------- addCopies

  /** The number of copies of book k a batch names, summed over its entries. */
  function Demand(batch: seq<BookCopy>, k: ISBN): int
  {
    if batch == [] then 0
    else (if batch[0].isbn == k then batch[0].numCopies else 0) + Demand(batch[1..], k)
  }

  predicate CopiesEntryOk(m: Catalog, c: BookCopy)
  {
    !IsInvalidIsbn(c.isbn) && !IsInvalidNumCopies(c.numCopies) && c.isbn in m
  }

  /** The first entry addCopies rejects: invalid ISBN, invalid count, unknown ISBN. */
  function AddCopiesCheck(m: Catalog, batch: seq<BookCopy>): (r: Option<Error>)
    ensures r.None? <==> forall i :: 0 <= i < |batch| ==> CopiesEntryOk(m, batch[i])
  {
    if batch == [] then None
    else if IsInvalidIsbn(batch[0].isbn) then Some(InvalidIsbn(batch[0].isbn))
    else if IsInvalidNumCopies(batch[0].numCopies) then Some(InvalidNumCopies(batch[0].numCopies))
    else if batch[0].isbn !in m then Some(IsbnNotAvailable(batch[0].isbn))
    else
      assert forall i :: 1 <= i < |batch| ==> batch[1..][i - 1] == batch[i];
      AddCopiesCheck(m, batch[1..])
  }

  /** The catalog after adding each entry's copies to its book, in order. */
  function AddCopiesAll(m: Catalog, batch: seq<BookCopy>): (r: Catalog)
    requires forall i :: 0 <= i < |batch| ==> batch[i].isbn in m
    ensures r.Keys == m.Keys
    ensures forall k :: k in m ==> r[k] == m[k].(numCopies := m[k].numCopies + Demand(batch, k))
    decreases |batch|
  {
    if batch == [] then m
    else
      var c := batch[0];
      AddCopiesAll(m[c.isbn := m[c.isbn].(numCopies := m[c.isbn].numCopies + c.numCopies)], batch[1..])
  }
  /** The first entry of a batch adds its copies to give m2, then the rest of the batch follows from m2. */
  lemma AddCopiesAllStep(m: Catalog, batch: seq<BookCopy>, m2: Catalog)
    requires batch != [] && forall i :: 0 <= i < |batch| ==> batch[i].isbn in m
    requires m2 == m[batch[0].isbn := m[batch[0].isbn].(numCopies := m[batch[0].isbn].numCopies + batch[0].numCopies)]
    ensures forall i :: 0 <= i < |batch[1..]| ==> batch[1..][i].isbn in m2
    ensures AddCopiesAll(m, batch) == AddCopiesAll(m2, batch[1..])
  {
  }



  /** addCopies: validate every entry, then add every entry's copies. */
  function AddCopiesOp(m: Catalog, batch: Option<seq<BookCopy>>): (r: (Catalog, Status))
    ensures batch.None? ==> r == (m, Failure(NullInput))
    ensures batch.Some? && !AllLockable(m, CopyIsbnSeq(batch.value)) ==> r == (m, Failure(NullReference))
    ensures r.1.Failure? ==> r.0 == m
    ensures r.1.Success? <==> batch.Some? && forall i :: 0 <= i < |batch.value| ==> CopiesEntryOk(m, batch.value[i])
    ensures r.0.Keys == m.Keys
    ensures r.1.Success? ==> forall k :: k in m ==>
      r.0[k] == m[k].(numCopies := m[k].numCopies + Demand(batch.value, k))
    ensures WellKeyed(m) ==> WellKeyed(r.0)
  {
    match batch
    case None => (m, Failure(NullInput))
    case Some(copies) =>
      if !AllLockable(m, CopyIsbnSeq(copies)) then (m, Failure(NullReference))
      else match AddCopiesCheck(m, copies)
      case Some(e) => (m, Failure(e))
      case None => (AddCopiesAll(m, copies), Success)
  }

  // ---------------------------------------------------------------- buyBooks

  predicate PurchaseEntryOk(m: Catalog, c: BookCopy)
  {
    c.numCopies >= 0 && !IsInvalidIsbn(c.isbn) && c.isbn in m
  }

  /** The entries of a batch for book k that ask for more than stock copies. */
  function ShortCount(stock: int, batch: seq<BookCopy>, k: ISBN): (r: nat)
    ensures r <= |batch|
  {
    if batch == [] then 0
    else (if batch[0].isbn == k && stock < batch[0].numCopies then 1 else 0) + ShortCount(stock, batch[1..], k)
  }

  /** No entry is counted short for k exactly when every entry for k asks for at most the stock. */
  lemma {:induction false} ShortCountZero(stock: int, batch: seq<BookCopy>, k: ISBN)
    ensures ShortCount(stock, batch, k) == 0 <==>
      forall i :: 0 <= i < |batch| && batch[i].isbn == k ==> batch[i].numCopies <= stock
  {
    if batch != [] {
      assert forall i :: 1 <= i < |batch| ==> batch[1..][i - 1] == batch[i];
      ShortCountZero(stock, batch[1..], k);
    }
  }

  /** The state of buyBooks' checking loop: the catalog, a pending error, whether a sale was missed. */
  datatype BuyScan = BuyScan(books: Catalog, error: Option<Error>, missed: bool)

  /**
   * buyBooks' first loop over the rest of the batch: it stops at the first
   * invalid entry and records a sale miss on every book it finds short.
   */
  function BuyCheck(m: Catalog, batch: seq<BookCopy>, missed: bool): (r: BuyScan)
    ensures r.books.Keys == m.Keys
    decreases |batch|
  {
    if batch == [] then BuyScan(m, None, missed)
    else
      var c := batch[0];
      if c.numCopies < 0 then BuyScan(m, Some(InvalidNumCopies(c.numCopies)), missed)
      else if IsInvalidIsbn(c.isbn) then BuyScan(m, Some(InvalidIsbn(c.isbn)), missed)
      else if c.isbn !in m then BuyScan(m, Some(IsbnNotAvailable(c.isbn)), missed)
      else if m[c.isbn].numCopies < c.numCopies then
        BuyCheck(m[c.isbn := m[c.isbn].(saleMisses := m[c.isbn].saleMisses + 1)], batch[1..], true)
      else
        BuyCheck(m, batch[1..], missed)
  }

  /** buyBooks' checking loop changes nothing in a book but its sale misses, and never lowers those. */
  lemma {:induction false} BuyCheckOnlyAddsSaleMisses(m: Catalog, batch: seq<BookCopy>, missed: bool)
    ensures var r := BuyCheck(m, batch, missed);
      forall k :: k in m ==> r.books[k] == m[k].(saleMisses := r.books[k].saleMisses) && r.books[k].saleMisses >= m[k].saleMisses
    decreases |batch|
  {
    if batch != [] {
      var c := batch[0];
      if PurchaseEntryOk(m, c) {
        if m[c.isbn].numCopies < c.numCopies {
          BuyCheckOnlyAddsSaleMisses(m[c.isbn := m[c.isbn].(saleMisses := m[c.isbn].saleMisses + 1)], batch[1..], true);
        } else {
          BuyCheckOnlyAddsSaleMisses(m, batch[1..], missed);
        }
      }
    }
  }

  /** buyBooks' checking loop fails exactly when some entry is invalid. */
  lemma {:induction false} BuyCheckFailsOnInvalid(m: Catalog, batch: seq<BookCopy>, missed: bool)
    ensures BuyCheck(m, batch, missed).error.None? <==> forall i :: 0 <= i < |batch| ==> PurchaseEntryOk(m, batch[i])
    decreases |batch|
  {
    if batch != [] {
      var c := batch[0];
      assert forall i :: 1 <= i < |batch| ==> batch[1..][i - 1] == batch[i];
      if PurchaseEntryOk(m, c) {
        if m[c.isbn].numCopies < c.numCopies {
          var m' := m[c.isbn := m[c.isbn].(saleMisses := m[c.isbn].saleMisses + 1)];
          BuyCheckFailsOnInvalid(m', batch[1..], true);
          assert forall i :: 0 <= i < |batch| ==> (PurchaseEntryOk(m, batch[i]) <==> PurchaseEntryOk(m', batch[i]));
        } else {
          BuyCheckFailsOnInvalid(m, batch[1..], missed);
        }
      }
    }
  }

  /**
   * When every entry is valid, buyBooks' checking loop reports a missed sale
   * exactly when some entry asks for more copies than its book has.
   */
  lemma {:induction false} BuyCheckMissesShortEntries(m: Catalog, batch: seq<BookCopy>, missed: bool)
    requires forall i :: 0 <= i < |batch| ==> PurchaseEntryOk(m, batch[i])
    ensures BuyCheck(m, batch, missed).missed <==>
      missed || exists i :: 0 <= i < |batch| && batch[i].isbn in m && m[batch[i].isbn].numCopies < batch[i].numCopies
    decreases |batch|
  {
    if batch != [] {
      var c := batch[0];
      assert forall i :: 1 <= i < |batch| ==> batch[1..][i - 1] == batch[i];
      if m[c.isbn].numCopies < c.numCopies {
        var m' := m[c.isbn := m[c.isbn].(saleMisses := m[c.isbn].saleMisses + 1)];
        BuyCheckMissesShortEntries(m', batch[1..], true);
      } else {
        BuyCheckMissesShortEntries(m, batch[1..], missed);
      }
    }
  }

  /** One step of buyBooks' checking loop on a valid entry: a sale miss on its book when it is short, then the rest. */
  lemma BuyCheckStep(m: Catalog, batch: seq<BookCopy>, missed: bool)
    requires batch != [] && PurchaseEntryOk(m, batch[0])
    ensures m[batch[0].isbn].numCopies < batch[0].numCopies ==>
      BuyCheck(m, batch, missed) ==
        BuyCheck(m[batch[0].isbn := m[batch[0].isbn].(saleMisses := m[batch[0].isbn].saleMisses + 1)], batch[1..], true)
    ensures m[batch[0].isbn].numCopies >= batch[0].numCopies ==>
      BuyCheck(m, batch, missed) == BuyCheck(m, batch[1..], missed)
  {
  }

  /** The first entry counts as short for book k when it is for k and asks for more than the stock. */
  lemma ShortCountStep(stock: int, batch: seq<BookCopy>, k: ISBN)
    requires batch != []
    ensures ShortCount(stock, batch, k) ==
      (if batch[0].isbn == k && stock < batch[0].numCopies then 1 else 0) + ShortCount(stock, batch[1..], k)
  {
  }

  /** Entries valid against a catalog stay valid, past the first, against one with the same ISBNs. */
  lemma EntriesOkOnRest(m: Catalog, m': Catalog, batch: seq<BookCopy>)
    requires batch != [] && m'.Keys == m.Keys
    requires forall i :: 0 <= i < |batch| ==> PurchaseEntryOk(m, batch[i])
    ensures forall i :: 0 <= i < |batch[1..]| ==> PurchaseEntryOk(m', batch[1..][i])
  {
    assert forall i :: 1 <= i < |batch| ==> batch[1..][i - 1] == batch[i];
  }

  /** The sale misses buyBooks' checking loop records on one book k: one per valid entry for k that asks for more than its stock. */
  lemma {:induction false} BuyCheckCountsSaleMissesOf(m: Catalog, batch: seq<BookCopy>, missed: bool, k: ISBN)
    requires k in m
    requires forall i :: 0 <= i < |batch| ==> PurchaseEntryOk(m, batch[i])
    ensures BuyCheck(m, batch, missed).books[k].saleMisses == m[k].saleMisses + ShortCount(m[k].numCopies, batch, k)
    decreases |batch|
  {
    if batch != [] {
      var c := batch[0];
      BuyCheckStep(m, batch, missed);
      ShortCountStep(m[k].numCopies, batch, k);
      if m[c.isbn].numCopies < c.numCopies {
        var m' := m[c.isbn := m[c.isbn].(saleMisses := m[c.isbn].saleMisses + 1)];
        EntriesOkOnRest(m, m', batch);
        BuyCheckCountsSaleMissesOf(m', batch[1..], true, k);
        var rest := ShortCount(m[k].numCopies, batch[1..], k);
        if c.isbn == k {
          assert m'[k] == m[k].(saleMisses := m[k].saleMisses + 1);
          assert ShortCount(m[k].numCopies, batch, k) == 1 + rest;
        } else {
          assert m'[k] == m[k];
          assert ShortCount(m[k].numCopies, batch, k) == rest;
        }
      } else {
        EntriesOkOnRest(m, m, batch);
        BuyCheckCountsSaleMissesOf(m, batch[1..], missed, k);
      }
    }
  }

  /**
   * When every entry is valid, buyBooks' checking loop adds to each book's
   * sale misses the number of entries that ask for more than its stock.
   */
  lemma BuyCheckCountsSaleMisses(m: Catalog, batch: seq<BookCopy>, missed: bool)
    requires forall i :: 0 <= i < |batch| ==> PurchaseEntryOk(m, batch[i])
    ensures forall k :: k in m ==>
      BuyCheck(m, batch, missed).books[k].saleMisses == m[k].saleMisses + ShortCount(m[k].numCopies, batch, k)
  {
    forall k | k in m
      ensures BuyCheck(m, batch, missed).books[k].saleMisses == m[k].saleMisses + ShortCount(m[k].numCopies, batch, k)
    {
      BuyCheckCountsSaleMissesOf(m, batch, missed, k);
    }
  }

  /** The three facts above, for the callers of buyBooks' checking loop. */
  lemma BuyCheckFinds(m: Catalog, batch: seq<BookCopy>, missed: bool)
    ensures var r := BuyCheck(m, batch, missed);
      && (r.error.None? <==> forall i :: 0 <= i < |batch| ==> PurchaseEntryOk(m, batch[i]))
      && (r.error.None? ==> (r.missed <==>
            missed || exists i :: 0 <= i < |batch| && m[batch[i].isbn].numCopies < batch[i].numCopies))
      && (r.error.None? ==> forall k :: k in m ==>
            r.books[k].saleMisses == m[k].saleMisses + ShortCount(m[k].numCopies, batch, k))
  {
    BuyCheckFailsOnInvalid(m, batch, missed);
    if BuyCheck(m, batch, missed).error.None? {
      BuyCheckMissesShortEntries(m, batch, missed);
      BuyCheckCountsSaleMisses(m, batch, missed);
    }
  }

  /** The catalog after taking each entry's copies from its book, in order. */
  function BuyCopiesAll(m: Catalog, batch: seq<BookCopy>): (r: Catalog)
    requires forall i :: 0 <= i < |batch| ==> batch[i].isbn in m
    ensures r.Keys == m.Keys
    ensures forall k :: k in m ==> r[k] == m[k].(numCopies := m[k].numCopies - Demand(batch, k))
    decreases |batch|
  {
    if batch == [] then m
    else
      var c := batch[0];
      BuyCopiesAll(m[c.isbn := m[c.isbn].(numCopies := m[c.isbn].numCopies - c.numCopies)], batch[1..])
  }
  /** The first entry of a batch takes its copies to give m2, then the rest of the batch follows from m2. */
  lemma BuyCopiesAllStep(m: Catalog, batch: seq<BookCopy>, m2: Catalog)
    requires batch != [] && forall i :: 0 <= i < |batch| ==> batch[i].isbn in m
    requires m2 == m[batch[0].isbn := m[batch[0].isbn].(numCopies := m[batch[0].isbn].numCopies - batch[0].numCopies)]
    ensures forall i :: 0 <= i < |batch[1..]| ==> batch[1..][i].isbn in m2
    ensures BuyCopiesAll(m, batch) == BuyCopiesAll(m2, batch[1..])
  {
  }



  /**
   * buyBooks: check every entry (recording sale misses), fail if any entry
   * was invalid or short, otherwise take the copies.
   */
  function BuyBooksOp(m: Catalog, batch: Option<seq<BookCopy>>): (r: (Catalog, Status))
    ensures batch.None? ==> r == (m, Failure(NullInput))
    ensures batch.Some? && !AllLockable(m, CopyIsbnSeq(batch.value)) ==> r == (m, Failure(NullReference))
    ensures r.0.Keys == m.Keys
    ensures r.1.Failure? ==> forall k :: k in m ==> r.0[k] == m[k].(saleMisses := r.0[k].saleMisses)
    ensures r.1.Success? <==> batch.Some? && forall i :: 0 <= i < |batch.value| ==>
      PurchaseEntryOk(m, batch.value[i]) && batch.value[i].numCopies <= m[batch.value[i].isbn].numCopies
    ensures r.1.Success? ==> forall k :: k in m ==>
      r.0[k] == m[k].(numCopies := m[k].numCopies - Demand(batch.value, k))
    ensures WellKeyed(m) ==> WellKeyed(r.0)
  {
    match batch
    case None => (m, Failure(NullInput))
    case Some(copies) =>
      if !AllLockable(m, CopyIsbnSeq(copies)) then (m, Failure(NullReference))
      else
      BuyCheckFinds(m, copies, false);
      BuyCheckOnlyAddsSaleMisses(m, copies, false);
      var scan := BuyCheck(m, copies, false);
      if scan.error.Some? then (scan.books, Failure(scan.error.value))
      else if scan.missed then (scan.books, Failure(BooksNotAvailable))
      else
        assert scan.books == m by {
          forall k | k in m ensures scan.books[k] == m[k] {
            ShortCountZero(m[k].numCopies, copies, k);
          }
        }
        (BuyCopiesAll(scan.books, copies), Success)
  }

  // ------------------------------------------------------- updateEditorPicks

  /** The first ISBN rejected as invalid or unknown, in iteration order. */
  function IsbnCheck(m: Catalog, isbns: seq<ISBN>): (r: Option<Error>)
    ensures r.None? <==> forall i :: 0 <= i < |isbns| ==> !IsInvalidIsbn(isbns[i]) && isbns[i] in m
    ensures r.Some? ==> exists i :: (0 <= i < |isbns| &&
      (r.value == InvalidIsbn(isbns[i]) || r.value == IsbnNotAvailable(isbns[i])))
  {
    if isbns == [] then None
    else if IsInvalidIsbn(isbns[0]) then Some(InvalidIsbn(isbns[0]))
    else if isbns[0] !in m then Some(IsbnNotAvailable(isbns[0]))
    else
      assert forall i :: 1 <= i < |isbns| ==> isbns[1..][i - 1] == isbns[i];
      IsbnCheck(m, isbns[1..])
  }

  /** The flag the last entry for book k sets, or current if the batch has none. */
  function LastPick(picks: seq<BookEditorPick>, k: ISBN, current: bool): bool
  {
    if picks == [] then current
    else LastPick(picks[1..], k, if picks[0].isbn == k then picks[0].editorPick else current)
  }

  /** The catalog after setting each entry's flag on its book, in order. */
  function SetEditorPicks(m: Catalog, picks: seq<BookEditorPick>): (r: Catalog)
    requires forall i :: 0 <= i < |picks| ==> picks[i].isbn in m
    ensures r.Keys == m.Keys
    ensures forall k :: k in m ==> r[k] == m[k].(editorPick := LastPick(picks, k, m[k].editorPick))
    decreases |picks|
  {
    if picks == [] then m
    else
      var p := picks[0];
      SetEditorPicks(m[p.isbn := m[p.isbn].(editorPick := p.editorPick)], picks[1..])
  }

  /** updateEditorPicks: validate every ISBN, then set every flag. */
  function UpdateEditorPicksOp(m: Catalog, picks: Option<seq<BookEditorPick>>): (r: (Catalog, Status))
    ensures picks.None? ==> r == (m, Failure(NullInput))
    ensures picks.Some? && !AllLockable(m, PickIsbns(picks.value)) ==> r == (m, Failure(NullReference))
    ensures r.1.Failure? ==> r.0 == m
    ensures r.1.Success? <==> (picks.Some? &&
      forall i :: 0 <= i < |picks.value| ==> !IsInvalidIsbn(picks.value[i].isbn) && picks.value[i].isbn in m)
    ensures r.0.Keys == m.Keys
    ensures r.1.Success? ==> forall k :: k in m ==>
      r.0[k] == m[k].(editorPick := LastPick(picks.value, k, m[k].editorPick))
    ensures WellKeyed(m) ==> WellKeyed(r.0)
  {
    match picks
    case None => (m, Failure(NullInput))
    case Some(ps) =>
      if !AllLockable(m, PickIsbns(ps)) then (m, Failure(NullReference))
      else match IsbnCheck(m, PickIsbns(ps))
      case Some(e) => (m, Failure(e))
      case None => (SetEditorPicks(m, ps), Success)
  }

  // ------------------------------------------------------------- removeBooks

  /** removeBooks: validate every ISBN, then drop every listed book. */
  function RemoveBooksOp(m: Catalog, isbns: Option<seq<ISBN>>): (r: (Catalog, Status))
    ensures isbns.None? ==> r == (m, Failure(NullInput))
    ensures isbns.Some? && !AllLockable(m, isbns.value) ==> r == (m, Failure(NullReference))
    ensures r.1.Failure? ==> r.0 == m
    ensures r.1.Success? <==> (isbns.Some? &&
      forall i :: 0 <= i < |isbns.value| ==> !IsInvalidIsbn(isbns.value[i]) && isbns.value[i] in m)
    ensures r.1.Success? ==> r.0.Keys == m.Keys - Elements(isbns.value)
    ensures forall k :: k in r.0 ==> k in m && r.0[k] == m[k]
    ensures WellKeyed(m) ==> WellKeyed(r.0)
  {
    match isbns
    case None => (m, Failure(NullInput))
    case Some(s) =>
      if !AllLockable(m, s) then (m, Failure(NullReference))
      else match IsbnCheck(m, s)
      case Some(e) => (m, Failure(e))
      case None => (m - Elements(s), Success)
  }

  // ------------------------------------------------------------------- reads

  /** getBooksByISBN: validate every ISBN, then list the records in order. */
  function GetBooksByIsbnOp(m: Catalog, isbns: Option<seq<ISBN>>): (r: Result<seq<StockBook>>)
    ensures isbns.None? ==> r == Err(NullInput)
    ensures isbns.Some? && !AllLockable(m, isbns.value) ==> r == Err(NullReference)
    ensures r.Ok? <==> (isbns.Some? &&
      forall i :: 0 <= i < |isbns.value| ==> !IsInvalidIsbn(isbns.value[i]) && isbns.value[i] in m)
    ensures r.Ok? ==> (|r.value| == |isbns.value| &&
      forall i :: 0 <= i < |r.value| ==> isbns.value[i] in m && r.value[i] == m[isbns.value[i]])
  {
    match isbns
    case None => Err(NullInput)
    case Some(s) =>
      if !AllLockable(m, s) then Err(NullReference)
      else match IsbnCheck(m, s)
      case Some(e) => Err(e)
      case None => Ok(seq(|s|, i requires 0 <= i < |s| => m[s[i]]))
  }

  /** getBooks(Set): as getBooksByISBN, but the customer's view of each book. */
  function GetBooksOp(m: Catalog, isbns: Option<seq<ISBN>>): (r: Result<seq<Book>>)
    ensures isbns.None? ==> r == Err(NullInput)
    ensures isbns.Some? && !AllLockable(m, isbns.value) ==> r == Err(NullReference)
    ensures r.Ok? <==> (isbns.Some? &&
      forall i :: 0 <= i < |isbns.value| ==> !IsInvalidIsbn(isbns.value[i]) && isbns.value[i] in m)
    ensures r.Ok? ==> (|r.value| == |isbns.value| &&
      forall i :: 0 <= i < |r.value| ==> isbns.value[i] in m && r.value[i] == CustomerView(m[isbns.value[i]]))
  {
    match isbns
    case None => Err(NullInput)
    case Some(s) =>
      if !AllLockable(m, s) then Err(NullReference)
      else match IsbnCheck(m, s)
      case Some(e) => Err(e)
      case None => Ok(seq(|s|, i requires 0 <= i < |s| => CustomerView(m[s[i]])))
  }

  /** s lists every record of m exactly once (in some order). */
  ghost predicate IsListingOf(m: Catalog, s: seq<StockBook>)
  {
    && (forall i :: 0 <= i < |s| ==> s[i].isbn in m && m[s[i].isbn] == s[i])
    && (forall k :: k in m ==> exists i :: 0 <= i < |s| && s[i].isbn == k)
    && (forall i, j :: 0 <= i < j < |s| ==> s[i].isbn != s[j].isbn)
  }

  /** The ISBNs of the editor picks in the catalog. */
  function EditorPickIsbns(m: Catalog): set<ISBN>
  {
    set k | k in m && m[k].editorPick
  }

  /** The editor picks of a list of books, in list order. */
  function EditorPicksOf(books: seq<StockBook>): (r: seq<StockBook>)
    ensures |r| <= |books|
    ensures forall j :: 0 <= j < |r| ==> r[j].editorPick && r[j] in books
    ensures forall j :: 0 <= j < |books| && books[j].editorPick ==> books[j] in r
  {
    if books == [] then []
    else
      var init := books[..|books| - 1];
      var last := books[|books| - 1];
      assert forall j :: 0 <= j < |books| - 1 ==> books[j] == init[j];
      EditorPicksOf(init) + if last.editorPick then [last] else []
  }

  function Min(a: int, b: int): int
  {
    if a <= b then a else b
  }

  /** The distinct values a sequence of random draws takes. */
  function DrawSet(draws: seq<int>): set<int>
  {
    set j | 0 <= j < |draws| :: draws[j]
  }

  // ---------------------------------------------------------------- lemmas

  predicate DistinctCopyIsbns(batch: seq<BookCopy>)
  {
    forall i, j :: 0 <= i < j < |batch| ==> batch[i].isbn != batch[j].isbn
  }

  predicate DistinctPickIsbns(picks: seq<BookEditorPick>)
  {
    forall i, j :: 0 <= i < j < |picks| ==> picks[i].isbn != picks[j].isbn
  }

  predicate DistinctBookIsbns(books: seq<StockBook>)
  {
    forall i, j :: 0 <= i < j < |books| ==> books[i].isbn != books[j].isbn
  }

  lemma {:induction false} DemandOfAbsent(batch: seq<BookCopy>, k: ISBN)
    requires forall i :: 0 <= i < |batch| ==> batch[i].isbn != k
    ensures Demand(batch, k) == 0
  {
    if batch != [] {
      DemandOfAbsent(batch[1..], k);
    }
  }

  /** In a batch without repeated ISBNs, a book's demand is its one entry's count. */
  lemma {:induction false} DemandOfDistinct(batch: seq<BookCopy>, i: int)
    requires DistinctCopyIsbns(batch) && 0 <= i < |batch|
    ensures Demand(batch, batch[i].isbn) == batch[i].numCopies
  {
    if i == 0 {
      DemandOfAbsent(batch[1..], batch[0].isbn);
    } else {
      DemandOfDistinct(batch[1..], i - 1);
    }
  }

  /** In a batch without repeated ISBNs, a book is counted short at most once. */
  lemma {:induction false} ShortCountOfDistinct(stock: int, batch: seq<BookCopy>, i: int)
    requires DistinctCopyIsbns(batch) && 0 <= i < |batch|
    ensures ShortCount(stock, batch, batch[i].isbn) == if stock < batch[i].numCopies then 1 else 0
  {
    if i > 0 {
      ShortCountOfDistinct(stock, batch[1..], i - 1);
    } else {
      ShortCountZero(stock, batch[1..], batch[0].isbn);
    }
  }

  /**
   * buyBooks never drives a stock count negative when the batch names each
   * book once: a successful purchase takes at most the copies in store.
   */
  lemma BuyBooksKeepsStockNonNegative(m: Catalog, batch: seq<BookCopy>)
    requires NonNegativeStock(m) && DistinctCopyIsbns(batch)
    ensures NonNegativeStock(BuyBooksOp(m, Some(batch)).0)
  {
    var r := BuyBooksOp(m, Some(batch));
    if r.1.Success? {
      forall k | k in m ensures r.0[k].numCopies >= 0 {
        if i :| 0 <= i < |batch| && batch[i].isbn == k {
          DemandOfDistinct(batch, i);
        } else {
          DemandOfAbsent(batch, k);
        }
      }
    }
  }

  /** A purchase of valid entries that is short on some book fails with the catalog its check loop left. */
  lemma BuyBooksOpOnShortage(m: Catalog, batch: seq<BookCopy>)
    requires forall i :: 0 <= i < |batch| ==> PurchaseEntryOk(m, batch[i])
    requires exists i :: 0 <= i < |batch| && batch[i].isbn in m && m[batch[i].isbn].numCopies < batch[i].numCopies
    ensures BuyCheck(m, batch, false).error.None?
    ensures forall k :: k in m ==>
      BuyCheck(m, batch, false).books[k].saleMisses == m[k].saleMisses + ShortCount(m[k].numCopies, batch, k)
    ensures BuyBooksOp(m, Some(batch)) == (BuyCheck(m, batch, false).books, Failure(BooksNotAvailable))
  {
    BuyCheckFinds(m, batch, false);
    assert AllLockable(m, CopyIsbnSeq(batch));
  }

  /**
   * A purchase that is short on some book fails, leaves every stock count as
   * it was, and records exactly one sale miss on each short book.
   */
  lemma BuyBooksRecordsShortBooksOnce(m: Catalog, batch: seq<BookCopy>)
    requires DistinctCopyIsbns(batch)
    requires forall i :: 0 <= i < |batch| ==> PurchaseEntryOk(m, batch[i])
    requires exists i :: 0 <= i < |batch| && batch[i].isbn in m && m[batch[i].isbn].numCopies < batch[i].numCopies
    ensures BuyBooksOp(m, Some(batch)).1 == Failure(BooksNotAvailable)
    ensures forall i :: 0 <= i < |batch| ==>
      BuyBooksOp(m, Some(batch)).0[batch[i].isbn] == m[batch[i].isbn].(saleMisses :=
        m[batch[i].isbn].saleMisses + if m[batch[i].isbn].numCopies < batch[i].numCopies then 1 else 0)
    ensures forall k :: k in m && k !in CopyIsbns(batch) ==> BuyBooksOp(m, Some(batch)).0[k] == m[k]
  {
    BuyBooksOpOnShortage(m, batch);
    var scan := BuyCheck(m, batch, false);
    forall i | 0 <= i < |batch|
      ensures scan.books[batch[i].isbn].saleMisses == m[batch[i].isbn].saleMisses +
        if m[batch[i].isbn].numCopies < batch[i].numCopies then 1 else 0
    {
      ShortCountOfDistinct(m[batch[i].isbn].numCopies, batch, i);
    }
    forall k | k in m && k !in CopyIsbns(batch) ensures scan.books[k] == m[k] {
      ShortCountZero(m[k].numCopies, batch, k);
    }
  }

  /** Adding n copies of a book and then buying n copies of it restores the catalog. */
  lemma AddThenBuyRestores(m: Catalog, k: ISBN, n: int)
    requires k in m && !IsInvalidIsbn(k) && m[k].numCopies >= 0 && n >= 1
    ensures AddCopiesOp(m, Some([BookCopy(k, n)])).1 == Success
    ensures BuyBooksOp(AddCopiesOp(m, Some([BookCopy(k, n)])).0, Some([BookCopy(k, n)])) == (m, Success)
  {
    var order := [BookCopy(k, n)];
    assert Demand(order, k) == n by { DemandOfDistinct(order, 0); }
    forall j | j != k ensures Demand(order, j) == 0 {
      DemandOfAbsent(order, j);
    }
    var added := AddCopiesOp(m, Some(order));
    assert added.1 == Success by { assert CopiesEntryOk(m, order[0]); }
    var a := added.0;
    assert a[k].numCopies == m[k].numCopies + n;
    var bought := BuyBooksOp(a, Some(order));
    assert bought.1 == Success by {
      assert PurchaseEntryOk(a, order[0]) && order[0].numCopies <= a[order[0].isbn].numCopies;
    }
    forall j | j in m ensures bought.0[j] == m[j] {
      assert bought.0[j] == a[j].(numCopies := a[j].numCopies - Demand(order, j));
    }
    assert bought.0 == m;
  }

  /**
   * Buying a book's whole stock succeeds and empties it; buying the same
   * number again fails and records one sale miss.
   */
  lemma BuyWholeStockTwice(m: Catalog, k: ISBN)
    requires k in m && !IsInvalidIsbn(k) && m[k].numCopies > 0
    ensures var order := Some([BookCopy(k, m[k].numCopies)]);
      var first := BuyBooksOp(m, order);
      first.1 == Success && first.0[k].numCopies == 0 &&
      var second := BuyBooksOp(first.0, order);
      second.1 == Failure(BooksNotAvailable) &&
      second.0[k] == first.0[k].(saleMisses := first.0[k].saleMisses + 1)
  {
    var order := [BookCopy(k, m[k].numCopies)];
    DemandOfDistinct(order, 0);
    var first := BuyBooksOp(m, Some(order));
    assert first.1 == Success;
    BuyBooksRecordsShortBooksOnce(first.0, order);
  }

  /**
   * A batch that names one book twice, with different counts (so the two
   * entries are different BookCopy values even under value equality), is
   * checked entry by entry against the unchanged stock: when each count is
   * within stock but their sum is not, the purchase succeeds and leaves a
   * negative count.
   */
  lemma DuplicateEntriesCanOverdraw(m: Catalog, k: ISBN, a: int, b: int)
    requires k in m && !IsInvalidIsbn(k) && a != b
    requires 0 <= a <= m[k].numCopies && 0 <= b <= m[k].numCopies < a + b
    ensures var r := BuyBooksOp(m, Some([BookCopy(k, a), BookCopy(k, b)]));
      r.1 == Success && r.0[k].numCopies == m[k].numCopies - (a + b) < 0
  {
    var order := [BookCopy(k, a), BookCopy(k, b)];
    assert order[1..] == [BookCopy(k, b)];
    assert order[1..][1..] == [];
    assert Demand(order[1..], k) == b + Demand(order[1..][1..], k);
    assert Demand(order, k) == a + b;
  }

  lemma {:induction false} LastPickOfAbsent(picks: seq<BookEditorPick>, k: ISBN, current: bool)
    requires forall i :: 0 <= i < |picks| ==> picks[i].isbn != k
    ensures LastPick(picks, k, current) == current
  {
    if picks != [] {
      LastPickOfAbsent(picks[1..], k, current);
    }
  }

  /** In a batch without repeated ISBNs, a book ends with the flag its one entry sets. */
  lemma {:induction false} LastPickOfDistinct(picks: seq<BookEditorPick>, i: int, current: bool)
    requires DistinctPickIsbns(picks) && 0 <= i < |picks|
    ensures LastPick(picks, picks[i].isbn, current) == picks[i].editorPick
  {
    if i == 0 {
      LastPickOfAbsent(picks[1..], picks[0].isbn, picks[0].editorPick);
    } else {
      LastPickOfDistinct(picks[1..], i - 1, current);
    }
  }

  /** A valid updateEditorPicks sets exactly the listed flags and nothing else. */
  lemma UpdateEditorPicksSetsListedFlags(m: Catalog, picks: seq<BookEditorPick>)
    requires DistinctPickIsbns(picks)
    requires forall i :: 0 <= i < |picks| ==> !IsInvalidIsbn(picks[i].isbn) && picks[i].isbn in m
    ensures UpdateEditorPicksOp(m, Some(picks)).1 == Success
    ensures forall i :: 0 <= i < |picks| ==>
      UpdateEditorPicksOp(m, Some(picks)).0[picks[i].isbn] == m[picks[i].isbn].(editorPick := picks[i].editorPick)
    ensures forall k :: k in m && k !in PickIsbns(picks) ==> UpdateEditorPicksOp(m, Some(picks)).0[k] == m[k]
  {
    forall i | 0 <= i < |picks|
      ensures LastPick(picks, picks[i].isbn, m[picks[i].isbn].editorPick) == picks[i].editorPick
    {
      LastPickOfDistinct(picks, i, m[picks[i].isbn].editorPick);
    }
    forall k | k in m && k !in PickIsbns(picks) ensures LastPick(picks, k, m[k].editorPick) == m[k].editorPick {
      LastPickOfAbsent(picks, k, m[k].editorPick);
    }
  }

  /** A sequence of books with pairwise distinct ISBNs has as many ISBNs as books. */
  lemma {:induction false} DistinctBookIsbnsCard(books: seq<StockBook>)
    requires DistinctBookIsbns(books)
    ensures |BookIsbns(books)| == |books|
  {
    if books != [] {
      DistinctBookIsbnsCard(books[1..]);
      assert BookIsbns(books) == {books[0].isbn} + BookIsbns(books[1..]) by {
        forall k | k in BookIsbns(books) ensures k in {books[0].isbn} + BookIsbns(books[1..]) {
          var i :| 0 <= i < |books| && books[i].isbn == k;
          if i > 0 { assert books[1..][i - 1] == books[i]; }
        }
      }
      assert books[0].isbn !in BookIsbns(books[1..]);
    }
  }

  /** A listing of a catalog has one entry per record. */
  lemma ListingHasCatalogSize(m: Catalog, s: seq<StockBook>)
    requires IsListingOf(m, s)
    ensures |s| == |m|
  {
    DistinctBookIsbnsCard(s);
    forall k | k in m ensures k in BookIsbns(s) {
      var i :| 0 <= i < |s| && s[i].isbn == k;
    }
    assert BookIsbns(s) == m.Keys;
  }

  lemma {:induction false} EditorPicksOfDistinct(books: seq<StockBook>)
    requires DistinctBookIsbns(books)
    ensures DistinctBookIsbns(EditorPicksOf(books))
  {
    if books != [] {
      var init := books[..|books| - 1];
      var last := books[|books| - 1];
      EditorPicksOfDistinct(init);
      forall j | 0 <= j < |EditorPicksOf(init)| ensures EditorPicksOf(init)[j].isbn != last.isbn {
        var l :| 0 <= l < |init| && init[l] == EditorPicksOf(init)[j];
      }
    }
  }

  /**
   * The editor picks of a listing of a catalog are the catalog's editor
   * picks, each once.
   */
  lemma ListingEditorPicks(m: Catalog, books: seq<StockBook>)
    requires IsListingOf(m, books)
    ensures IsListingOf(map k | k in EditorPickIsbns(m) :: m[k], EditorPicksOf(books))
    ensures |EditorPicksOf(books)| == |EditorPickIsbns(m)|
  {
    var picks := EditorPicksOf(books);
    var pm := map k | k in EditorPickIsbns(m) :: m[k];
    EditorPicksOfDistinct(books);
    forall k | k in pm ensures exists i :: 0 <= i < |picks| && picks[i].isbn == k {
      var l :| 0 <= l < |books| && books[l].isbn == k;
      var i :| 0 <= i < |picks| && picks[i] == books[l];
    }
    assert IsListingOf(pm, picks);
    ListingHasCatalogSize(pm, picks);
    assert pm.Keys == EditorPickIsbns(m);
  }
}
