# A certain bookstore, in Dafny

This project models the core of "a certain bookstore", a Java teaching
system. A book store serves two kinds of client: customers, who list, look up
and buy books, and a stock manager, who adds books and copies, flags editor
picks and removes books. The core modelled here has six parts:

- **The concurrent store** (`ConcurrentCertainBookStore`). A map from ISBN to
  stock book, with one lock per ISBN. Every write first validates its whole
  batch and changes nothing when one entry is bad. `buyBooks` is the
  exception: it records a sale miss on each book it finds short, even when the
  purchase then fails.
- **Primary/backup replication.** The master's replicator fans every write
  out to the slaves and permanently drops a slave whose replication failed.
  A slave applies a replicated request to its own store.
- **The replication-aware client proxies.** They send writes to the master.
  They send reads to a randomly chosen replica, drop a slave that does not
  answer, and retry a read until the reply's snapshot id is at least as
  recent as the last one seen.
- **The workload generator.** Workers draw interactions at configured
  frequencies, and a book-set generator samples random books. The workload
  driver loads the store and reports the aggregate throughput.
- **Salaries.** `AddSalary`, a small monoid over Java `int` salaries, and the
  fold that uses it.
- **Integer helpers.** Java's 32- and 64-bit wrap-around and its truncating
  division.

Modules, one per file:

| file | module | Java |
|---|---|---|
| `types.dfy` | `BookStoreTypes` | books, copies, editor picks, errors, message tags, replication requests |
| `store_spec.dfy` | `StoreSpec` | what each store operation does, as functions on the catalog, and the lemmas about them |
| `concurrent_store.dfy` | `CertainStore` | `ConcurrentCertainBookStore`, a class proved against `StoreSpec` |
| `slave_store.dfy` | `SlaveStore` | `SlaveCertainBookStore` |
| `replication_task.dfy` | `ReplicationTasks` | `CertainBookStoreReplicationTask` |
| `replicator.dfy` | `Replicators` | `CertainBookStoreReplicator` |
| `proxy_common.dfy` | `ProxyCommon` | address normalisation, replica choice and the transport, shared by both proxies |
| `bookstore_proxy.dfy` | `BookStoreProxy` | `ReplicationAwareBookStoreHTTPProxy` |
| `stockmanager_proxy.dfy` | `StockManagerProxy` | `ReplicationAwareStockManagerHTTPProxy` |
| `random_books.dfy` | `RandomBooks` | the random-book factories and ISBN counters of the workload classes |
| `book_set_generator.dfy` | `BookSetGeneration` | `BookSetGenerator` |
| `worker.dfy` | `Workers` | `Worker` |
| `certain_workload.dfy` | `CertainWorkloads` | `CertainWorkload` |
| `java_ints.dfy` | `JavaInts` | Java `int`/`long` arithmetic |
| `add_salary.dfy` | `Salaries` | `AddSalary`, `Aggregation` |

How the model stands in for what it cannot run:

- **Values and order.**
  - A Java `Set` handed to an operation is a `seq` in its iteration order. It
    may repeat an element only where Java equality would let it.
  - A `null` collection is `None`.
  - Every exception is a value: `Failure(e)`, `Err(e)` or `Threw(e)`.
  - A `NullPointerException` is `NullReference`, and a `ClassCastException` is
    `PayloadMismatch`.
- **Oracles.** Randomness, the network and the remote `replicate` call are
  parameters. They are functions from the index of the draw or send to its
  outcome, and every method states its result in terms of them.
- **Replica bookkeeping.** A proxy's slave set is a `seq` of distinct
  addresses.
- **Assumed utility checks.** The validity checks of `BookStoreUtility`,
  which is not part of this model, are taken to be:
  - an ISBN is invalid when below 1;
  - a copy count is invalid when below 1;
  - a string is empty when it has no characters;
  - a book is invalid when its ISBN, title, author, price or copy count is.

A few behaviours of the code are modelled as written, because the contracts
state them:

- **Duplicate entries in `buyBooks`.** The stock check is made per entry, so
  a batch that names one book twice can buy more copies than are in stock
  (`StoreSpec.DuplicateEntriesCanOverdraw`).
- **The rare stock-manager interaction.** It re-adds the store's own books
  whose ISBN was not generated, so it never changes the store and fails
  whenever that batch is non-empty (see "## Findings").
- **The frequent stock-manager interaction.** It sorts the listing by
  decreasing copy count. It then re-adds the first `k` books with
  `addBooks`. Those books are already in the store, so the call fails
  whenever `k > 0` (see "## Findings").
- **A worker's runs.** A run really runs the interaction it draws against
  the configured stores. A `BookStoreException` makes the run unsuccessful;
  any other exception escapes and ends the worker's `call`.
- **The lock phase of the store.** It runs before validation and
  dereferences the lock of every ISBN named. An ISBN the store does not hold
  therefore fails with a `NullPointerException` before any error message or
  sale miss.
- **Network failures on stock-manager writes.** The stock-manager proxy's
  writes swallow a network failure and then dereference the null result.

## Model

| member | source | states |
|---|---|---|
| `StoreSpec.PickIsbns` | assignments/assignment2/src/com/acertainbookstore/business/ConcurrentCertainBookStore.java:102-108 | the ISBNs of the editor-pick requests, position by position |
| `StoreSpec.CopyIsbnSeq` | assignments/assignment2/src/com/acertainbookstore/business/ConcurrentCertainBookStore.java:94-100 | the ISBNs of the book copies, position by position |
| `StoreSpec.AddBooksCheck` | assignments/assignment2/src/com/acertainbookstore/business/ConcurrentCertainBookStore.java:128-146 | no error exactly when every book is valid and not yet in the store; otherwise the error names an invalid or duplicated book of the batch |
| `StoreSpec.InsertBooks` | assignments/assignment2/src/com/acertainbookstore/business/ConcurrentCertainBookStore.java:148-163 | the new catalog holds the old ISBNs plus the batch's; books not in the batch are unchanged; each batch ISBN maps to a batch book with that ISBN; ISBN-keying is preserved |
| `StoreSpec.AddBooksOp` | assignments/assignment2/src/com/acertainbookstore/business/ConcurrentCertainBookStore.java:118-170 | null fails with no change; success exactly when every book is valid and new, and then the keys grow by the batch's ISBNs and old books are untouched; any failure leaves the catalog unchanged |
| `StoreSpec.AddCopiesCheck` | assignments/assignment2/src/com/acertainbookstore/business/ConcurrentCertainBookStore.java:183-195 | no error exactly when every entry has a valid ISBN, a positive count and a book in the store |
| `StoreSpec.AddCopiesAll` | assignments/assignment2/src/com/acertainbookstore/business/ConcurrentCertainBookStore.java:197-204 | every book's count grows by the total the batch asks for it; nothing else changes |
| `StoreSpec.AddCopiesOp` | assignments/assignment2/src/com/acertainbookstore/business/ConcurrentCertainBookStore.java:172-209 | null fails; an unknown ISBN fails on its lock; success exactly when every entry is valid, and then each count grows by its demand; failure changes nothing |
| `StoreSpec.ShortCountZero` | assignments/assignment2/src/com/acertainbookstore/business/ConcurrentCertainBookStore.java:289-293 | a book has no short entry in a batch exactly when every entry for it asks for at most its stock |
| `StoreSpec.BuyCheck` | assignments/assignment2/src/com/acertainbookstore/business/ConcurrentCertainBookStore.java:275-294 | the validation scan keeps the set of books |
| `StoreSpec.BuyCheckOnlyAddsSaleMisses` | assignments/assignment2/src/com/acertainbookstore/business/ConcurrentCertainBookStore.java:288-293 | the validation scan changes no field but the sale-miss counts, and never lowers one |
| `StoreSpec.BuyCheckFailsOnInvalid` | assignments/assignment2/src/com/acertainbookstore/business/ConcurrentCertainBookStore.java:278-287 | the scan reports no error exactly when every entry has a non-negative count, a valid ISBN and a book in the store |
| `StoreSpec.BuyCheckMissesShortEntries` | assignments/assignment2/src/com/acertainbookstore/business/ConcurrentCertainBookStore.java:289-293 | on a valid batch the scan flags a sale miss exactly when some entry asks for more copies than are in stock |
| `StoreSpec.BuyCheckCountsSaleMissesOf` | assignments/assignment2/src/com/acertainbookstore/business/ConcurrentCertainBookStore.java:289-291 | on a valid batch one book's sale misses grow by the number of its short entries |
| `StoreSpec.BuyCheckCountsSaleMisses` | assignments/assignment2/src/com/acertainbookstore/business/ConcurrentCertainBookStore.java:275-294 | on a valid batch every book's sale misses grow by the number of its short entries |
| `StoreSpec.BuyCheckFinds` | assignments/assignment2/src/com/acertainbookstore/business/ConcurrentCertainBookStore.java:275-294 | the scan's error, miss flag and sale-miss counts, together |
| `StoreSpec.BuyCopiesAll` | assignments/assignment2/src/com/acertainbookstore/business/ConcurrentCertainBookStore.java:302-306 | every book's count drops by the total the batch buys of it; nothing else changes |
| `StoreSpec.BuyBooksOp` | assignments/assignment2/src/com/acertainbookstore/business/ConcurrentCertainBookStore.java:262-314 | null fails; an unknown ISBN fails on its lock; success exactly when every entry is valid and in stock, and then counts drop by the demand; a failure changes at most the sale-miss counts |
| `StoreSpec.IsbnCheck` | assignments/assignment2/src/com/acertainbookstore/business/ConcurrentCertainBookStore.java:241-249 | no error exactly when every ISBN is valid and in the store; otherwise the error names one of them |
| `StoreSpec.SetEditorPicks` | assignments/assignment2/src/com/acertainbookstore/business/ConcurrentCertainBookStore.java:251-254 | each book's flag is the last request for it, or unchanged when none names it; nothing else changes |
| `StoreSpec.UpdateEditorPicksOp` | assignments/assignment2/src/com/acertainbookstore/business/ConcurrentCertainBookStore.java:229-260 | null fails; an unknown ISBN fails on its lock; success exactly when every ISBN is valid and present, and then flags follow the last request; failure changes nothing |
| `StoreSpec.RemoveBooksOp` | assignments/assignment2/src/com/acertainbookstore/business/ConcurrentCertainBookStore.java:469-499 | null fails; an unknown ISBN fails on its lock; success exactly when every ISBN is valid and present, and then exactly those books are gone; the remaining books are unchanged |
| `StoreSpec.GetBooksByIsbnOp` | assignments/assignment2/src/com/acertainbookstore/business/ConcurrentCertainBookStore.java:316-345 | null fails; success exactly when every ISBN is valid and present, and then the i-th result is the stored book of the i-th ISBN |
| `StoreSpec.GetBooksOp` | assignments/assignment2/src/com/acertainbookstore/business/ConcurrentCertainBookStore.java:347-378 | as above, and the i-th result is the customer's view of the i-th ISBN's book |
| `StoreSpec.EditorPicksOf` | assignments/assignment2/src/com/acertainbookstore/business/ConcurrentCertainBookStore.java:391-396 | keeps only flagged books, and keeps every flagged book |
| `StoreSpec.DemandOfAbsent` | assignments/assignment2/src/com/acertainbookstore/business/ConcurrentCertainBookStore.java:199-204 | a batch that does not name a book asks nothing of it |
| `StoreSpec.DemandOfDistinct` | assignments/assignment2/src/com/acertainbookstore/business/ConcurrentCertainBookStore.java:199-204 | in a batch of distinct ISBNs a book's demand is its one entry's count |
| `StoreSpec.ShortCountOfDistinct` | assignments/assignment2/src/com/acertainbookstore/business/ConcurrentCertainBookStore.java:289-293 | in a batch of distinct ISBNs a book is short at most once |
| `StoreSpec.BuyBooksKeepsStockNonNegative` | assignments/assignment2/src/com/acertainbookstore/business/ConcurrentCertainBookStore.java:289-306 | with distinct ISBNs, buying never drives a count below zero |
| `StoreSpec.BuyBooksOpOnShortage` | assignments/assignment2/src/com/acertainbookstore/business/ConcurrentCertainBookStore.java:296-300 | a valid batch with a short entry fails with "books not available" and keeps the recorded sale misses |
| `StoreSpec.BuyBooksRecordsShortBooksOnce` | assignments/assignment1/src/com/acertainbookstore/business/test/CertainBookStoreTest.java:376-388 | with distinct ISBNs, a failed purchase adds one sale miss to each short book and changes nothing else |
| `StoreSpec.AddThenBuyRestores` | assignments/assignment2/src/com/acertainbookstore/client/tests/ConcurrencyTest.java:322-352 | adding n copies of a book and then buying n copies restores the store exactly |
| `StoreSpec.BuyWholeStockTwice` | assignments/assignment2/src/com/acertainbookstore/client/tests/ConcurrencyTest.java:430-447 | buying a book's whole stock succeeds once; the second purchase fails and records one sale miss |
| `StoreSpec.DuplicateEntriesCanOverdraw` | assignments/assignment2/src/com/acertainbookstore/business/ConcurrentCertainBookStore.java:289-306 | for every catalog and book: two entries for it with different counts, each within stock but together beyond it, make the purchase succeed and leave a negative count |
| `StoreSpec.LastPickOfAbsent` | assignments/assignment2/src/com/acertainbookstore/business/ConcurrentCertainBookStore.java:251-254 | a book no request names keeps its flag |
| `StoreSpec.LastPickOfDistinct` | assignments/assignment2/src/com/acertainbookstore/business/ConcurrentCertainBookStore.java:251-254 | with distinct ISBNs, a book's flag is its one request's value |
| `StoreSpec.UpdateEditorPicksSetsListedFlags` | assignments/assignment2/src/com/acertainbookstore/business/ConcurrentCertainBookStore.java:229-260 | with distinct valid ISBNs, the update succeeds, sets each listed flag and leaves other books unchanged |
| `StoreSpec.DistinctBookIsbnsCard` | assignments/assignment2/src/com/acertainbookstore/business/ConcurrentCertainBookStore.java:211-227 | books with distinct ISBNs have as many ISBNs as books |
| `StoreSpec.ListingHasCatalogSize` | assignments/assignment2/src/com/acertainbookstore/business/ConcurrentCertainBookStore.java:211-227 | a listing of the catalog has one book per entry |
| `StoreSpec.EditorPicksOfDistinct` | assignments/assignment2/src/com/acertainbookstore/business/ConcurrentCertainBookStore.java:391-396 | filtering a listing keeps ISBNs distinct |
| `StoreSpec.ListingEditorPicks` | assignments/assignment2/src/com/acertainbookstore/business/ConcurrentCertainBookStore.java:388-396 | filtering a listing yields a listing of exactly the flagged books |
| `CertainStore.ConcurrentCertainBookStore.constructor` | assignments/assignment2/src/com/acertainbookstore/business/ConcurrentCertainBookStore.java:35-40 | a new store is empty and holds no locks |
| `CertainStore.ConcurrentCertainBookStore.TakeLocks` | assignments/assignment2/src/com/acertainbookstore/business/ConcurrentCertainBookStore.java:68-79 | locking succeeds exactly when every ISBN named has a lock, that is, a book in the store |
| `CertainStore.ConcurrentCertainBookStore.CheckNewBooks` | assignments/assignment2/src/com/acertainbookstore/business/ConcurrentCertainBookStore.java:128-146 | the validation loop finds what `AddBooksCheck` finds |
| `CertainStore.ConcurrentCertainBookStore.InsertAll` | assignments/assignment2/src/com/acertainbookstore/business/ConcurrentCertainBookStore.java:148-163 | the insert loop produces `InsertBooks`' catalog and creates a lock for each new ISBN |
| `CertainStore.ConcurrentCertainBookStore.AddBooks` | assignments/assignment2/src/com/acertainbookstore/business/ConcurrentCertainBookStore.java:118-170 | the new catalog and status are `AddBooksOp`'s, and locks match the catalog's ISBNs |
| `CertainStore.ConcurrentCertainBookStore.CheckCopies` | assignments/assignment2/src/com/acertainbookstore/business/ConcurrentCertainBookStore.java:183-195 | the validation loop finds what `AddCopiesCheck` finds |
| `CertainStore.ConcurrentCertainBookStore.AddAllCopies` | assignments/assignment2/src/com/acertainbookstore/business/ConcurrentCertainBookStore.java:197-204 | the update loop produces `AddCopiesAll`'s catalog |
| `CertainStore.ConcurrentCertainBookStore.AddCopies` | assignments/assignment2/src/com/acertainbookstore/business/ConcurrentCertainBookStore.java:172-209 | catalog and status are `AddCopiesOp`'s; locks unchanged |
| `CertainStore.ConcurrentCertainBookStore.RecordSaleMisses` | assignments/assignment2/src/com/acertainbookstore/business/ConcurrentCertainBookStore.java:275-294 | the check loop leaves `BuyCheck`'s catalog, error and miss flag |
| `CertainStore.ConcurrentCertainBookStore.TakeAllCopies` | assignments/assignment2/src/com/acertainbookstore/business/ConcurrentCertainBookStore.java:302-306 | the buy loop produces `BuyCopiesAll`'s catalog |
| `CertainStore.ConcurrentCertainBookStore.BuyBooks` | assignments/assignment2/src/com/acertainbookstore/business/ConcurrentCertainBookStore.java:262-314 | catalog and status are `BuyBooksOp`'s; locks unchanged |
| `CertainStore.ConcurrentCertainBookStore.CheckIsbns` | assignments/assignment2/src/com/acertainbookstore/business/ConcurrentCertainBookStore.java:241-249 | the validation loop finds what `IsbnCheck` finds |
| `CertainStore.ConcurrentCertainBookStore.SetAllEditorPicks` | assignments/assignment2/src/com/acertainbookstore/business/ConcurrentCertainBookStore.java:251-254 | the update loop produces `SetEditorPicks`' catalog |
| `CertainStore.ConcurrentCertainBookStore.UpdateEditorPicks` | assignments/assignment2/src/com/acertainbookstore/business/ConcurrentCertainBookStore.java:229-260 | catalog and status are `UpdateEditorPicksOp`'s; locks unchanged |
| `CertainStore.ConcurrentCertainBookStore.DropAll` | assignments/assignment2/src/com/acertainbookstore/business/ConcurrentCertainBookStore.java:487-490 | exactly the named ISBNs leave the catalog and their locks go with them |
| `CertainStore.ConcurrentCertainBookStore.RemoveBooks` | assignments/assignment2/src/com/acertainbookstore/business/ConcurrentCertainBookStore.java:469-499 | catalog and status are `RemoveBooksOp`'s, and locks match the catalog's ISBNs |
| `CertainStore.ConcurrentCertainBookStore.RemoveAllBooks` | assignments/assignment2/src/com/acertainbookstore/business/ConcurrentCertainBookStore.java:463-467 | the catalog and the lock table are empty |
| `CertainStore.ConcurrentCertainBookStore.GetBooks` | assignments/assignment2/src/com/acertainbookstore/business/ConcurrentCertainBookStore.java:211-227 | the result lists every stored book once, so its length is the catalog's size |
| `CertainStore.ConcurrentCertainBookStore.GetBooksByIsbn` | assignments/assignment2/src/com/acertainbookstore/business/ConcurrentCertainBookStore.java:316-345 | the result is `GetBooksByIsbnOp`'s |
| `CertainStore.ConcurrentCertainBookStore.GetCustomerBooks` | assignments/assignment2/src/com/acertainbookstore/business/ConcurrentCertainBookStore.java:347-378 | the result is `GetBooksOp`'s |
| `CertainStore.ConcurrentCertainBookStore.GetEditorPicks` | assignments/assignment2/src/com/acertainbookstore/business/ConcurrentCertainBookStore.java:380-443 | a negative count fails; otherwise it returns min(n, number of picks) distinct editor picks, each the customer view of its stored book |
| `CertainStore.ConcurrentCertainBookStore.GetTopRatedBooks` | assignments/assignment2/src/com/acertainbookstore/business/ConcurrentCertainBookStore.java:445-449 | always fails as not implemented |
| `CertainStore.ConcurrentCertainBookStore.GetBooksInDemand` | assignments/assignment2/src/com/acertainbookstore/business/ConcurrentCertainBookStore.java:451-455 | always fails as not implemented |
| `CertainStore.ConcurrentCertainBookStore.RateBooks` | assignments/assignment2/src/com/acertainbookstore/business/ConcurrentCertainBookStore.java:457-461 | always fails as not implemented |
| `CertainStore.FilterEditorPicks` | assignments/assignment2/src/com/acertainbookstore/business/ConcurrentCertainBookStore.java:391-396 | the filter loop yields `EditorPicksOf` |
| `CertainStore.ChooseIndices` | assignments/assignment2/src/com/acertainbookstore/business/ConcurrentCertainBookStore.java:414-430 | chooses min(n, range) distinct indices, all in range |
| `CertainStore.CopyChosen` | assignments/assignment2/src/com/acertainbookstore/business/ConcurrentCertainBookStore.java:432-440 | one customer view per chosen index, ISBNs distinct |
| `SlaveStore.IsbnPayload` | assignments/assignment5/src/com/acertainbookstore/business/SlaveCertainBookStore.java:32-35 | a null set casts to null, an ISBN set to its ISBNs, and any other non-empty set fails the cast |
| `SlaveStore.StockBookPayload` | assignments/assignment5/src/com/acertainbookstore/business/SlaveCertainBookStore.java:41-44 | the same for stock books |
| `SlaveStore.CopyPayload` | assignments/assignment5/src/com/acertainbookstore/business/SlaveCertainBookStore.java:46-49 | the same for book copies |
| `SlaveStore.PickPayload` | assignments/assignment5/src/com/acertainbookstore/business/SlaveCertainBookStore.java:51-54 | the same for editor picks |
| `SlaveStore.WithPayload` | assignments/assignment5/src/com/acertainbookstore/business/SlaveCertainBookStore.java:29-66 | a failed cast fails with no change; otherwise the operation runs on the payload |
| `SlaveStore.ApplyRequest` | assignments/assignment5/src/com/acertainbookstore/business/SlaveCertainBookStore.java:29-66 | non-writes do nothing; "remove all" empties the store; null data fails with no change; only "add books" adds ISBNs, only removals drop them, and ISBN-keying is preserved |
| `SlaveStore.SlaveCertainBookStore.constructor` | assignments/assignment5/src/com/acertainbookstore/business/SlaveCertainBookStore.java:23-25 | a slave starts with an empty store of its own |
| `SlaveStore.SlaveCertainBookStore.Replicate` | assignments/assignment5/src/com/acertainbookstore/business/SlaveCertainBookStore.java:29-66 | the store and status are `ApplyRequest`'s for the request |
| `SlaveStore.ApplyWrite` | assignments/assignment5/src/com/acertainbookstore/business/SlaveCertainBookStore.java:31-59 | the master's write keeps the catalog ISBN-keyed |
| `SlaveStore.RequestOf` | assignments/assignment5/src/com/acertainbookstore/business/SlaveCertainBookStore.java:31-59 | a write travels under a write tag |
| `SlaveStore.ReplicaAppliesMastersWrite` | assignments/assignment5/src/com/acertainbookstore/business/SlaveCertainBookStore.java:31-59 | a slave applying the replicated request ends where the master's write ends |
| `SlaveStore.ApplyWrites` | assignments/assignment5/src/com/acertainbookstore/business/SlaveCertainBookStore.java:29-66 | a run of writes keeps the catalog ISBN-keyed |
| `SlaveStore.ReplicaConverges` | assignments/assignment5/src/com/acertainbookstore/business/SlaveCertainBookStore.java:29-66 | a slave that applies the requests of a run of writes in order reaches the master's catalog |
| `ReplicationTasks.ReplicationTask.Call` | assignments/assignment5/src/com/acertainbookstore/business/CertainBookStoreReplicationTask.java:25-42 | fails exactly on a network exception; otherwise it reports its destination, and success exactly when replicate returned normally |
| `Replicators.RemoveFaulty` | assignments/assignment5/src/com/acertainbookstore/business/CertainBookStoreReplicator.java:52-59 | removal only shrinks the client map and keeps the remaining clients; it succeeds exactly when every listed server is registered and not listed before |
| `Replicators.CertainBookStoreReplicator.constructor` | assignments/assignment5/src/com/acertainbookstore/business/CertainBookStoreReplicator.java:24-38 | a null server set leaves the client map unset; otherwise the map has one proxy client per distinct server address |
| `Replicators.CertainBookStoreReplicator.Replicate` | assignments/assignment5/src/com/acertainbookstore/business/CertainBookStoreReplicator.java:40-50 | with the map unset, a null dereference; otherwise one task per registered replica, each with the request and that replica's client |
| `Replicators.CertainBookStoreReplicator.MarkServersFaulty` | assignments/assignment5/src/com/acertainbookstore/business/CertainBookStoreReplicator.java:52-59 | a null list changes nothing; otherwise the client map and status are `RemoveFaulty`'s |
| `Replicators.RegisterAll` | assignments/assignment5/src/com/acertainbookstore/business/CertainBookStoreReplicator.java:32-34 | every server gets a client, which is the proxy for its own address |
| `Replicators.FailedDestinations` | assignments/assignment5/src/com/acertainbookstore/business/CertainBookStoreReplicator.java:40-50 | every listed failure is a task's destination |
| `Replicators.FailedDestinationsExactly` | assignments/assignment5/src/com/acertainbookstore/business/CertainBookStoreReplicationTask.java:25-42 | a destination is listed as failed exactly when its task did not report success |
| `Replicators.FailedDestinationsDistinct` | assignments/assignment5/src/com/acertainbookstore/business/CertainBookStoreReplicator.java:44-47 | distinct destinations give distinct failures |
| `Replicators.RemoveDistinctRegistered` | assignments/assignment5/src/com/acertainbookstore/business/CertainBookStoreReplicator.java:52-59 | removing distinct registered servers leaves exactly the others |
| `Replicators.FailedIffNotReturned` | assignments/assignment5/src/com/acertainbookstore/business/CertainBookStoreReplicator.java:44-47 | a replica fails exactly when replicate on it did not return normally |
| `Replicators.FailedAreRegistered` | assignments/assignment5/src/com/acertainbookstore/business/CertainBookStoreReplicator.java:44-47 | every failure is a registered replica |
| `Replicators.NotFailedAreHealthy` | assignments/assignment5/src/com/acertainbookstore/business/CertainBookStoreReplicator.java:44-47 | the replicas that did not fail are those on which replicate returned |
| `Replicators.FaultyRemovalKeepsHealthyReplicas` | assignments/assignment5/src/com/acertainbookstore/business/CertainBookStoreReplicator.java:40-59 | replicating and then marking the failed replicas faulty succeeds and keeps exactly the replicas on which replicate returned |
| `ProxyCommon.LowerChar` | assignments/assignment5/src/com/acertainbookstore/client/ReplicationAwareBookStoreHTTPProxy.java:81 | ASCII upper-case letters become lower case and other characters stay |
| `ProxyCommon.Lower` | assignments/assignment5/src/com/acertainbookstore/client/ReplicationAwareBookStoreHTTPProxy.java:81 | each character is lowered, and the length is kept |
| `ProxyCommon.SchemeSurvivesAppend` | assignments/assignment5/src/com/acertainbookstore/client/ReplicationAwareStockManagerHTTPProxy.java:75-77 | appending to an address keeps its scheme |
| `ProxyCommon.SchemePrefixHasScheme` | assignments/assignment5/src/com/acertainbookstore/client/ReplicationAwareBookStoreHTTPProxy.java:81-83 | prefixing `http://` gives an address with a scheme |
| `ProxyCommon.WithHttpScheme` | assignments/assignment5/src/com/acertainbookstore/client/ReplicationAwareBookStoreHTTPProxy.java:81-83 | the result has the scheme, and equals the input exactly when the input already had it |
| `ProxyCommon.WithHttpSchemeIdempotent` | assignments/assignment5/src/com/acertainbookstore/client/ReplicationAwareBookStoreHTTPProxy.java:81-83 | normalising twice is normalising once |
| `ProxyCommon.WithStockSuffix` | assignments/assignment5/src/com/acertainbookstore/client/ReplicationAwareStockManagerHTTPProxy.java:75-77 | the result ends in `/stock`, and equals the input exactly when the input already did |
| `ProxyCommon.StockAddress` | assignments/assignment5/src/com/acertainbookstore/client/ReplicationAwareStockManagerHTTPProxy.java:72-77 | a stock-manager address has the scheme and the `/stock` suffix |
| `ProxyCommon.StockAddressIdempotent` | assignments/assignment5/src/com/acertainbookstore/client/ReplicationAwareStockManagerHTTPProxy.java:72-77 | normalising a stock address twice is normalising once |
| `ProxyCommon.Remove` | assignments/assignment5/src/com/acertainbookstore/client/ReplicationAwareStockManagerHTTPProxy.java:93-95 | removal drops exactly the address, keeps the set distinct and changes nothing when the address is absent |
| `ProxyCommon.AddressSet` | assignments/assignment5/src/com/acertainbookstore/client/ReplicationAwareBookStoreHTTPProxy.java:85-91 | the slave set is distinct and holds exactly the normalised configured addresses |
| `ProxyCommon.CollectAddresses` | assignments/assignment5/src/com/acertainbookstore/client/ReplicationAwareStockManagerHTTPProxy.java:79-90 | the loop builds `AddressSet` |
| `ProxyCommon.IntegerString` | assignments/assignment5/src/com/acertainbookstore/client/ReplicationAwareBookStoreHTTPProxy.java:198 | `Integer.toString`: a '-' exactly for negative numbers, digits otherwise, and it parses back to the number |
| `ProxyCommon.DecimalDigits` | assignments/assignment5/src/com/acertainbookstore/client/ReplicationAwareBookStoreHTTPProxy.java:198 | the decimal digits of a natural, without leading zeros, denoting the number |
| `ProxyCommon.SelectReplica` | assignments/assignment5/src/com/acertainbookstore/client/ReplicationAwareBookStoreHTTPProxy.java:140-153 | always a slave of the set or the master: the num-th slave when num is in range, otherwise the master |
| `ProxyCommon.WalkToReplica` | assignments/assignment5/src/com/acertainbookstore/client/ReplicationAwareBookStoreHTTPProxy.java:144-152 | the iteration returns `SelectReplica`'s choice |
| `BookStoreProxy.EditorPicksQuery` | assignments/assignment5/src/com/acertainbookstore/client/ReplicationAwareBookStoreHTTPProxy.java:197-206 | the query starts with `?` and the count parameter, and what follows the `=` reads back as the requested count |
| `BookStoreProxy.ReplicationAwareBookStoreHTTPProxy.constructor` | assignments/assignment5/src/com/acertainbookstore/client/ReplicationAwareBookStoreHTTPProxy.java:74-93 | the master and slaves are normalised to the `http://` scheme, the slaves deduplicated, and the snapshot id is 0 |
| `BookStoreProxy.ReplicationAwareBookStoreHTTPProxy.MarkReplicaServerFaulty` | assignments/assignment5/src/com/acertainbookstore/client/ReplicationAwareBookStoreHTTPProxy.java:95-97 | the slave set loses the address; nothing else changes |
| `BookStoreProxy.ReplicationAwareBookStoreHTTPProxy.GetReplicaAddress` | assignments/assignment5/src/com/acertainbookstore/client/ReplicationAwareBookStoreHTTPProxy.java:140-153 | the choice is `SelectReplica`'s |
| `BookStoreProxy.ReplicationAwareBookStoreHTTPProxy.TryReplica` | assignments/assignment5/src/com/acertainbookstore/client/ReplicationAwareBookStoreHTTPProxy.java:104-129 | a write goes to the master and a read to the drawn replica; a slave that fails is dropped, and nothing else changes |
| `BookStoreProxy.ReplicationAwareBookStoreHTTPProxy.SendToAvailableReplica` | assignments/assignment5/src/com/acertainbookstore/client/ReplicationAwareBookStoreHTTPProxy.java:99-138 | every failed send is recorded and its slave dropped; an answer or relayed exception comes from the master or a slave; a write is sent once, to the master, and its failure raises "master not available"; "service not available" only after the master and all slaves failed |
| `BookStoreProxy.ReplicationAwareBookStoreHTTPProxy.ReadFresh` | assignments/assignment5/src/com/acertainbookstore/client/ReplicationAwareBookStoreHTTPProxy.java:181-188 | a returned list comes from a reply whose snapshot id becomes the stored one; the stored id never decreases |
| `BookStoreProxy.ReplicationAwareBookStoreHTTPProxy.GetBooks` | assignments/assignment5/src/com/acertainbookstore/client/ReplicationAwareBookStoreHTTPProxy.java:175-190 | a returned list is a replica's reply, and the snapshot id is fresh and monotone |
| `BookStoreProxy.ReplicationAwareBookStoreHTTPProxy.GetEditorPicks` | assignments/assignment5/src/com/acertainbookstore/client/ReplicationAwareBookStoreHTTPProxy.java:193-211 | the same, for the editor-picks query carrying the requested count |
| `BookStoreProxy.ReplicationAwareBookStoreHTTPProxy.BuyBooks` | assignments/assignment5/src/com/acertainbookstore/client/ReplicationAwareBookStoreHTTPProxy.java:159-172 | one send to the master; a reply stores its snapshot id; a server's exception passes on; a lost master raises "master not available" |
| `BookStoreProxy.ReplicationAwareBookStoreHTTPProxy.RateBooks` | assignments/assignment5/src/com/acertainbookstore/client/ReplicationAwareBookStoreHTTPProxy.java:222-226 | always throws "not implemented" |
| `BookStoreProxy.ReplicationAwareBookStoreHTTPProxy.GetTopRatedBooks` | assignments/assignment5/src/com/acertainbookstore/client/ReplicationAwareBookStoreHTTPProxy.java:228-232 | always throws "not implemented" |
| `StockManagerProxy.ReplicationAwareStockManagerHTTPProxy.constructor` | assignments/assignment5/src/com/acertainbookstore/client/ReplicationAwareStockManagerHTTPProxy.java:65-91 | master and slaves get the scheme and the `/stock` suffix; slaves are deduplicated; snapshot id 0 |
| `StockManagerProxy.ReplicationAwareStockManagerHTTPProxy.MarkReplicaServerFaulty` | assignments/assignment5/src/com/acertainbookstore/client/ReplicationAwareStockManagerHTTPProxy.java:93-95 | the slave set loses the address, and is unchanged when it was absent |
| `StockManagerProxy.ReplicationAwareStockManagerHTTPProxy.GetReplicaAddress` | assignments/assignment5/src/com/acertainbookstore/client/ReplicationAwareStockManagerHTTPProxy.java:121-134 | the choice is `SelectReplica`'s |
| `StockManagerProxy.ReplicationAwareStockManagerHTTPProxy.TryReplica` | assignments/assignment5/src/com/acertainbookstore/client/ReplicationAwareStockManagerHTTPProxy.java:101-111 | one send to the drawn replica; a slave that fails is dropped |
| `StockManagerProxy.ReplicationAwareStockManagerHTTPProxy.SendToAvailableReplica` | assignments/assignment5/src/com/acertainbookstore/client/ReplicationAwareStockManagerHTTPProxy.java:97-119 | failed sends are recorded and their slaves dropped; with no slave left it raises "service not available", and at once when it started with none |
| `StockManagerProxy.ReplicationAwareStockManagerHTTPProxy.ReadFresh` | assignments/assignment5/src/com/acertainbookstore/client/ReplicationAwareStockManagerHTTPProxy.java:190-197 | a returned list comes from a fresh reply whose id is stored; the stored id never decreases |
| `StockManagerProxy.ReplicationAwareStockManagerHTTPProxy.GetBooks` | assignments/assignment5/src/com/acertainbookstore/client/ReplicationAwareStockManagerHTTPProxy.java:187-199 | a returned list is a replica's reply, with a fresh snapshot id; no slaves means "service not available" |
| `StockManagerProxy.ReplicationAwareStockManagerHTTPProxy.GetBooksByIsbn` | assignments/assignment5/src/com/acertainbookstore/client/ReplicationAwareStockManagerHTTPProxy.java:295-313 | the same, for the look-up by ISBN |
| `StockManagerProxy.ReplicationAwareStockManagerHTTPProxy.WriteToMaster` | assignments/assignment5/src/com/acertainbookstore/client/ReplicationAwareStockManagerHTTPProxy.java:140-161 | one send to the master; a reply stores its id, a server's exception passes on, and a network failure ends in a null dereference with nothing stored |
| `StockManagerProxy.ReplicationAwareStockManagerHTTPProxy.AddBooks` | assignments/assignment5/src/com/acertainbookstore/client/ReplicationAwareStockManagerHTTPProxy.java:140-161 | a delivered reply sets the snapshot id; any other outcome throws and leaves it |
| `StockManagerProxy.ReplicationAwareStockManagerHTTPProxy.AddCopies` | assignments/assignment5/src/com/acertainbookstore/client/ReplicationAwareStockManagerHTTPProxy.java:163-184 | the same for adding copies |
| `StockManagerProxy.ReplicationAwareStockManagerHTTPProxy.UpdateEditorPicks` | assignments/assignment5/src/com/acertainbookstore/client/ReplicationAwareStockManagerHTTPProxy.java:201-224 | the same for updating editor picks |
| `StockManagerProxy.ReplicationAwareStockManagerHTTPProxy.RemoveAllBooks` | assignments/assignment5/src/com/acertainbookstore/client/ReplicationAwareStockManagerHTTPProxy.java:248-268 | the same for removing all books |
| `StockManagerProxy.ReplicationAwareStockManagerHTTPProxy.RemoveBooks` | assignments/assignment5/src/com/acertainbookstore/client/ReplicationAwareStockManagerHTTPProxy.java:270-292 | the same for removing books |
| `StockManagerProxy.ReplicationAwareStockManagerHTTPProxy.GetBooksInDemand` | assignments/assignment5/src/com/acertainbookstore/client/ReplicationAwareStockManagerHTTPProxy.java:243-246 | always throws "not implemented" |
| `RandomBooks.RandomBook` | assignments/assignment4/src/com/acertainbookstore/client/workloads/CertainWorkload.java:207-227 | the book has the given ISBN; well-formed draws give counts in their ranges and a valid book; editor pick exactly when the pick draw is 0 |
| `RandomBooks.RandomBatch` | assignments/assignment4/src/com/acertainbookstore/client/workloads/CertainWorkload.java:176-183 | a batch of consecutive ISBNs from the start, all distinct |
| `RandomBooks.RandomBatchLoadsEmptyCatalog` | assignments/assignment4/src/com/acertainbookstore/client/workloads/CertainWorkload.java:172-186 | loading such a batch into an empty store succeeds and holds exactly those ISBNs |
| `RandomBooks.IsbnCounter.constructor` | assignments/assignment4/src/com/acertainbookstore/client/workloads/CertainWorkload.java:40 | the counter starts at 1 |
| `RandomBooks.IsbnCounter.GetNextIsbn` | assignments/assignment4/src/com/acertainbookstore/client/workloads/CertainWorkload.java:190-192 | returns the counter and advances it by one |
| `RandomBooks.MakeRandomBook` | assignments/assignment4/src/com/acertainbookstore/client/workloads/BookSetGenerator.java:138-158 | draws the book `RandomBook` describes for the next ISBN |
| `RandomBooks.MakeRandomBooks` | assignments/assignment4/src/com/acertainbookstore/client/workloads/CertainWorkload.java:176-183 | the loop produces `RandomBatch` and advances the counter by the count |
| `BookSetGeneration.ClampedBound` | assignments/assignment4/src/com/acertainbookstore/client/workloads/BookSetGenerator.java:90-91 | the bound is clamped to the store size minus one |
| `BookSetGeneration.OffsetCount` | assignments/assignment4/src/com/acertainbookstore/client/workloads/BookSetGenerator.java:88-119 | how many offsets are drawn: at most the clamped bound and at most the requested number, and exactly that number when it fits |
| `BookSetGeneration.AtOffsets` | assignments/assignment4/src/com/acertainbookstore/client/workloads/BookSetGenerator.java:47-53 | keeps only items of the input, and keeps every item at a chosen offset |
| `BookSetGeneration.AtOffsetsIgnoresBeyond` | assignments/assignment4/src/com/acertainbookstore/client/workloads/BookSetGenerator.java:47-53 | offsets past the end select nothing |
| `BookSetGeneration.AtOffsetsSize` | assignments/assignment4/src/com/acertainbookstore/client/workloads/BookSetGenerator.java:47-53 | at most one item per offset, and exactly one when all offsets are in range |
| `BookSetGeneration.AtOffsetsDistinct` | assignments/assignment4/src/com/acertainbookstore/client/workloads/BookSetGenerator.java:47-53 | distinct items stay distinct |
| `BookSetGeneration.AtOffsetsDistinctIsbns` | assignments/assignment4/src/com/acertainbookstore/client/workloads/BookSetGenerator.java:75-80 | books with distinct ISBNs stay so |
| `BookSetGeneration.AtOffsetsOmits` | assignments/assignment4/src/com/acertainbookstore/client/workloads/BookSetGenerator.java:75-80 | an item at an offset not chosen is not selected |
| `BookSetGeneration.SelectAtOffsets` | assignments/assignment4/src/com/acertainbookstore/client/workloads/BookSetGenerator.java:47-53 | the walk selects `AtOffsets`' items |
| `BookSetGeneration.Range` | assignments/assignment4/src/com/acertainbookstore/client/workloads/BookSetGenerator.java:104-106 | the candidate offsets a, ..., b-1 in order |
| `BookSetGeneration.GenerateRandomOffsets` | assignments/assignment4/src/com/acertainbookstore/client/workloads/BookSetGenerator.java:88-119 | draws `OffsetCount` distinct offsets below the store size minus one |
| `BookSetGeneration.BookSetGenerator.constructor` | assignments/assignment4/src/com/acertainbookstore/client/workloads/BookSetGenerator.java:30-34 | the generator holds `RandomBatch`'s books, and the counter advances by the store size |
| `BookSetGeneration.BookSetGenerator.SampleFromSetOfIsbns` | assignments/assignment4/src/com/acertainbookstore/client/workloads/BookSetGenerator.java:42-56 | a distinct subset of the ISBNs, at the drawn offsets |
| `BookSetGeneration.BookSetGenerator.NextSetOfStockBooks` | assignments/assignment4/src/com/acertainbookstore/client/workloads/BookSetGenerator.java:70-83 | `OffsetCount` generated books with distinct ISBNs, never the last book |
| `Workers.ChooseInteraction` | assignments/assignment4/src/com/acertainbookstore/client/workloads/Worker.java:48-58 | rare below the first threshold, frequent stock below the second, customer otherwise, each exactly |
| `Workers.CountBounds` | assignments/assignment4/src/com/acertainbookstore/client/workloads/Worker.java:91-102 | successes never exceed runs, and customer successes never exceed customer runs or all successes |
| `Workers.CountAllCustomer` | assignments/assignment4/src/com/acertainbookstore/client/workloads/Worker.java:50-58 | when every run is a customer run, every run and every success is counted as one |
| `Workers.WithoutIsbns` | assignments/assignment4/src/com/acertainbookstore/client/workloads/Worker.java:138-146 | keeps exactly the books whose ISBN is not listed |
| `Workers.WithoutIsbnsKeepsDistinct` | assignments/assignment4/src/com/acertainbookstore/client/workloads/Worker.java:138-146 | filtering keeps ISBNs distinct |
| `Workers.AddingListedBooksChangesNothing` | assignments/assignment4/src/com/acertainbookstore/client/workloads/Worker.java:189 | re-adding books from the store's own listing changes nothing and fails unless the batch is empty |
| `Workers.BooksNotFoundAddsNothing` | assignments/assignment4/src/com/acertainbookstore/client/workloads/Worker.java:138-146 | as written, the batch is the listed books whose ISBN was not generated: adding it never changes the store and fails whenever it is non-empty |
| `Workers.EmptyBooksNotFoundCoversStore` | assignments/assignment4/src/com/acertainbookstore/client/workloads/Worker.java:138-147 | the as-written batch is empty only when every store book carries the ISBN of one of the generator's books |
| `Workers.GeneratedBooksNotFoundAreAdded` | assignments/assignment4/src/com/acertainbookstore/client/workloads/Worker.java:138-146 | as intended, the batch is the generated books whose ISBN is not listed: adding it succeeds, leaves every generated ISBN in the store and keeps the old books |
| `Workers.CompareByCopies` | assignments/assignment4/src/com/acertainbookstore/client/workloads/Worker.java:171-186 | negative exactly when the first book has more copies; positive exactly when fewer |
| `Workers.ConsNonIncreasing` | assignments/assignment4/src/com/acertainbookstore/client/workloads/Worker.java:170-186 | a book with at least the head's copies can go in front |
| `Workers.InsertByCopies` | assignments/assignment4/src/com/acertainbookstore/client/workloads/Worker.java:170-186 | insertion keeps the order and the multiset |
| `Workers.SortByCopies` | assignments/assignment4/src/com/acertainbookstore/client/workloads/Worker.java:170-186 | a permutation in non-increasing copy order |
| `Workers.SortedPrefixDominates` | assignments/assignment4/src/com/acertainbookstore/client/workloads/Worker.java:170-189 | a prefix of a sorted list has at least the copies of everything after it |
| `Workers.MostStockedBooks` | assignments/assignment4/src/com/acertainbookstore/client/workloads/Worker.java:170-189 | the k books with the most copies; k outside 0..size is an index error |
| `Workers.InsertKeepsDistinctIsbns` | assignments/assignment4/src/com/acertainbookstore/client/workloads/Worker.java:170-186 | inserting a book with a new ISBN into a sorted list keeps the ISBNs distinct |
| `Workers.SortKeepsDistinctIsbns` | assignments/assignment4/src/com/acertainbookstore/client/workloads/Worker.java:170-186 | sorting a list with distinct ISBNs keeps them distinct |
| `Workers.SortedSuffixDominated` | assignments/assignment4/src/com/acertainbookstore/client/workloads/Worker.java:170-186 | the last `k` books of a sorted permutation are in the list and have at most the copies of any book before them |
| `Workers.LeastStockedBooks` | assignments/assignment4/src/com/acertainbookstore/client/workloads/Worker.java:154-190 | as intended, the `k` books with the fewest copies; `k` outside 0..size is an index error |
| `Workers.Restock` | assignments/assignment4/src/com/acertainbookstore/client/workloads/Worker.java:154-190 | as intended, one `addCopies` entry of `n` copies per book, in order |
| `Workers.RestockListedBooks` | assignments/assignment4/src/com/acertainbookstore/client/workloads/Worker.java:154-190 | as intended, adding `n >= 1` copies of listed books with distinct ISBNs succeeds, adds `n` to each and leaves the rest unchanged |
| `Workers.LeastStockedBooksAreRestocked` | assignments/assignment4/src/com/acertainbookstore/client/workloads/Worker.java:154-190 | as intended, restocking the `k` least-stocked books of a listing succeeds, adds `n` copies to each and leaves every other book unchanged |
| `Workers.Purchase` | assignments/assignment4/src/com/acertainbookstore/client/workloads/Worker.java:208-215 | the first n picks, each with the configured copy count; n outside range is an index error |
| `Workers.PurchaseOfDistinctPicks` | assignments/assignment4/src/com/acertainbookstore/client/workloads/Worker.java:208-215 | distinct picks give a purchase with distinct ISBNs, drawn from the picks |
| `Workers.SelectNotListed` | assignments/assignment4/src/com/acertainbookstore/client/workloads/Worker.java:141-146 | the loop keeps the store's books whose ISBN was not drawn, as `WithoutIsbns` |
| `Workers.Worker.constructor` | assignments/assignment4/src/com/acertainbookstore/client/workloads/Worker.java:32-34 | the worker keeps its configuration, and its counters start at zero |
| `Workers.Outcome` | assignments/assignment4/src/com/acertainbookstore/client/workloads/Worker.java:46-63 | a run returns normally exactly on success, is unsuccessful exactly on a `BookStoreException`, and lets every other exception escape |
| `Workers.Worker.RunInteraction` | assignments/assignment4/src/com/acertainbookstore/client/workloads/Worker.java:46-63 | runs the interaction the draw chooses, with its status turned into the `Outcome`; only a customer interaction touches the counters, one success exactly when it returns normally; a rare run succeeds only if every store book has a generator ISBN, a frequent stock-manager run succeeds exactly when `k` is 0, neither changes a store, and purchases keep stock non-negative |
| `Workers.Worker.RunMany` | assignments/assignment4/src/com/acertainbookstore/client/workloads/Worker.java:79-97 | one of `call`'s loops: `max(0, n)` runs, stopping at the first escaping exception, with the normal returns and the customer interactions counted as `Count` does |
| `Workers.Worker.Call` | assignments/assignment4/src/com/acertainbookstore/client/workloads/Worker.java:69-103 | an escaping exception ends the call with that error; otherwise the result counts the measured runs after the warm-up, the counters reset between, its numbers respect the run bounds, every run is reported as its interaction promises, the stock manager's catalog never changes unless it is also the book store, and stock stays non-negative |
| `Workers.Worker.RunRareStockManagerInteraction` | assignments/assignment4/src/com/acertainbookstore/client/workloads/Worker.java:110-147 | a missing component fails; otherwise it hands `addBooks` the listed books whose ISBN was not generated, as `AddBooksOp`, so the store never changes and the call fails whenever that batch is non-empty |
| `Workers.Worker.RunFrequentStockManagerInteraction` | assignments/assignment4/src/com/acertainbookstore/client/workloads/Worker.java:154-190 | never changes the store; succeeds exactly when k is 0; an out-of-range k is an index error |
| `Workers.Worker.RunFrequentBookStoreInteraction` | assignments/assignment4/src/com/acertainbookstore/client/workloads/Worker.java:197-218 | gets min(n, picks) editor picks and buys the first ones with distinct ISBNs, as `BuyBooksOp`; keeps stock non-negative |
| `CertainWorkloads.InitializeBookStoreData` | assignments/assignment4/src/com/acertainbookstore/client/workloads/CertainWorkload.java:172-186 | loads `RandomBatch` into an empty store; with well-formed draws it succeeds and holds exactly the next store-size ISBNs |
| `CertainWorkloads.RunningTotal` | assignments/assignment4/src/com/acertainbookstore/client/workloads/CertainWorkload.java:145-151 | a running total stays within the width of the Java variable holding it: `long` for the elapsed time, `int` otherwise |
| `CertainWorkloads.RunningTotals` | assignments/assignment4/src/com/acertainbookstore/client/workloads/CertainWorkload.java:145-151 | the five totals, each within its Java type's range |
| `CertainWorkloads.RunningTotalIsWrappedSum` | assignments/assignment4/src/com/acertainbookstore/client/workloads/CertainWorkload.java:145-151 | a running `int`/`long` total is the true sum wrapped to the field's width |
| `CertainWorkloads.RunningTotalsAreWrappedSums` | assignments/assignment4/src/com/acertainbookstore/client/workloads/CertainWorkload.java:145-151 | all five totals, likewise |
| `CertainWorkloads.FieldSumMonotone` | assignments/assignment4/src/com/acertainbookstore/client/workloads/CertainWorkload.java:145-151 | a field bounded by another in every result is bounded in the sum |
| `CertainWorkloads.SummedResultsKeepWorkerBounds` | assignments/assignment4/src/com/acertainbookstore/client/workloads/CertainWorkload.java:145-151 | summed successes stay within summed runs |
| `CertainWorkloads.ReportMetric` | assignments/assignment4/src/com/acertainbookstore/client/workloads/CertainWorkload.java:136-164 | fails with division by zero exactly when the elapsed total is 0; otherwise the throughput is the truncated quotient of the totals |
| `JavaInts.Wrap32` | assignments/assignment4/src/com/acertainbookstore/client/workloads/CertainWorkload.java:145-151 | 32-bit two's complement: in the int range, congruent to the exact value modulo 2^32, and so the identity on values already in range |
| `JavaInts.Wrap32Unique` | assignments/assignment4/src/com/acertainbookstore/client/workloads/CertainWorkload.java:145-151 | the int-range value congruent to x modulo 2^32 is unique, so Wrap32 is Java's wrap-around and not, say, saturation |
| `JavaInts.Wrap64` | assignments/assignment4/src/com/acertainbookstore/client/workloads/CertainWorkload.java:145-151 | in the long range and congruent to the exact value modulo 2^64 |
| `JavaInts.Wrap32Absorbs` | assignments/assignment4/src/com/acertainbookstore/client/workloads/CertainWorkload.java:145-151 | wrapping a partial sum does not change the wrapped total |
| `JavaInts.Wrap64Absorbs` | assignments/assignment4/src/com/acertainbookstore/client/workloads/CertainWorkload.java:145-151 | the same for 64 bits |
| `JavaInts.DivisionBounds` | assignments/assignment4/src/com/acertainbookstore/client/workloads/CertainWorkload.java:153 | the quotient of naturals brackets the dividend |
| `JavaInts.Quotient` | assignments/assignment4/src/com/acertainbookstore/client/workloads/CertainWorkload.java:153 | Java integer division: fails on 0; otherwise it truncates toward zero, with the sign of the operands |
| `Salaries.Neutral` | AdvJava/Assignment1/src/assignment1/AddSalary.java:5-7 | the neutral salary is 0 |
| `Salaries.Combine` | AdvJava/Assignment1/src/assignment1/AddSalary.java:9-11 | Java `Integer` addition: congruent to the exact sum modulo 2^32 (so the wrapped sum on overflow), and the sum itself whenever it fits |
| `Salaries.NeutralIsIdentity` | AdvJava/Assignment1/src/assignment1/AddSalary.java:5-11 | the neutral element is a left and right identity |
| `Salaries.CombineCommutative` | AdvJava/Assignment1/src/assignment1/AddSalary.java:9-11 | combining is commutative |
| `Salaries.CombineAssociative` | AdvJava/Assignment1/src/assignment1/AddSalary.java:9-11 | combining is associative, even with wrap-around |
| `Salaries.Get` | AdvJava/Assignment1/src/assignment1/AddSalary.java:13-15 | an employee's salary |
| `Salaries.Aggregate` | AdvJava/Assignment1/src/assignment1/Aggregation.java:7-17 | the fold of the salaries from the neutral element is congruent to their exact sum modulo 2^32 |
| `Salaries.AggregateIsSalarySum` | AdvJava/Assignment1/src/assignment1/Aggregation.java:7-17 | the fold is the wrapped sum of the salaries, and the exact sum when it fits |
| `Salaries.AggregateAppend` | AdvJava/Assignment1/src/assignment1/Aggregation.java:7-17 | folding two lists is combining their folds |

## Left out

- Locking and concurrency are left out. The global read-write lock, the
  per-ISBN locks and their interleavings are not modelled: every operation
  runs alone. Only the lock table's keys are kept, together with the null
  dereference of a missing lock.
- Some quirks of the locks are not modelled, because the model has no locks
  to hold:
  - `addBooks` locks a fresh lock object, not the one it stores;
  - `removeAllBooks` never releases the per-ISBN locks it takes.
- `CertainStore.ConcurrentCertainBookStore.RemoveBooks`: the `finally`
  releases the global write lock, which `write_lock` has already released.
  Under Java's lock semantics that throws `IllegalMonitorStateException`
  after the catalog has changed, and on the error path it replaces the
  `BookStoreException`. Lock ownership is not modelled, so the status is the
  one the body computes.
- The workload's thread pool, futures and timing are left out. The workers'
  results are parameters, and the clock reads are `Call`'s `startTime` and
  `endTime` parameters.
- The transport, the XML serialisation and Jetty are left out. A send is the
  `Network` oracle's outcome, and its payload is not modelled. The stock
  manager's write queries are the tags alone.
- Loading the properties file is left out: the proxies' constructors take
  the master and slave addresses as parameters.
- `stop()` on both proxies and on the replicator's clients is left out,
  because it only shuts down the HTTP clients.
- The proxies' retry loop is bounded by the oracle's `limit`. Once the
  bound is reached the result is `OutOfAttempts`/`Exhausted`, where the Java
  would keep trying.
- `toLowerCase` is modelled on ASCII letters only.
- String identity (`==`) on the master's address is modelled as "the send
  went to the master".
- `BookSetGenerator.getRandomSetOfStockBooks` is left out: it draws a float
  fraction of the set, and floating point is not modelled.
- Worker choices are drawn as reals, and prices are reals rather than
  floats.
- Printing and logging are left out.
- `Workers.Worker.Call` takes the `Random` draws as parameters: the
  interaction draw, the generator's offset draws and the editor-pick draws.
  The editor-pick draws must give enough distinct picks for every catalog,
  which stands for the store's loop drawing until it has them.
- A `HashSet`'s iteration order is modelled as insertion order. This covers
  the proxies' slave sets (`ProxyCommon.AddressSet`) and the generator's
  books (`BookSetGeneration.BookSetGenerator.constructor`). It therefore
  fixes which book `NextSetOfStockBooks` never returns.
- `Workers.Worker.Call`: the `int` counters are not wrapped at 2^31.
- `Workers.SortByCopies`: stability of `Collections.sort` is not stated.
  Only the permutation and the order are stated.
- `CertainStore.ConcurrentCertainBookStore.GetEditorPicks` takes the random
  draws as a parameter. Its `requires` only says that the draws give enough
  distinct values, which stands for the Java loop drawing until it has them.
- `CertainBookStore`, `BookStoreBook`, `StockBook`'s equality and
  `BookStoreUtility` are not part of this model. The validity predicates
  above stand in for the utility's checks. The slave's and the workload's
  stores use the semantics of `ConcurrentCertainBookStore`.
- A `null` listing returned by `getBooks` to a worker is not modelled, since
  the store never returns one.
- The master store's call sites of the replicator, and
  `ReplicationAwareServerHTTPProxy`, are not part of this model. The
  replicator's callers are represented by `FaultyRemovalKeepsHealthyReplicas`.
- `IncreaseSalary` and `ListMutation` are not part of this model: they are
  exercises outside the bookstore.

## Findings

| source | as written | input that shows it | evidently intended | confidence | as-written member | corrected member |
|---|---|---|---|---|---|---|
| assignments/assignment4/src/com/acertainbookstore/client/workloads/Worker.java:138-146 | the rare interaction collects the store's books whose ISBN is not among the generated ones and adds them with `addBooks`; those books are already in the store, so the call changes nothing and fails with a duplicate ISBN | any store holding a book whose ISBN is not among the generated ones | add the generated books whose ISBN is not yet in the store | high, not executed | `Workers.BooksNotFoundAddsNothing` | `Workers.GeneratedBooksNotFoundAreAdded` |
| assignments/assignment4/src/com/acertainbookstore/client/workloads/Worker.java:170-190 | the frequent stock-manager interaction sorts the listing by decreasing copies, takes the first `numBooksWithLeastCopies` books, which are the most stocked, and hands them to `addBooks`; they are already in the store, so the call changes nothing and fails whenever `k > 0` | a non-empty store and `numBooksWithLeastCopies` = 1 | add copies to the `k` books with the fewest copies with `addCopies` | medium, not executed | `Workers.AddingListedBooksChangesNothing` | `Workers.LeastStockedBooksAreRestocked` |
