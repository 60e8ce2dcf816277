/**
 * CertainWorkload: it fills the store with freshly generated books before
 * the workers start, and afterwards aggregates the workers' results into
 * totals and a throughput.
 */
module CertainWorkloads {
  import opened BookStoreTypes
  import opened StoreSpec
  import opened CertainStore
  import opened RandomBooks
  import opened JavaInts
  import Workers

  /** bookStoreSize: how many books initializeBookStoreData loads. */
  const BookStoreSize := 1000

  // ------------------------------------------------------------ initialisation

  /**
   * initializeBookStoreData, with the workload's own ISBN counter and the
   * random draws for each book: empty the store, then add BookStoreSize
   * books made with the counter's next ISBNs. The set it builds is local
   * to the call (the parameter is reassigned), so the caller's
   * randomizedBooks is left as it was. Well-formed draws and a counter at
   * a positive ISBN leave the store holding exactly the new ISBNs.
   */
  method InitializeBookStoreData(stockManager: ConcurrentCertainBookStore, counter: IsbnCounter,
                                 draws: nat -> BookDraws) returns (s: Status)
    requires stockManager.Valid() && counter.Valid()
    modifies stockManager, counter
    ensures stockManager.Valid() && counter.Valid()
    ensures counter.next == old(counter.next) + BookStoreSize
    ensures (stockManager.bookMap, s) == AddBooksOp(map[], Some(RandomBatch(old(counter.next), draws, BookStoreSize)))
    ensures (forall i :: 0 <= i < BookStoreSize ==> WellDrawn(draws(i))) ==>
      && s == Success
      && forall k :: k in stockManager.bookMap <==> old(counter.next) <= k < old(counter.next) + BookStoreSize
  {
    stockManager.RemoveAllBooks();
    ghost var start := counter.next;
    var randomizedBooks := MakeRandomBooks(counter, BookStoreSize, draws);
    s := stockManager.AddBooks(Some(randomizedBooks));
    if forall i :: 0 <= i < BookStoreSize ==> WellDrawn(draws(i)) {
      RandomBatchLoadsEmptyCatalog(start, draws, BookStoreSize);
    }
  }

  // ------------------------------------------------------------------ metrics

  /** The five totals reportMetric accumulates, the first four in Java ints and the elapsed time in a long. */
  datatype Totals = Totals(
    successfulInteractions: int,
    totalRuns: int,
    elapsedTimeInNanoSecs: int,
    successfulFrequentBookStoreInteractionRuns: int,
    totalFrequentBookStoreInteractionRuns: int)

  /** What reportMetric reports: the totals and the throughput. */
  datatype Metrics = Metrics(totals: Totals, aggregateThroughput: int)

  /** The fields of a worker result that reportMetric sums. */
  datatype Field = Successful | Runs | Elapsed | FrequentSuccessful | FrequentTotal

  function FieldOf(r: Workers.WorkerRunResult, f: Field): int
  {
    match f
    case Successful => r.successfulInteractions
    case Runs => r.totalRuns
    case Elapsed => r.elapsedTimeInNanoSecs
    case FrequentSuccessful => r.successfulFrequentBookStoreInteractionRuns
    case FrequentTotal => r.totalFrequentBookStoreInteractionRuns
  }

  /** The exact sum of one field over a list of worker results. */
  function FieldSum(results: seq<Workers.WorkerRunResult>, f: Field): int
  {
    if results == [] then 0
    else FieldSum(results[..|results| - 1], f) + FieldOf(results[|results| - 1], f)
  }

  /** The width of the Java variable a total is kept in: a long for the elapsed time, an int for the rest. */
  function WrapField(x: int, f: Field): int
  {
    if f == Elapsed then Wrap64(x) else Wrap32(x)
  }

  /** The running total of one field after the given results, kept in its Java type. */
  function RunningTotal(results: seq<Workers.WorkerRunResult>, f: Field): (r: int)
    ensures f == Elapsed ==> -LongModulus / 2 <= r < LongModulus / 2
    ensures f != Elapsed ==> -IntModulus / 2 <= r < IntModulus / 2
  {
    if results == [] then 0
    else WrapField(RunningTotal(results[..|results| - 1], f) + FieldOf(results[|results| - 1], f), f)
  }

  /** The five running totals after the given results. */
  function RunningTotals(results: seq<Workers.WorkerRunResult>): (r: Totals)
    ensures -LongModulus / 2 <= r.elapsedTimeInNanoSecs < LongModulus / 2
    ensures -IntModulus / 2 <= r.successfulInteractions < IntModulus / 2
    ensures -IntModulus / 2 <= r.totalRuns < IntModulus / 2
    ensures -IntModulus / 2 <= r.successfulFrequentBookStoreInteractionRuns < IntModulus / 2
    ensures -IntModulus / 2 <= r.totalFrequentBookStoreInteractionRuns < IntModulus / 2
  {
    Totals(RunningTotal(results, Successful), RunningTotal(results, Runs), RunningTotal(results, Elapsed),
      RunningTotal(results, FrequentSuccessful), RunningTotal(results, FrequentTotal))
  }

  /** One running total is the sum of its field over all results, wrapped to its width. */
  lemma {:induction false} RunningTotalIsWrappedSum(results: seq<Workers.WorkerRunResult>, f: Field)
    ensures RunningTotal(results, f) == WrapField(FieldSum(results, f), f)
  {
    if results != [] {
      var init := results[..|results| - 1];
      RunningTotalIsWrappedSum(init, f);
      if f == Elapsed {
        Wrap64Absorbs(FieldSum(init, f), FieldOf(results[|results| - 1], f));
      } else {
        Wrap32Absorbs(FieldSum(init, f), FieldOf(results[|results| - 1], f));
      }
    }
  }

  /**
   * Each running total is the sum of its field over all results, wrapped
   * to the width of the variable that holds it; so it is the exact sum
   * whenever that sum fits.
   */
  lemma RunningTotalsAreWrappedSums(results: seq<Workers.WorkerRunResult>)
    ensures RunningTotals(results) == Totals(
      Wrap32(FieldSum(results, Successful)),
      Wrap32(FieldSum(results, Runs)),
      Wrap64(FieldSum(results, Elapsed)),
      Wrap32(FieldSum(results, FrequentSuccessful)),
      Wrap32(FieldSum(results, FrequentTotal)))
  {
    RunningTotalIsWrappedSum(results, Successful);
    RunningTotalIsWrappedSum(results, Runs);
    RunningTotalIsWrappedSum(results, Elapsed);
    RunningTotalIsWrappedSum(results, FrequentSuccessful);
    RunningTotalIsWrappedSum(results, FrequentTotal);
  }

  /** A field that is at most another in every result sums to at most the other's sum. */
  lemma {:induction false} FieldSumMonotone(results: seq<Workers.WorkerRunResult>,
                                            f: Field, g: Field)
    requires forall i :: 0 <= i < |results| ==> FieldOf(results[i], f) <= FieldOf(results[i], g)
    ensures FieldSum(results, f) <= FieldSum(results, g)
  {
    if results != [] {
      FieldSumMonotone(results[..|results| - 1], f, g);
    }
  }

  /**
   * For results as workers report them (successes at most the runs, the
   * customer successes at most the customer runs), the same holds of the
   * exact sums.
   */
  lemma SummedResultsKeepWorkerBounds(results: seq<Workers.WorkerRunResult>)
    requires forall i :: 0 <= i < |results| ==>
      && results[i].successfulInteractions <= results[i].totalRuns
      && results[i].successfulFrequentBookStoreInteractionRuns <= results[i].totalFrequentBookStoreInteractionRuns
    ensures FieldSum(results, Successful) <= FieldSum(results, Runs)
    ensures FieldSum(results, FrequentSuccessful) <= FieldSum(results, FrequentTotal)
  {
    FieldSumMonotone(results, Successful, Runs);
    FieldSumMonotone(results, FrequentSuccessful, FrequentTotal);
  }

  /**
   * reportMetric: sum each field over the workers' results, then divide the
   * successful interactions by the elapsed nanoseconds in long division. A
   * total elapsed time of zero throws before anything is reported.
   */
  method ReportMetric(workerRunResults: seq<Workers.WorkerRunResult>) returns (r: Result<Metrics>)
    ensures var t := RunningTotals(workerRunResults);
      && (r.Err? <==> t.elapsedTimeInNanoSecs == 0)
      && (r.Err? ==> r.error == DivisionByZero)
      && (r.Ok? ==> r.value.totals == t &&
                    Quotient(t.successfulInteractions, t.elapsedTimeInNanoSecs) == Ok(r.value.aggregateThroughput))
  {
    var successfulInteractions := 0;
    var totalRuns := 0;
    var elapsedTimeInNanoSecs := 0;
    var successfulFrequentBookStoreInteractionRuns := 0;
    var totalFrequentBookStoreInteractionRuns := 0;
    var i := 0;
    while i < |workerRunResults|
      invariant 0 <= i <= |workerRunResults|
      invariant RunningTotals(workerRunResults[..i]) == Totals(successfulInteractions, totalRuns,
        elapsedTimeInNanoSecs, successfulFrequentBookStoreInteractionRuns, totalFrequentBookStoreInteractionRuns)
    {
      assert workerRunResults[..i + 1][..i] == workerRunResults[..i];
      var result := workerRunResults[i];
      successfulInteractions := Wrap32(successfulInteractions + result.successfulInteractions);
      totalRuns := Wrap32(totalRuns + result.totalRuns);
      elapsedTimeInNanoSecs := Wrap64(elapsedTimeInNanoSecs + result.elapsedTimeInNanoSecs);
      successfulFrequentBookStoreInteractionRuns :=
        Wrap32(successfulFrequentBookStoreInteractionRuns + result.successfulFrequentBookStoreInteractionRuns);
      totalFrequentBookStoreInteractionRuns :=
        Wrap32(totalFrequentBookStoreInteractionRuns + result.totalFrequentBookStoreInteractionRuns);
      i := i + 1;
    }
    assert workerRunResults[..|workerRunResults|] == workerRunResults;
    var aggregateThroughput := Quotient(successfulInteractions, elapsedTimeInNanoSecs);
    if aggregateThroughput.Err? {
      return Err(aggregateThroughput.error);
    }
    r := Ok(Metrics(Totals(successfulInteractions, totalRuns, elapsedTimeInNanoSecs,
      successfulFrequentBookStoreInteractionRuns, totalFrequentBookStoreInteractionRuns),
      aggregateThroughput.value));
  }
}
