/**
 * A replica (SlaveCertainBookStore): it applies each replication request
 * the master sends to the store it wraps, choosing the store operation by
 * the request's message tag.
 */
module SlaveStore {
  import opened BookStoreTypes
  import opened StoreSpec
  import opened CertainStore

  /*
   * A request's data set is an untyped Set that each branch casts to the
   * element type its operation expects. The cast itself is unchecked: a
   * null set stays null, an empty set of another element type is simply an
   * empty batch, and the first element of a non-empty set of another type
   * fails when the operation reaches it, before anything is changed.
   */

  function IsbnPayload(d: DataSet): (r: Result<Option<seq<ISBN>>>)
    ensures d.NullSet? ==> r == Ok(None)
    ensures d.IsbnSet? ==> r == Ok(Some(d.isbns))
    ensures r.Err? <==> !d.NullSet? && !d.IsbnSet? && !d.IsEmptySet()
  {
    match d
    case NullSet => Ok(None)
    case IsbnSet(s) => Ok(Some(s))
    case _ => if d.IsEmptySet() then Ok(Some([])) else Err(PayloadMismatch)
  }

  function StockBookPayload(d: DataSet): (r: Result<Option<seq<StockBook>>>)
    ensures d.NullSet? ==> r == Ok(None)
    ensures d.StockBookSet? ==> r == Ok(Some(d.books))
    ensures r.Err? <==> !d.NullSet? && !d.StockBookSet? && !d.IsEmptySet()
  {
    match d
    case NullSet => Ok(None)
    case StockBookSet(s) => Ok(Some(s))
    case _ => if d.IsEmptySet() then Ok(Some([])) else Err(PayloadMismatch)
  }

  function CopyPayload(d: DataSet): (r: Result<Option<seq<BookCopy>>>)
    ensures d.NullSet? ==> r == Ok(None)
    ensures d.BookCopySet? ==> r == Ok(Some(d.copies))
    ensures r.Err? <==> !d.NullSet? && !d.BookCopySet? && !d.IsEmptySet()
  {
    match d
    case NullSet => Ok(None)
    case BookCopySet(s) => Ok(Some(s))
    case _ => if d.IsEmptySet() then Ok(Some([])) else Err(PayloadMismatch)
  }

  function PickPayload(d: DataSet): (r: Result<Option<seq<BookEditorPick>>>)
    ensures d.NullSet? ==> r == Ok(None)
    ensures d.EditorPickSet? ==> r == Ok(Some(d.picks))
    ensures r.Err? <==> !d.NullSet? && !d.EditorPickSet? && !d.IsEmptySet()
  {
    match d
    case NullSet => Ok(None)
    case EditorPickSet(s) => Ok(Some(s))
    case _ => if d.IsEmptySet() then Ok(Some([])) else Err(PayloadMismatch)
  }

  /** Run one store operation on a cast payload; a failed cast changes nothing. */
  function WithPayload<T>(m: Catalog, payload: Result<T>, op: (Catalog, T) -> (Catalog, Status)): (r: (Catalog, Status))
    ensures payload.Err? ==> r == (m, Failure(payload.error))
    ensures payload.Ok? ==> r == op(m, payload.value)
  {
    match payload
    case Err(e) => (m, Failure(e))
    case Ok(v) => op(m, v)
  }

  /**
   * replicate: the catalog after applying a request to a replica's catalog,
   * and the exception the call raises. Only the six write tags reach the
   * store; any other tag is reported as unhandled and changes nothing.
   */
  function ApplyRequest(m: Catalog, req: ReplicationRequest): (r: (Catalog, Status))
    ensures !IsWriteOperation(req.tag) ==> r == (m, Success)
    ensures req.tag == REMOVEALLBOOKS ==> r == (map[], Success)
    ensures IsWriteOperation(req.tag) && req.tag != REMOVEALLBOOKS && req.dataSet.NullSet? ==>
      r == (m, Failure(NullInput))
    ensures r.1.Failure? && req.tag != BUYBOOKS ==> r.0 == m
    ensures req.tag != ADDBOOKS ==> r.0.Keys <= m.Keys
    ensures req.tag !in {REMOVEBOOKS, REMOVEALLBOOKS} ==> m.Keys <= r.0.Keys
    ensures WellKeyed(m) ==> WellKeyed(r.0)
  {
    match req.tag
    case REMOVEBOOKS => WithPayload(m, IsbnPayload(req.dataSet), RemoveBooksOp)
    case REMOVEALLBOOKS => (map[], Success)
    case ADDBOOKS => WithPayload(m, StockBookPayload(req.dataSet), AddBooksOp)
    case ADDCOPIES => WithPayload(m, CopyPayload(req.dataSet), AddCopiesOp)
    case UPDATEEDITORPICKS => WithPayload(m, PickPayload(req.dataSet), UpdateEditorPicksOp)
    case BUYBOOKS => WithPayload(m, CopyPayload(req.dataSet), BuyBooksOp)
    case _ => (m, Success)
  }

  class SlaveCertainBookStore {
    /** The replica's own store. */
    const bookStore: ConcurrentCertainBookStore

    ghost predicate Valid()
      reads this, bookStore
    {
      bookStore.Valid()
    }

    /** A new replica wraps a freshly constructed, empty store. */
    constructor()
      ensures Valid() && fresh(bookStore) && bookStore.bookMap == map[]
    {
      bookStore := new ConcurrentCertainBookStore();
    }

    /** replicate: cast the payload and call the one operation the tag names. */
    method Replicate(req: ReplicationRequest) returns (s: Status)
      requires Valid()
      modifies bookStore
      ensures Valid()
      ensures (bookStore.bookMap, s) == ApplyRequest(old(bookStore.bookMap), req)
    {
      match req.tag
      case REMOVEBOOKS =>
        var payload := IsbnPayload(req.dataSet);
        if payload.Err? {
          return Failure(payload.error);
        }
        s := bookStore.RemoveBooks(payload.value);
      case REMOVEALLBOOKS =>
        bookStore.RemoveAllBooks();
        s := Success;
      case ADDBOOKS =>
        var payload := StockBookPayload(req.dataSet);
        if payload.Err? {
          return Failure(payload.error);
        }
        s := bookStore.AddBooks(payload.value);
      case ADDCOPIES =>
        var payload := CopyPayload(req.dataSet);
        if payload.Err? {
          return Failure(payload.error);
        }
        s := bookStore.AddCopies(payload.value);
      case UPDATEEDITORPICKS =>
        var payload := PickPayload(req.dataSet);
        if payload.Err? {
          return Failure(payload.error);
        }
        s := bookStore.UpdateEditorPicks(payload.value);
      case BUYBOOKS =>
        var payload := CopyPayload(req.dataSet);
        if payload.Err? {
          return Failure(payload.error);
        }
        s := bookStore.BuyBooks(payload.value);
      case _ =>
        s := Success;
    }
  }

  /** A write the master performs, with the batch it was given. */
  datatype StoreWrite =
    | AddBooksWrite(books: seq<StockBook>)
    | AddCopiesWrite(copies: seq<BookCopy>)
    | BuyBooksWrite(purchase: seq<BookCopy>)
    | UpdateEditorPicksWrite(picks: seq<BookEditorPick>)
    | RemoveBooksWrite(isbns: seq<ISBN>)
    | RemoveAllBooksWrite

  /** The store operation a write performs on the master. */
  function ApplyWrite(m: Catalog, w: StoreWrite): (r: (Catalog, Status))
    ensures WellKeyed(m) ==> WellKeyed(r.0)
  {
    match w
    case AddBooksWrite(books) => AddBooksOp(m, Some(books))
    case AddCopiesWrite(copies) => AddCopiesOp(m, Some(copies))
    case BuyBooksWrite(purchase) => BuyBooksOp(m, Some(purchase))
    case UpdateEditorPicksWrite(picks) => UpdateEditorPicksOp(m, Some(picks))
    case RemoveBooksWrite(isbns) => RemoveBooksOp(m, Some(isbns))
    case RemoveAllBooksWrite => (map[], Success)
  }

  /** The replication request the master wraps a write in: its tag and its batch. */
  function RequestOf(w: StoreWrite): (r: ReplicationRequest)
    ensures IsWriteOperation(r.tag)
  {
    match w
    case AddBooksWrite(books) => ReplicationRequest(ADDBOOKS, StockBookSet(books))
    case AddCopiesWrite(copies) => ReplicationRequest(ADDCOPIES, BookCopySet(copies))
    case BuyBooksWrite(purchase) => ReplicationRequest(BUYBOOKS, BookCopySet(purchase))
    case UpdateEditorPicksWrite(picks) => ReplicationRequest(UPDATEEDITORPICKS, EditorPickSet(picks))
    case RemoveBooksWrite(isbns) => ReplicationRequest(REMOVEBOOKS, IsbnSet(isbns))
    case RemoveAllBooksWrite => ReplicationRequest(REMOVEALLBOOKS, NullSet)
  }

  /**
   * Dispatch picks the right operation with the right batch: a replica in
   * the master's state that applies the request for a write ends in the
   * state, and with the outcome, the master reached.
   */
  lemma ReplicaAppliesMastersWrite(m: Catalog, w: StoreWrite)
    ensures ApplyRequest(m, RequestOf(w)) == ApplyWrite(m, w)
  {
  }

  /** The master's catalog after a sequence of writes. */
  function ApplyWrites(m: Catalog, ws: seq<StoreWrite>): (r: Catalog)
    ensures WellKeyed(m) ==> WellKeyed(r)
    decreases |ws|
  {
    if ws == [] then m else ApplyWrites(ApplyWrite(m, ws[0]).0, ws[1..])
  }

  /** A replica's catalog after applying a sequence of requests. */
  function ApplyRequests(m: Catalog, reqs: seq<ReplicationRequest>): Catalog
    decreases |reqs|
  {
    if reqs == [] then m else ApplyRequests(ApplyRequest(m, reqs[0]).0, reqs[1..])
  }

  /**
   * A replica that starts in the master's state and applies, in order, the
   * requests for the master's writes (whether or not each write failed)
   * ends in the master's state.
   */
  lemma {:induction false} ReplicaConverges(m: Catalog, ws: seq<StoreWrite>)
    ensures ApplyRequests(m, seq(|ws|, i requires 0 <= i < |ws| => RequestOf(ws[i]))) == ApplyWrites(m, ws)
    decreases |ws|
  {
    var reqs := seq(|ws|, i requires 0 <= i < |ws| => RequestOf(ws[i]));
    if ws != [] {
      ReplicaAppliesMastersWrite(m, ws[0]);
      assert reqs[1..] == seq(|ws[1..]|, i requires 0 <= i < |ws[1..]| => RequestOf(ws[1..][i]));
      ReplicaConverges(ApplyWrite(m, ws[0]).0, ws[1..]);
    }
  }
}
