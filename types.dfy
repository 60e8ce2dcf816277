/**
 * Value types shared by the bookstore: catalog records, request batches,
 * errors, message tags and replication requests.
 */
module BookStoreTypes {

  type ISBN = int

  /** A catalog entry together with its stock bookkeeping (StockBook, BookStoreBook). */
  datatype StockBook = StockBook(
    isbn: ISBN,
    title: string,
    author: string,
    price: real,
    numCopies: int,
    saleMisses: int,
    timesRated: int,
    totalRating: int,
    editorPick: bool)

  /** What a customer sees of a book (Book, ImmutableBook). */
  datatype Book = Book(isbn: ISBN, title: string, author: string, price: real)

  function CustomerView(b: StockBook): Book
  {
    Book(b.isbn, b.title, b.author, b.price)
  }

  /** A request for a number of copies of one book (BookCopy). */
  datatype BookCopy = BookCopy(isbn: ISBN, numCopies: int)

  /** A request to set or clear a book's editor-pick flag (BookEditorPick). */
  datatype BookEditorPick = BookEditorPick(isbn: ISBN, editorPick: bool)

  /** A customer's rating of one book (BookRating). */
  datatype BookRating = BookRating(isbn: ISBN, rating: int)

  /**
   * The failures the bookstore reports. Up to NullComponent they stand for a
   * BookStoreException with the corresponding message (NullComponent: a
   * workload component the configuration lacks is null); NetworkError
   * stands for a NetworkException, and NullReference, PayloadMismatch,
   * DivisionByZero and IndexOutOfBounds for the Java runtime exceptions
   * NullPointerException, ClassCastException, ArithmeticException and
   * IndexOutOfBoundsException.
   */
  datatype Error =
    | NullInput
    | InvalidBook(isbn: ISBN)
    | DuplicatedIsbn(isbn: ISBN)
    | InvalidIsbn(isbn: ISBN)
    | InvalidNumCopies(count: int)
    | IsbnNotAvailable(isbn: ISBN)
    | BooksNotAvailable
    | InvalidNumBooks(count: int)
    | NotImplemented
    | MasterNotAvailable
    | ServiceNotAvailable
    | NullComponent
    | NetworkError
    | NullReference
    | PayloadMismatch
    | DivisionByZero
    | IndexOutOfBounds

  datatype Option<T> = None | Some(value: T)

  /** A sequence without repetitions: a Java set in its iteration order. */
  predicate Distinct<T(==)>(s: seq<T>)
  {
    forall i, j :: 0 <= i < j < |s| ==> s[i] != s[j]
  }

  /** The outcome of an operation that returns a value or throws. */
  datatype Result<T> = Ok(value: T) | Err(error: Error)

  /** The outcome of a void operation that may throw. */
  datatype Status = Success | Failure(error: Error)

  // Stand-ins for the BookStoreUtility validity checks.

  predicate IsInvalidIsbn(isbn: ISBN)
  {
    isbn < 1
  }

  predicate IsInvalidNumCopies(count: int)
  {
    count < 1
  }

  predicate IsEmpty(s: string)
  {
    |s| == 0
  }

  /** The field checks addBooks applies to every book of a batch. */
  predicate IsInvalidBook(b: StockBook)
  {
    IsInvalidIsbn(b.isbn) || IsEmpty(b.title) || IsEmpty(b.author)
    || IsInvalidNumCopies(b.numCopies) || b.price < 0.0
  }

  /** The message tags the servers understand (BookStoreMessageTag). */
  datatype MessageTag =
    | ADDBOOKS | LISTBOOKS | ADDCOPIES | GETBOOKS | BUYBOOKS | UPDATEEDITORPICKS
    | EDITORPICKS | REMOVEALLBOOKS | REMOVEBOOKS | GETSTOCKBOOKSBYISBN | GETBOOKSINDEMAND

  /** The tags of the operations that change the catalog. */
  predicate IsWriteOperation(tag: MessageTag)
  {
    tag in {ADDBOOKS, ADDCOPIES, BUYBOOKS, UPDATEEDITORPICKS, REMOVEALLBOOKS, REMOVEBOOKS}
  }

  /** The tag as Java's enum prints it, the text put into request URLs. */
  function TagName(tag: MessageTag): string
  {
    match tag
    case ADDBOOKS => "ADDBOOKS"
    case LISTBOOKS => "LISTBOOKS"
    case ADDCOPIES => "ADDCOPIES"
    case GETBOOKS => "GETBOOKS"
    case BUYBOOKS => "BUYBOOKS"
    case UPDATEEDITORPICKS => "UPDATEEDITORPICKS"
    case EDITORPICKS => "EDITORPICKS"
    case REMOVEALLBOOKS => "REMOVEALLBOOKS"
    case REMOVEBOOKS => "REMOVEBOOKS"
    case GETSTOCKBOOKSBYISBN => "GETSTOCKBOOKSBYISBN"
    case GETBOOKSINDEMAND => "GETBOOKSINDEMAND"
  }

  /**
   * The untyped data set of a replication request; each case is one of the
   * element types a tag's handler casts it to, NullSet a null reference.
   */
  datatype DataSet =
    | NullSet
    | IsbnSet(isbns: seq<ISBN>)
    | StockBookSet(books: seq<StockBook>)
    | BookCopySet(copies: seq<BookCopy>)
    | EditorPickSet(picks: seq<BookEditorPick>)
  {
    /** Whether the set holds no element (iterating it performs no cast). */
    predicate IsEmptySet()
    {
      match this
      case NullSet => false
      case IsbnSet(s) => |s| == 0
      case StockBookSet(s) => |s| == 0
      case BookCopySet(s) => |s| == 0
      case EditorPickSet(s) => |s| == 0
    }
  }

  /** A non-empty set has an element to pick (what iterating a Java Set relies on). */
  lemma NonEmptyHasElement(s: set<int>)
    requires |s| > 0
    ensures exists x :: x in s
  {
    if forall x :: x !in s {
      assert false;
    }
  }

  /** A mutation the master sends to its slaves (ReplicationRequest). */
  datatype ReplicationRequest = ReplicationRequest(tag: MessageTag, dataSet: DataSet)
}
