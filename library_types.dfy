/** Record shapes of the library-circulation application (src/types/library.ts).
    These are plain values: the service layer keeps them in lists and replaces
    or rewrites them, but they carry no behaviour of their own. */
module LibraryTypes {

  /** A calendar day as the application writes it: an ISO `YYYY-MM-DD` string. */
  type Date = string

  datatype Option<+T> = None | Some(value: T)

  /** A catalogue entry. `availableCopies` is the number of copies on the shelf;
      `totalCopies - availableCopies` is the number currently on loan. */
  datatype Book = Book(
    id: string,
    title: string,
    author: string,
    isbn: string,
    category: string,
    totalCopies: int,
    availableCopies: int,
    createdAt: Date)

  datatype Student = Student(
    id: string,
    name: string,
    email: string,
    registrationNumber: string,
    department: string,
    createdAt: Date)

  /** The three states of a loan: `'issued' | 'returned' | 'overdue'`. */
  datatype Status = Issued | Returned | Overdue

  /** One issue/return transaction. `returnDate` is the due date;
      `actualReturnDate` is the optional field set when the book comes back. */
  datatype IssuedBook = IssuedBook(
    id: string,
    bookId: string,
    studentId: string,
    issueDate: Date,
    returnDate: Date,
    actualReturnDate: Option<Date>,
    status: Status)

  /** An `IssuedBook` as the API hands it out: the record together with the
      optional `book` and `student` it references, resolved at read time. */
  datatype IssuedView = IssuedView(
    record: IssuedBook,
    book: Option<Book>,
    student: Option<Student>)

  /** What the catalogue form submits: a `Book` without `id`, `createdAt`
      and `availableCopies`. */
  datatype BookFormData = BookFormData(
    title: string,
    author: string,
    isbn: string,
    category: string,
    totalCopies: int)

  /** What the issue form submits. `returnDate` is the due date chosen by the caller. */
  datatype IssueBookFormData = IssueBookFormData(
    bookId: string,
    studentId: string,
    returnDate: Date)

  /** The errors the service throws, one per `throw new Error(...)` site. */
  datatype Error = BookNotFound | BookNotAvailable | BorrowLimitExceeded | IssuedBookNotFound

  datatype Result<+T> = Ok(value: T) | Err(error: Error)

  /** The message each error carries. */
  function Message(e: Error): string
  {
    match e
    case BookNotFound => "Book not found"
    case BookNotAvailable => "Book not available"
    case BorrowLimitExceeded => "Student cannot borrow more than 3 books"
    case IssuedBookNotFound => "Issued book not found"
  }

  /** A caller can tell the errors apart by their messages alone. */
  lemma MessageIdentifiesError(e1: Error, e2: Error)
    ensures Message(e1) == Message(e2) <==> e1 == e2
  {
  }

  /** The whole in-memory store: the three module-level lists. */
  datatype Library = Library(books: seq<Book>, students: seq<Student>, issued: seq<IssuedBook>)
}
