/** The service module src/services/libraryApi.ts as an object: its three
    module-level lists (`mockBooks`, `mockStudents`, `mockIssuedBooks`) are the
    fields of a `Store`, and each mutator changes them in place as the source
    does (push, assignment by index, splice, field updates, a forEach loop).
    Every method is proved to leave the store exactly as the matching function
    of `BooksApi`, `IssuedBooksApi` or `OverdueSweep` says, and to return what
    that function returns. The source's clock and id generator are parameters:
    `today` is the ISO date of the call and `id` the fresh id. */
module LibraryApi {
  import opened LibraryTypes
  import opened JsArray
  import opened JsString
  import BooksApi
  import IssuedBooksApi
  import OverdueSweep

  class Store {
    var books: seq<Book>
    var students: seq<Student>
    var issued: seq<IssuedBook>

    /** The store's contents as a value. */
    function State(): Library
      reads this
    {
      Library(books, students, issued)
    }

    constructor (init: Library)
      ensures State() == init
    {
      books := init.books;
      students := init.students;
      issued := init.issued;
    }

    /** `booksApi.create` */
    method Create(data: BookFormData, id: string, today: Date) returns (r: Book)
      modifies this
      ensures State() == BooksApi.Create(old(State()), data, id, today).lib
      ensures Ok(r) == BooksApi.Create(old(State()), data, id, today).result
    {
      r := BooksApi.NewBook(data, id, today);
      books := books + [r];
    }

    /** `booksApi.update` */
    method Update(id: string, data: BookFormData) returns (r: Result<Book>)
      modifies this
      ensures State() == BooksApi.Update(old(State()), id, data).lib
      ensures r == BooksApi.Update(old(State()), id, data).result
    {
      var index := FindIndex(books, BooksApi.BookHasId(id));
      if index == -1 {
        return Err(BookNotFound);
      }
      var updated := BooksApi.Updated(books[index], id, data);
      books := books[index := updated];
      r := Ok(updated);
    }

    /** `booksApi.delete` */
    method Delete(id: string) returns (r: Result<()>)
      modifies this
      ensures State() == BooksApi.Delete(old(State()), id).lib
      ensures r == BooksApi.Delete(old(State()), id).result
    {
      var index := FindIndex(books, BooksApi.BookHasId(id));
      if index == -1 {
        return Err(BookNotFound);
      }
      books := books[..index] + books[index + 1..];
      r := Ok(());
    }

    /** `issuedBooksApi.issue` */
    method Issue(data: IssueBookFormData, id: string, today: Date) returns (r: Result<IssuedView>)
      modifies this
      ensures State() == IssuedBooksApi.Issue(old(State()), data, id, today).lib
      ensures r == IssuedBooksApi.Issue(old(State()), data, id, today).result
    {
      var index := FindIndex(books, BooksApi.BookHasId(data.bookId));
      if index == -1 || books[index].availableCopies <= 0 {
        return Err(BookNotAvailable);
      }
      var studentBookCount := |Filter(issued, IssuedBooksApi.IssuedTo(data.studentId))|;
      if studentBookCount >= IssuedBooksApi.BorrowLimit {
        return Err(BorrowLimitExceeded);
      }
      var record := IssuedBooksApi.NewRecord(data, id, today);
      issued := issued + [record];
      books := books[index := books[index].(availableCopies := books[index].availableCopies - 1)];
      r := Ok(IssuedView(record, Some(books[index]),
                         Find(students, IssuedBooksApi.StudentHasId(data.studentId))));
    }

    /** `issuedBooksApi.return` */
    method Return(issuedId: string, today: Date) returns (r: Result<IssuedView>)
      modifies this
      ensures State() == IssuedBooksApi.Return(old(State()), issuedId, today).lib
      ensures r == IssuedBooksApi.Return(old(State()), issuedId, today).result
    {
      var k := FindIndex(issued, IssuedBooksApi.RecordHasId(issuedId));
      if k == -1 {
        return Err(IssuedBookNotFound);
      }
      ghost var prev := issued;
      issued := issued[k := issued[k].(status := Returned)];
      issued := issued[k := issued[k].(actualReturnDate := Some(today))];
      var record := issued[k];
      assert record == prev[k].(status := Returned, actualReturnDate := Some(today));
      assert issued == prev[k := record];
      var index := FindIndex(books, BooksApi.BookHasId(record.bookId));
      var book: Option<Book> := None;
      if index != -1 {
        ghost var shelf := books;
        books := books[index := books[index].(availableCopies := books[index].availableCopies + 1)];
        book := Some(books[index]);
        assert books == shelf[index := shelf[index].(availableCopies := shelf[index].availableCopies + 1)];
      }
      r := Ok(IssuedView(record, book, Find(students, IssuedBooksApi.StudentHasId(record.studentId))));
    }

    /** `updateOverdueStatus`: one pass over the ledger, rewriting statuses in place. */
    method UpdateOverdueStatus(today: Date)
      modifies this
      ensures issued == OverdueSweep.Swept(old(issued), today)
      ensures books == old(books) && students == old(students)
    {
      var i := 0;
      while i < |issued|
        invariant 0 <= i <= |issued| == |old(issued)|
        invariant forall j :: 0 <= j < i ==> issued[j] == OverdueSweep.MarkOverdue(old(issued)[j], today)
        invariant forall j :: i <= j < |issued| ==> issued[j] == old(issued)[j]
        invariant books == old(books) && students == old(students)
      {
        if issued[i].status == Issued && Less(issued[i].returnDate, today) {
          issued := issued[i := issued[i].(status := Overdue)];
        }
        i := i + 1;
      }
    }
  }
}
