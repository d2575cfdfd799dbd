/** The circulation ledger `issuedBooksApi` (src/services/libraryApi.ts:161-242):
    listing, issuing and returning, as functions from the store before the call
    to the store after it and the call's result. */
module IssuedBooksApi {
  import opened LibraryTypes
  import opened JsArray
  import opened BooksApi

  /** The most loans with status `'issued'` a student may hold before `issue` refuses. */
  const BorrowLimit := 3

  function RecordHasId(id: string): IssuedBook -> bool
  {
    (r: IssuedBook) => r.id == id
  }

  function StudentHasId(id: string): Student -> bool
  {
    (s: Student) => s.id == id
  }

  /** The records `issue` counts against a student's limit: theirs, with status
      `'issued'`. Records already marked `'overdue'` do not count. */
  function IssuedTo(studentId: string): IssuedBook -> bool
  {
    (r: IssuedBook) => r.studentId == studentId && r.status == Issued
  }

  /** How many of `issued` the limit counts for `studentId`. */
  function ActiveCount(issued: seq<IssuedBook>, studentId: string): nat
  {
    |Filter(issued, IssuedTo(studentId))|
  }

  /** A record as the API hands it out, with the first book and the first
      student carrying the ids it refers to, if there are any. */
  function Enrich(lib: Library, r: IssuedBook): (v: IssuedView)
    ensures v.record == r
    ensures v.book == GetById(lib.books, r.bookId)
    ensures v.book.Some? <==> exists b :: b in lib.books && b.id == r.bookId
    ensures v.book.Some? ==> exists i :: 0 <= i < |lib.books| && lib.books[i] == v.book.value &&
                                         v.book.value.id == r.bookId &&
                                         forall j :: 0 <= j < i ==> lib.books[j].id != r.bookId
    ensures v.student.Some? <==> exists s :: s in lib.students && s.id == r.studentId
    ensures v.student.Some? ==> exists i :: 0 <= i < |lib.students| && lib.students[i] == v.student.value &&
                                            v.student.value.id == r.studentId &&
                                            forall j :: 0 <= j < i ==> lib.students[j].id != r.studentId
  {
    IssuedView(r, Find(lib.books, BookHasId(r.bookId)), Find(lib.students, StudentHasId(r.studentId)))
  }

  /** `getAll`: every record, in ledger order, each with its book and student. */
  function GetAll(lib: Library): (r: seq<IssuedView>)
    ensures |r| == |lib.issued|
    ensures forall i :: 0 <= i < |r| ==> r[i] == Enrich(lib, lib.issued[i])
  {
    seq(|lib.issued|, i requires 0 <= i < |lib.issued| => Enrich(lib, lib.issued[i]))
  }

  /** `getByStudentId`: that student's records, in ledger order, each with its
      book and student. */
  function GetByStudentId(lib: Library, studentId: string): (r: seq<IssuedView>)
    ensures forall i :: 0 <= i < |r| ==> r[i].record in lib.issued && r[i].record.studentId == studentId
    ensures forall i :: 0 <= i < |lib.issued| && lib.issued[i].studentId == studentId ==>
              exists j :: 0 <= j < |r| && r[j].record == lib.issued[i]
    ensures forall i :: 0 <= i < |r| ==> r[i] == Enrich(lib, r[i].record)
  {
    var mine := Filter(lib.issued, (x: IssuedBook) => x.studentId == studentId);
    var r := seq(|mine|, i requires 0 <= i < |mine| => Enrich(lib, mine[i]));
    assert forall i :: 0 <= i < |lib.issued| && lib.issued[i].studentId == studentId ==>
             exists j :: 0 <= j < |r| && r[j].record == lib.issued[i] by {
      forall i | 0 <= i < |lib.issued| && lib.issued[i].studentId == studentId
        ensures exists j :: 0 <= j < |r| && r[j].record == lib.issued[i]
      {
        assert lib.issued[i] in mine;
        var j :| 0 <= j < |mine| && mine[j] == lib.issued[i];
        assert r[j].record == lib.issued[i];
      }
    }
    r
  }

  /** The record a successful `issue` appends. */
  function NewRecord(data: IssueBookFormData, id: string, today: Date): IssuedBook
  {
    IssuedBook(id, data.bookId, data.studentId, today, data.returnDate, None, Issued)
  }

  /** `issue`. It refuses with "Book not available" when no book has the id or
      the first one that does has no copy left, then with the borrow-limit error
      when the student already holds `BorrowLimit` loans with status `'issued'`;
      a refusal changes nothing. Otherwise it appends one `'issued'` record and
      takes one copy of the book off the shelf. */
  function Issue(lib: Library, data: IssueBookFormData, id: string, today: Date): (o: Outcome<IssuedView>)
    ensures o.result.Err? ==> o.lib == lib
    ensures (forall b :: b in lib.books ==> b.id != data.bookId) ==> o.result == Err(BookNotAvailable)
    ensures o.result == Err(BorrowLimitExceeded) ==> ActiveCount(lib.issued, data.studentId) >= BorrowLimit
    ensures o.result.Ok? ==> ActiveCount(lib.issued, data.studentId) < BorrowLimit
    ensures o.result.Ok? ==>
      var i := FindIndex(lib.books, BookHasId(data.bookId));
      var r := o.result.value.record;
      0 <= i < |lib.books| && lib.books[i].id == data.bookId &&
      lib.books[i].availableCopies > 0 &&
      o.lib.books == lib.books[i := lib.books[i].(availableCopies := lib.books[i].availableCopies - 1)] &&
      o.lib.issued == lib.issued + [r] &&
      r.id == id && r.bookId == data.bookId && r.studentId == data.studentId &&
      r.issueDate == today && r.returnDate == data.returnDate &&
      r.status == Issued && r.actualReturnDate == None &&
      o.result.value.book == Some(o.lib.books[i])
    ensures o.lib.students == lib.students
  {
    var i := FindIndex(lib.books, BookHasId(data.bookId));
    if i == -1 || lib.books[i].availableCopies <= 0 then
      Outcome(lib, Err(BookNotAvailable))
    else if ActiveCount(lib.issued, data.studentId) >= BorrowLimit then
      Outcome(lib, Err(BorrowLimitExceeded))
    else
      var r := NewRecord(data, id, today);
      var b := lib.books[i].(availableCopies := lib.books[i].availableCopies - 1);
      Outcome(lib.(books := lib.books[i := b], issued := lib.issued + [r]),
              Ok(IssuedView(r, Some(b), Find(lib.students, StudentHasId(data.studentId)))))
  }

  /** `issue` refuses exactly when the book is missing or out of copies, or the
      student is at the limit; the availability check comes first. */
  lemma IssueRefusals(lib: Library, data: IssueBookFormData, id: string, today: Date)
    ensures var o := Issue(lib, data, id, today);
            var i := FindIndex(lib.books, BookHasId(data.bookId));
            (o.result == Err(BookNotAvailable) <==> i == -1 || lib.books[i].availableCopies <= 0) &&
            (o.result == Err(BorrowLimitExceeded) <==>
               i != -1 && lib.books[i].availableCopies > 0 &&
               ActiveCount(lib.issued, data.studentId) >= BorrowLimit) &&
            (o.result.Err? ==> o.result.error in {BookNotAvailable, BorrowLimitExceeded})
  {
  }

  /** A successful `issue` raises the student's count of `'issued'` loans by one. */
  lemma IssueCountsOneMore(lib: Library, data: IssueBookFormData, id: string, today: Date)
    requires Issue(lib, data, id, today).result.Ok?
    ensures ActiveCount(Issue(lib, data, id, today).lib.issued, data.studentId)
         == ActiveCount(lib.issued, data.studentId) + 1
  {
    FilterAppend(lib.issued, NewRecord(data, id, today), IssuedTo(data.studentId));
  }

  /** `return`. It fails with "Issued book not found" when no record has the id.
      Otherwise it marks the first such record returned today, whatever its
      status was, and puts one copy back on the shelf of the first book with the
      record's book id, if there still is one. */
  function Return(lib: Library, issuedId: string, today: Date): (o: Outcome<IssuedView>)
    ensures o.result.Err? <==> forall r :: r in lib.issued ==> r.id != issuedId
    ensures o.result.Err? ==> o.result.error == IssuedBookNotFound && o.lib == lib
    ensures o.result.Ok? ==>
      var k := FindIndex(lib.issued, RecordHasId(issuedId));
      var r := o.result.value.record;
      0 <= k < |lib.issued| && lib.issued[k].id == issuedId &&
      r == lib.issued[k].(status := Returned, actualReturnDate := Some(today)) &&
      o.lib.issued == lib.issued[k := r]
    ensures o.result.Ok? ==>
      var r := o.result.value.record;
      var i := FindIndex(lib.books, BookHasId(r.bookId));
      (i == -1 ==> o.lib.books == lib.books && o.result.value.book.None?) &&
      (i != -1 ==> o.lib.books == lib.books[i := lib.books[i].(availableCopies := lib.books[i].availableCopies + 1)] &&
                   o.result.value.book == Some(o.lib.books[i]))
    ensures o.lib.students == lib.students
  {
    var k := FindIndex(lib.issued, RecordHasId(issuedId));
    if k == -1 then Outcome(lib, Err(IssuedBookNotFound))
    else
      var r := lib.issued[k].(status := Returned, actualReturnDate := Some(today));
      var i := FindIndex(lib.books, BookHasId(r.bookId));
      var books := if i == -1 then lib.books
                   else lib.books[i := lib.books[i].(availableCopies := lib.books[i].availableCopies + 1)];
      Outcome(lib.(books := books, issued := lib.issued[k := r]),
              Ok(IssuedView(r, if i == -1 then None else Some(books[i]),
                            Find(lib.students, StudentHasId(r.studentId)))))
  }
}
