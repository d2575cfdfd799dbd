/** Properties of the circulation rules that span several operations: the loan
    status state machine, the shape of a record in each state, and the
    bookkeeping between a book's copies on loan and the records lending it. */
module Circulation {
  import opened LibraryTypes
  import opened JsArray
  import opened JsString
  import opened BooksApi
  import opened IssuedBooksApi
  import opened OverdueSweep

  // ---------------------------------------------------------------------------
  // The status state machine: issued -> overdue, issued/overdue -> returned.

  /** The status changes a record may go through in one operation. */
  predicate StatusStep(a: Status, b: Status)
  {
    a == b || (a == Issued && b == Overdue) || b == Returned
  }

  /** How one operation may change the ledger: records are never removed or
      reordered, keep their identity, book, student and dates, move along the
      state machine, and new records start out `'issued'`. */
  predicate LedgerStep(before: seq<IssuedBook>, after: seq<IssuedBook>)
  {
    |before| <= |after| &&
    (forall i :: 0 <= i < |before| ==>
       after[i].id == before[i].id && after[i].bookId == before[i].bookId &&
       after[i].studentId == before[i].studentId && after[i].issueDate == before[i].issueDate &&
       after[i].returnDate == before[i].returnDate &&
       StatusStep(before[i].status, after[i].status)) &&
    (forall i :: |before| <= i < |after| ==> after[i].status == Issued)
  }

  /** Nothing ever leaves `'returned'`. */
  lemma ReturnedIsFinal(before: seq<IssuedBook>, after: seq<IssuedBook>, i: int)
    requires LedgerStep(before, after)
    requires 0 <= i < |before| && before[i].status == Returned
    ensures after[i].status == Returned
  {
  }

  /** `issue` is a ledger step that keeps every existing record as it was and
      adds at most one record at the end. */
  lemma IssueIsLedgerStep(lib: Library, data: IssueBookFormData, id: string, today: Date)
    ensures var after := Issue(lib, data, id, today).lib.issued;
            LedgerStep(lib.issued, after) &&
            |after| <= |lib.issued| + 1 && after[..|lib.issued|] == lib.issued
  {
  }

  /** `return` is a ledger step that changes at most one record, the first with
      the given id, and only to mark it returned today. */
  lemma ReturnIsLedgerStep(lib: Library, issuedId: string, today: Date)
    ensures var after := Return(lib, issuedId, today).lib.issued;
            LedgerStep(lib.issued, after) && |after| == |lib.issued| &&
            forall i :: 0 <= i < |after| && after[i] != lib.issued[i] ==>
              i == FindIndex(lib.issued, RecordHasId(issuedId)) &&
              after[i] == lib.issued[i].(status := Returned, actualReturnDate := Some(today))
  {
  }

  /** The sweep is a ledger step that changes records only from `'issued'` to
      `'overdue'`. */
  lemma SweepIsLedgerStep(issued: seq<IssuedBook>, today: Date)
    ensures var after := Swept(issued, today);
            LedgerStep(issued, after) && |after| == |issued| &&
            forall i :: 0 <= i < |after| ==>
              after[i] == issued[i] || (issued[i].status == Issued && after[i] == issued[i].(status := Overdue))
  {
  }

  // ---------------------------------------------------------------------------
  // A record carries an actual return date exactly when it is returned.

  predicate WellFormedRecord(r: IssuedBook)
  {
    r.actualReturnDate.Some? <==> r.status == Returned
  }

  predicate WellFormedLedger(issued: seq<IssuedBook>)
  {
    forall i :: 0 <= i < |issued| ==> WellFormedRecord(issued[i])
  }

  lemma IssueKeepsLedgerWellFormed(lib: Library, data: IssueBookFormData, id: string, today: Date)
    requires WellFormedLedger(lib.issued)
    ensures WellFormedLedger(Issue(lib, data, id, today).lib.issued)
  {
  }

  lemma ReturnKeepsLedgerWellFormed(lib: Library, issuedId: string, today: Date)
    requires WellFormedLedger(lib.issued)
    ensures WellFormedLedger(Return(lib, issuedId, today).lib.issued)
  {
  }

  lemma SweepKeepsLedgerWellFormed(issued: seq<IssuedBook>, today: Date)
    requires WellFormedLedger(issued)
    ensures WellFormedLedger(Swept(issued, today))
  {
  }

  // ---------------------------------------------------------------------------
  // Copies on loan against outstanding records.

  /** Records that still hold a copy of book `bookId`: not yet returned. */
  function OutstandingFor(bookId: string): IssuedBook -> bool
  {
    (r: IssuedBook) => r.bookId == bookId && r.status != Returned
  }

  function Outstanding(issued: seq<IssuedBook>, bookId: string): nat
  {
    |Filter(issued, OutstandingFor(bookId))|
  }

  predicate UniqueBookIds(books: seq<Book>)
  {
    forall i, j :: 0 <= i < j < |books| ==> books[i].id != books[j].id
  }

  /** A store whose counts add up: book ids are distinct, every book has between
      none and all of its copies on the shelf, and each of its outstanding
      records accounts for a copy on loan. Copies may be out without a record
      (the initial lists of the service have such loans), but never a record
      without a copy out. */
  predicate Consistent(lib: Library)
  {
    UniqueBookIds(lib.books) &&
    forall i :: 0 <= i < |lib.books| ==>
      0 <= lib.books[i].availableCopies <= lib.books[i].totalCopies &&
      Outstanding(lib.issued, lib.books[i].id) <= OnLoan(lib.books[i])
  }

  /** The lists the service starts with (src/services/libraryApi.ts:4-100). */
  function Seed(): Library
  {
    Library(SeedBooks(), SeedStudents(), SeedIssued())
  }

  function SeedBooks(): seq<Book>
  {
    [Book("1", "Introduction to Computer Science", "John Smith", "978-0123456789", "Computer Science", 5, 3, "2024-01-15"),
     Book("2", "Data Structures and Algorithms", "Jane Doe", "978-9876543210", "Computer Science", 4, 2, "2024-01-16"),
     Book("3", "Physics Fundamentals", "Albert Newton", "978-1234567890", "Physics", 6, 0, "2024-01-17"),
     Book("4", "Modern Mathematics", "Euler Gauss", "978-0987654321", "Mathematics", 3, 1, "2024-01-18")]
  }

  function SeedStudents(): seq<Student>
  {
    [Student("1", "John Doe", "john.doe@student.edu", "CS2023001", "Computer Science", "2024-01-10"),
     Student("2", "Jane Smith", "jane.smith@student.edu", "PH2023002", "Physics", "2024-01-11"),
     Student("3", "Mike Johnson", "mike.johnson@student.edu", "MT2023003", "Mathematics", "2024-01-12")]
  }

  function SeedIssued(): seq<IssuedBook>
  {
    [IssuedBook("1", "1", "1", "2024-01-20", "2024-01-27", None, Issued),
     IssuedBook("2", "2", "1", "2024-01-18", "2024-01-25", Some("2024-01-24"), Returned),
     IssuedBook("3", "3", "2", "2024-01-15", "2024-01-22", None, Overdue)]
  }

  /** Of the initial records, only the first (book "1") and the third (book "3")
      are still out. */
  lemma SeedOutstanding(bookId: string)
    ensures Outstanding(SeedIssued(), bookId) == if bookId == "1" || bookId == "3" then 1 else 0
  {
    var recs := SeedIssued();
    var p := OutstandingFor(bookId);
    assert Filter(recs[3..], p) == [];
    assert Filter(recs[2..], p) == (if p(recs[2]) then [recs[2]] else []) + Filter(recs[3..], p);
    assert Filter(recs[1..], p) == Filter(recs[2..], p);
    assert Filter(recs, p) == (if p(recs[0]) then [recs[0]] else []) + Filter(recs[1..], p);
  }

  /** The service's initial lists are consistent and their ledger well formed,
      with more copies on loan than outstanding records for book "1" (two out,
      one record). */
  lemma SeedIsConsistent()
    ensures Consistent(Seed())
    ensures WellFormedLedger(Seed().issued)
    ensures Outstanding(Seed().issued, "1") == 1 < OnLoan(Seed().books[0])
  {
    var books := SeedBooks();
    assert UniqueBookIds(books);
    forall j | 0 <= j < |books|
      ensures 0 <= books[j].availableCopies <= books[j].totalCopies
      ensures Outstanding(SeedIssued(), books[j].id) <= OnLoan(books[j])
    {
      SeedOutstanding(books[j].id);
    }
    SeedOutstanding("1");
    assert WellFormedLedger(SeedIssued());
  }

  /** `issue` keeps the counts consistent: its guard keeps the book's available
      copies from going below zero, and the one copy it lends is the one record
      it appends. */
  lemma {:induction false} IssuePreservesConsistent(lib: Library, data: IssueBookFormData, id: string, today: Date)
    requires Consistent(lib)
    ensures Consistent(Issue(lib, data, id, today).lib)
  {
    var o := Issue(lib, data, id, today);
    if o.result.Ok? {
      var i := FindIndex(lib.books, BookHasId(data.bookId));
      var r := o.result.value.record;
      forall j | 0 <= j < |o.lib.books|
        ensures Outstanding(o.lib.issued, o.lib.books[j].id) <= OnLoan(o.lib.books[j])
      {
        FilterAppend(lib.issued, r, OutstandingFor(lib.books[j].id));
      }
    }
  }

  /** `return` keeps the counts consistent, except when it returns a record that
      was already returned and whose book still exists: that puts back a copy
      no record accounts for. */
  lemma {:induction false} ReturnPreservesConsistent(lib: Library, issuedId: string, today: Date)
    requires Consistent(lib)
    ensures var k := FindIndex(lib.issued, RecordHasId(issuedId));
            Consistent(Return(lib, issuedId, today).lib) ||
            (k != -1 && lib.issued[k].status == Returned &&
             exists b :: b in lib.books && b.id == lib.issued[k].bookId)
  {
    var o := Return(lib, issuedId, today);
    var k := FindIndex(lib.issued, RecordHasId(issuedId));
    if o.result.Ok? {
      var r := o.result.value.record;
      var i := FindIndex(lib.books, BookHasId(r.bookId));
      assert o.lib.issued == lib.issued[k := r] && r.bookId == lib.issued[k].bookId && r.status == Returned;
      if lib.issued[k].status != Returned || i == -1 {
        forall j | 0 <= j < |o.lib.books|
          ensures 0 <= o.lib.books[j].availableCopies <= o.lib.books[j].totalCopies
          ensures Outstanding(o.lib.issued, o.lib.books[j].id) <= OnLoan(o.lib.books[j])
        {
          FilterUpdateCount(lib.issued, k, r, OutstandingFor(lib.books[j].id));
          if j != i {
            assert o.lib.books[j] == lib.books[j];
            assert lib.books[j].id != r.bookId || i == -1;
          }
        }
        assert UniqueBookIds(o.lib.books);
      } else {
        assert lib.books[i] in lib.books;
      }
    }
  }

  /** The sweep only moves records from `'issued'` to `'overdue'`, both still
      out, so the counts stay consistent. */
  lemma {:induction false} SweepPreservesConsistent(lib: Library, today: Date)
    requires Consistent(lib)
    ensures Consistent(lib.(issued := Swept(lib.issued, today)))
  {
    forall j | 0 <= j < |lib.books|
      ensures Outstanding(Swept(lib.issued, today), lib.books[j].id) == Outstanding(lib.issued, lib.books[j].id)
    {
      FilterCountPointwise(Swept(lib.issued, today), lib.issued, OutstandingFor(lib.books[j].id));
    }
  }

  /** `create` keeps the counts consistent exactly when the new id is unused,
      no outstanding record already names it, and the total is not negative. */
  lemma {:induction false} CreatePreservesConsistentIff(lib: Library, data: BookFormData, id: string, today: Date)
    requires Consistent(lib)
    ensures Consistent(Create(lib, data, id, today).lib) <==>
            (forall b :: b in lib.books ==> b.id != id) &&
            Outstanding(lib.issued, id) == 0 && data.totalCopies >= 0
  {
    var after := Create(lib, data, id, today).lib;
    var n := |lib.books|;
    forall j | 0 <= j < n
      ensures after.books[j] == lib.books[j]
    {
      assert after.books[..n][j] == lib.books[j];
    }
    if exists b :: b in lib.books && b.id == id {
      var j :| 0 <= j < n && lib.books[j].id == id;
      assert after.books[j].id == after.books[n].id;
    }
  }

  /** `update` keeps the counts consistent exactly when the new total still
      covers the copies on loan. */
  lemma {:induction false} UpdatePreservesConsistentIff(lib: Library, id: string, data: BookFormData)
    requires Consistent(lib)
    requires Update(lib, id, data).result.Ok?
    ensures var i := FindIndex(lib.books, BookHasId(id));
            Consistent(Update(lib, id, data).lib) <==> data.totalCopies >= OnLoan(lib.books[i])
  {
    var i := FindIndex(lib.books, BookHasId(id));
    var after := Update(lib, id, data).lib;
    assert after.books[i].availableCopies == data.totalCopies - OnLoan(lib.books[i]);
    if data.totalCopies >= OnLoan(lib.books[i]) {
      forall j | 0 <= j < |after.books|
        ensures 0 <= after.books[j].availableCopies <= after.books[j].totalCopies
        ensures Outstanding(after.issued, after.books[j].id) <= OnLoan(after.books[j])
      {
        if j != i {
          assert after.books[j] == lib.books[j];
        }
      }
      assert UniqueBookIds(after.books);
    } else {
      assert !(0 <= after.books[i].availableCopies);
    }
  }

  /** `delete` keeps the counts consistent; the records of the removed book, if
      any are still out, are simply left dangling. */
  lemma {:induction false} DeletePreservesConsistent(lib: Library, id: string)
    requires Consistent(lib)
    ensures Consistent(Delete(lib, id).lib)
  {
    var o := Delete(lib, id);
    if o.result.Ok? {
      var i := FindIndex(lib.books, BookHasId(id));
      var after := o.lib.books;
      DeleteRemovesOne(lib, id);
      forall j | 0 <= j < |after|
        ensures after[j] == lib.books[if j < i then j else j + 1]
      {
      }
      forall j | 0 <= j < |after|
        ensures 0 <= after[j].availableCopies <= after[j].totalCopies
        ensures Outstanding(o.lib.issued, after[j].id) <= OnLoan(after[j])
      {
        var m := if j < i then j else j + 1;
        assert after[j] == lib.books[m];
      }
      forall j, j' | 0 <= j < j' < |after|
        ensures after[j].id != after[j'].id
      {
        var m, m' := if j < i then j else j + 1, if j' < i then j' else j' + 1;
        assert after[j] == lib.books[m] && after[j'] == lib.books[m'] && m < m';
      }
    }
  }

  // ---------------------------------------------------------------------------
  // Sequences of circulation calls.

  /** One call to the ledger: `issue`, `return` or the overdue sweep. */
  datatype Call =
    | IssueCall(data: IssueBookFormData, id: string, today: Date)
    | ReturnCall(issuedId: string, today: Date)
    | SweepCall(today: Date)

  function Apply(lib: Library, c: Call): Library
  {
    match c
    case IssueCall(data, id, today) => Issue(lib, data, id, today).lib
    case ReturnCall(issuedId, today) => Return(lib, issuedId, today).lib
    case SweepCall(today) => lib.(issued := Swept(lib.issued, today))
  }

  function Run(lib: Library, calls: seq<Call>): Library
    decreases |calls|
  {
    if |calls| == 0 then lib else Run(Apply(lib, calls[0]), calls[1..])
  }

  /** A call that returns a record that is already returned is the one call
      that can break the counts (see `DoubleReturnOverfillsShelf`). */
  predicate ReturnsOutstanding(lib: Library, c: Call)
  {
    c.ReturnCall? ==>
      var k := FindIndex(lib.issued, RecordHasId(c.issuedId));
      k != -1 ==> lib.issued[k].status != Returned
  }

  predicate NoDoubleReturn(lib: Library, calls: seq<Call>)
    decreases |calls|
  {
    |calls| == 0 ||
    (ReturnsOutstanding(lib, calls[0]) && NoDoubleReturn(Apply(lib, calls[0]), calls[1..]))
  }

  /** One call keeps the counts consistent, unless it returns a record twice. */
  lemma ApplyPreservesConsistent(lib: Library, c: Call)
    requires Consistent(lib)
    requires ReturnsOutstanding(lib, c)
    ensures Consistent(Apply(lib, c))
  {
    match c
    case IssueCall(data, id, today) => IssuePreservesConsistent(lib, data, id, today);
    case ReturnCall(issuedId, today) => ReturnPreservesConsistent(lib, issuedId, today);
    case SweepCall(today) => SweepPreservesConsistent(lib, today);
  }

  /** From a consistent store, any run of issues, sweeps and returns of records
      still out keeps every book between none and all of its copies available,
      with at least as many copies out as outstanding records. */
  lemma {:induction false} RunPreservesConsistent(lib: Library, calls: seq<Call>)
    requires Consistent(lib)
    requires NoDoubleReturn(lib, calls)
    ensures Consistent(Run(lib, calls))
    decreases |calls|
  {
    if |calls| > 0 {
      var next := Apply(lib, calls[0]);
      ApplyPreservesConsistent(lib, calls[0]);
      RunPreservesConsistent(next, calls[1..]);
    }
  }

  /** In particular the service's initial lists stay consistent under any such
      run. */
  lemma SeedRunStaysConsistent(calls: seq<Call>)
    requires NoDoubleReturn(Seed(), calls)
    ensures Consistent(Run(Seed(), calls))
  {
    SeedIsConsistent();
    RunPreservesConsistent(Seed(), calls);
  }

  // ---------------------------------------------------------------------------
  // Concrete behaviour.

  /** `return` does not look at the record's status: returning the same record
      twice puts two copies back, so a book with one copy ends up with two
      available. */
  lemma DoubleReturnOverfillsShelf()
    ensures var b := Book("B1", "t", "a", "i", "c", 1, 0, "2024-01-01");
            var r := IssuedBook("R1", "B1", "S1", "2024-01-02", "2024-01-09", None, Issued);
            var lib := Library([b], [], [r]);
            var once := Return(lib, "R1", "2024-01-05").lib;
            var twice := Return(once, "R1", "2024-01-06").lib;
            Consistent(lib) && Consistent(once) &&
            twice.books[0].availableCopies == 2 > twice.books[0].totalCopies &&
            !Consistent(twice)
  {
    var b := Book("B1", "t", "a", "i", "c", 1, 0, "2024-01-01");
    var r := IssuedBook("R1", "B1", "S1", "2024-01-02", "2024-01-09", None, Issued);
    var lib := Library([b], [], [r]);
    assert Outstanding(lib.issued, "B1") == 1 by {
      assert Filter([r], OutstandingFor("B1")) == [r] + Filter([r][1..], OutstandingFor("B1"));
    }
    var once := Return(lib, "R1", "2024-01-05").lib;
    var r1 := r.(status := Returned, actualReturnDate := Some("2024-01-05"));
    assert once.issued == [r1];
    assert once.books == [b.(availableCopies := 1)];
    assert Outstanding(once.issued, "B1") == 0 by {
      assert Filter([r1], OutstandingFor("B1")) == Filter([r1][1..], OutstandingFor("B1"));
    }
    var twice := Return(once, "R1", "2024-01-06").lib;
    assert twice.books == [b.(availableCopies := 2)];
  }

  /** The end-to-end scenario on a one-copy book: the first issue lends the copy,
      a second issue is refused, and the return puts the copy back and closes
      the record. */
  lemma OneCopyScenario()
    ensures var b := Book("B1", "t", "a", "i", "c", 1, 1, "2024-01-01");
            var lib := Library([b], [], []);
            var first := Issue(lib, IssueBookFormData("B1", "S1", "2024-01-08"), "R1", "2024-01-01");
            var second := Issue(first.lib, IssueBookFormData("B1", "S2", "2024-01-08"), "R2", "2024-01-01");
            var back := Return(second.lib, "R1", "2024-01-03");
            first.result.Ok? && first.lib.books[0].availableCopies == 0 &&
            first.result.value.record.status == Issued &&
            second.result == Err(BookNotAvailable) && second.lib == first.lib &&
            back.result.Ok? && back.lib.books[0].availableCopies == 1 &&
            back.result.value.record.status == Returned &&
            back.result.value.record.actualReturnDate == Some("2024-01-03")
  {
    var b := Book("B1", "t", "a", "i", "c", 1, 1, "2024-01-01");
    var lib := Library([b], [], []);
    var first := Issue(lib, IssueBookFormData("B1", "S1", "2024-01-08"), "R1", "2024-01-01");
    assert Filter(lib.issued, IssuedTo("S1")) == [];
    assert first.lib.books == [b.(availableCopies := 0)];
  }
}
