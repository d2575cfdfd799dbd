# Library circulation rules, modelled in Dafny

This project models the circulation rules engine of a library-management web
application: the in-memory service module `src/services/libraryApi.ts`, with
the record shapes of `src/types/library.ts`. The service keeps three lists
(books, students, issue/return records) and offers:

- catalogue operations (`booksApi`): list, look up, create, update, delete;
- ledger operations (`issuedBooksApi`): list all records, list one student's,
  issue a book, return it;
- the overdue sweep (`updateOverdueStatus`), which marks past-due loans.

The business rules are: a book can be issued only while a copy is on the
shelf; a student holding three loans with status `issued` cannot borrow more;
issuing takes a copy off the shelf and returning puts one back; `update`
keeps the number of copies on loan; the sweep moves `issued` loans whose due
date is before today to `overdue`.

Files:

- `library_types.dfy` (`LibraryTypes`): the records `Book`, `Student`,
  `IssuedBook` (with `Status` = `Issued | Returned | Overdue`), the two form
  shapes, the error kinds with their messages, and the store value `Library`.
- `js_array.dfy` (`JsArray`): `findIndex`, `find` and `filter` as the service
  uses them, first match first, with lemmas about counting matches.
- `js_string.dfy` (`JsString`): JavaScript's `<` on strings, proved a strict
  total order, and proved to agree with the chronological order on
  `YYYY-MM-DD` dates.
- `books_api.dfy` (`BooksApi`), `issued_books_api.dfy` (`IssuedBooksApi`),
  `overdue_sweep.dfy` (`OverdueSweep`): each operation as a function from the
  store before a call to the store after it and the call's result, with
  contracts stating the rules.
- `library_api.dfy` (`LibraryApi`): the class `Store`, whose fields are the
  three lists and whose methods change them in place as the service does
  (append, assignment by index, splice, field updates, a loop over the ledger).
  Each method is proved to produce exactly the state and result of the
  matching function.
- `circulation.dfy` (`Circulation`): properties across operations: the status
  state machine, the shape of a record in each status, and the consistency
  between copies on loan and outstanding records, which the service's initial
  lists satisfy and any run of issues, sweeps and first returns preserves.

The clock and the id generator of the service are parameters: every
operation that stamps a date takes `today` (an ISO date string) and every
operation that creates a record takes its new `id`.

Three behaviours of the code shape the model:

- Ids come from the clock, so nothing makes them unique. The model
  takes the id from the caller and never assumes uniqueness; `find` and
  `findIndex` pick the first match.
- `0 <= availableCopies <= totalCopies` is not kept in general: `update` can
  make `availableCopies` negative, and `return` does not check the record's
  status, so returning a record twice puts two copies back. The model keeps
  both behaviours and proves where the bound holds
  (`Circulation.RunPreservesConsistent`) and where it breaks
  (`Circulation.DoubleReturnOverfillsShelf`,
  `Circulation.UpdatePreservesConsistentIff`).
- Copies on loan are not matched one for one by outstanding records: the
  initial lists have book "1" with two copies out and one record, and book "4"
  with two copies out and none. The invariant `Circulation.Consistent`
  therefore asks only that every outstanding record accounts for a copy on
  loan, and `Circulation.SeedIsConsistent` proves the initial lists meet it.
- The code runs the sweep once, when the module loads; the model makes it an
  operation the caller may run on any day.

## Model

| member | source | states |
|---|---|---|
| `LibraryTypes.MessageIdentifiesError` | src/services/libraryApi.ts:132-224 | the four error messages the service throws are pairwise different |
| `JsArray.FindIndex` | src/services/libraryApi.ts:131 | the result is -1 exactly when no element matches; otherwise it is the first matching position |
| `JsArray.Find` | src/services/libraryApi.ts:186 | `None` exactly when no element matches; otherwise the first matching element |
| `JsArray.Filter` | src/services/libraryApi.ts:192-194 | the result holds only matching elements of the input, and every matching element of the input is in it |
| `JsArray.FilterMultiplicity` | src/services/libraryApi.ts:192-194 | the result holds each matching element exactly as often as the input does, and no other element |
| `JsArray.FilterConcat` | src/services/libraryApi.ts:192-194 | filtering a concatenation is concatenating the filtered parts, so matches keep their order |
| `JsArray.FilterAppend` | src/services/libraryApi.ts:192-208 | filtering a list after a push is filtering the old list, plus the new element when it matches |
| `JsArray.FilterUpdateCount` | src/services/libraryApi.ts:227 | replacing one element changes the number of matches by the old and new element's contributions |
| `JsArray.FilterCountPointwise` | src/services/libraryApi.ts:247-251 | lists that agree element by element on the predicate have the same number of matches |
| `JsString.LessIsLexSmaller` | src/services/libraryApi.ts:248 | string `<` holds exactly when the left string is a proper prefix, or is smaller at the first differing position |
| `JsString.LessIrreflexive` | src/services/libraryApi.ts:248 | no string is before itself |
| `JsString.LessAsymmetric` | src/services/libraryApi.ts:248 | two strings are never each before the other |
| `JsString.LessTransitive` | src/services/libraryApi.ts:248 | string `<` is transitive |
| `JsString.LessTotal` | src/services/libraryApi.ts:248 | of two different strings one is before the other |
| `JsString.LessConcat` | src/services/libraryApi.ts:248 | comparing concatenations with equal-length heads compares the heads, and the tails only on a tie |
| `JsString.DigitsLess` | src/services/libraryApi.ts:248 | on digit strings of equal length, string order is numeric order |
| `JsString.IsoDateOrder` | src/services/libraryApi.ts:248 | on `YYYY-MM-DD` strings, string `<` holds exactly when the first date is the earlier day |
| `BooksApi.GetById` | src/services/libraryApi.ts:112-115 | `None` exactly when no book has the id; otherwise the first book with that id |
| `BooksApi.Create` | src/services/libraryApi.ts:117-127 | one book is appended after the unchanged old ones, with the form fields, the given id and date, and all copies available |
| `BooksApi.Update` | src/services/libraryApi.ts:129-142 | fails with BookNotFound and changes nothing exactly when no book has the id; otherwise the first such book is replaced in place by one with the form fields, the same id and creation date, and the same number of copies on loan; nothing else changes |
| `BooksApi.Delete` | src/services/libraryApi.ts:144-149 | fails with BookNotFound and changes nothing exactly when no book has the id; otherwise the first such book is cut out of the list |
| `BooksApi.DeleteRemovesOne` | src/services/libraryApi.ts:146-148 | after a delete the list is one shorter, lost exactly that book, and keeps the others in order |
| `BooksApi.UpdateBelowOnLoanGoesNegative` | src/services/libraryApi.ts:137 | after an update `availableCopies` is negative exactly when the new total is below the copies on loan |
| `IssuedBooksApi.Enrich` | src/services/libraryApi.ts:164-168 | the view carries the record, the first book with the record's book id (the one `getById` returns) or none when no book has it, and likewise the first student with its student id |
| `IssuedBooksApi.GetAll` | src/services/libraryApi.ts:162-169 | one view per record, in ledger order |
| `IssuedBooksApi.GetByStudentId` | src/services/libraryApi.ts:171-180 | every view is a record of that student, and every record of that student has a view |
| `IssuedBooksApi.Issue` | src/services/libraryApi.ts:182-218 | a refusal changes nothing; a missing book refuses with BookNotAvailable; success needs copies on the first matching book and fewer than 3 `issued` loans, appends one `issued` record with today's date and the caller's due date, and takes exactly one copy off that book |
| `IssuedBooksApi.IssueRefusals` | src/services/libraryApi.ts:185-198 | BookNotAvailable exactly when the book is missing or has no copy; BorrowLimitExceeded exactly when it has one and the student holds 3 or more `issued` loans; no other error |
| `IssuedBooksApi.IssueCountsOneMore` | src/services/libraryApi.ts:192-208 | a successful issue raises the student's count of `issued` loans by exactly one |
| `IssuedBooksApi.Return` | src/services/libraryApi.ts:220-241 | fails with IssuedBookNotFound and changes nothing exactly when no record has the id; otherwise the first such record becomes `returned` with today as actual return date, whatever its status, and the first book with its book id, if any, gets one copy back |
| `OverdueSweep.MarkOverdue` | src/services/libraryApi.ts:248-250 | a record ends `overdue` exactly when it was overdue already or was `issued` with a due date before today; `returned` is untouched |
| `OverdueSweep.Swept` | src/services/libraryApi.ts:245-252 | the ledger keeps its length and each record is swept on its own |
| `OverdueSweep.SweptChangesExactlyPastDue` | src/services/libraryApi.ts:247-251 | a record changes exactly when it is `issued` and past due, and only its status changes |
| `OverdueSweep.SweptIdempotent` | src/services/libraryApi.ts:245-252 | sweeping twice on one day is sweeping once |
| `OverdueSweep.SweptLaterSubsumesEarlier` | src/services/libraryApi.ts:245-252 | sweeping on an earlier day and then a later one is sweeping on the later day alone |
| `LibraryApi.Store.constructor` | src/services/libraryApi.ts:4-100 | the store starts with the given three lists |
| `LibraryApi.Store.Create` | src/services/libraryApi.ts:117-127 | the push leaves the store and result that `BooksApi.Create` gives |
| `LibraryApi.Store.Update` | src/services/libraryApi.ts:129-142 | the assignment by index leaves the store and result that `BooksApi.Update` gives |
| `LibraryApi.Store.Delete` | src/services/libraryApi.ts:144-149 | the splice leaves the store and result that `BooksApi.Delete` gives |
| `LibraryApi.Store.Issue` | src/services/libraryApi.ts:182-218 | the push and decrement leave the store and result that `IssuedBooksApi.Issue` gives |
| `LibraryApi.Store.Return` | src/services/libraryApi.ts:220-241 | the field updates leave the store and result that `IssuedBooksApi.Return` gives |
| `LibraryApi.Store.UpdateOverdueStatus` | src/services/libraryApi.ts:245-252 | the loop leaves the ledger as `OverdueSweep.Swept` of the old one and the books and students unchanged |
| `Circulation.ReturnedIsFinal` | src/services/libraryApi.ts:227 | under any ledger step a `returned` record stays `returned` |
| `Circulation.IssueIsLedgerStep` | src/services/libraryApi.ts:200-208 | issue leaves every existing record unchanged and appends at most one record, which starts `issued` |
| `Circulation.ReturnIsLedgerStep` | src/services/libraryApi.ts:223-228 | return changes at most one record, the first with the given id, and only to `returned` with today as actual return date; the ledger keeps its length |
| `Circulation.SweepIsLedgerStep` | src/services/libraryApi.ts:247-251 | the sweep keeps the ledger's length and leaves each record unchanged or moves it from `issued` to `overdue`, changing nothing else |
| `Circulation.IssueKeepsLedgerWellFormed` | src/services/libraryApi.ts:201-206 | after issue every record has an actual return date exactly when it is `returned` |
| `Circulation.ReturnKeepsLedgerWellFormed` | src/services/libraryApi.ts:227-228 | after return every record has an actual return date exactly when it is `returned` |
| `Circulation.SweepKeepsLedgerWellFormed` | src/services/libraryApi.ts:248-250 | after the sweep every record has an actual return date exactly when it is `returned` |
| `Circulation.SeedOutstanding` | src/services/libraryApi.ts:75-100 | of the initial records only those of books "1" and "3" are still out, one each |
| `Circulation.SeedIsConsistent` | src/services/libraryApi.ts:4-100 | the initial lists are consistent and their ledger well formed, with book "1" having more copies out than outstanding records |
| `Circulation.IssuePreservesConsistent` | src/services/libraryApi.ts:185-211 | from a consistent store, issue keeps book ids distinct, each book between none and all copies available, and its outstanding records no more than its copies out |
| `Circulation.ReturnPreservesConsistent` | src/services/libraryApi.ts:223-234 | from a consistent store, return leaves a consistent store unless it returned a record already `returned` whose book still exists |
| `Circulation.SweepPreservesConsistent` | src/services/libraryApi.ts:247-251 | the sweep keeps a consistent store consistent |
| `Circulation.CreatePreservesConsistentIff` | src/services/libraryApi.ts:119-125 | from a consistent store, create leaves a consistent store exactly when the id is unused, no outstanding record names it and the total is not negative |
| `Circulation.UpdatePreservesConsistentIff` | src/services/libraryApi.ts:134-140 | a successful update keeps the store consistent exactly when the new total covers the copies on loan |
| `Circulation.DeletePreservesConsistent` | src/services/libraryApi.ts:146-148 | delete keeps the store consistent |
| `Circulation.ApplyPreservesConsistent` | src/services/libraryApi.ts:182-252 | an issue, a sweep, or a return of a record still out keeps the store consistent |
| `Circulation.RunPreservesConsistent` | src/services/libraryApi.ts:182-252 | any sequence of issues, sweeps and returns of records still out keeps a consistent store consistent |
| `Circulation.SeedRunStaysConsistent` | src/services/libraryApi.ts:4-100 | from the initial lists, any such sequence leaves a consistent store |
| `Circulation.DoubleReturnOverfillsShelf` | src/services/libraryApi.ts:223-234 | returning the same record twice leaves a one-copy book with two copies available |
| `Circulation.OneCopyScenario` | src/services/libraryApi.ts:182-241 | on a one-copy book the first issue lends it, a second issue is refused with nothing changed, and the return puts it back and closes the record |

## Left out

- The simulated latency (`delay`, `setTimeout`, `async`/`Promise`): every operation is a synchronous call.
- `Date.now()` and `new Date().toISOString()`: `today` and fresh ids are parameters; nothing makes ids unique.
- `booksApi.getAll` and `studentsApi.getAll` return a copy of a list: in the model that is the `books` or `students` field, with no separate member.
- Object identity: the source's list copies still share `Book` objects, so a caller holding one sees later in-place changes; the model stores values, so no aliasing is modelled.
- The call of `updateOverdueStatus` when the module loads: a `Store` starts from the lists it is given, and the sweep runs when called.
- The initial lists are `Circulation.Seed`; the constructor of `Store` takes any initial lists, so the seed is one starting point among others.
- JavaScript numbers are modelled as unbounded integers; fractional or non-finite copy counts are not modelled.
- String `<` compares Dafny characters (Unicode scalar values) where JavaScript compares UTF-16 code units; the two orders differ only for characters outside the Basic Multilingual Plane, never for ISO dates.
- Extra properties a caller could spread into a record through `bookData` or `issueData` at run time are not modelled; records have exactly their declared fields.
- IssuedBooksApi.GetByStudentId: its contract states membership in both directions but not that the records keep ledger order.
- Authentication, the React components and pages are not part of this model.
