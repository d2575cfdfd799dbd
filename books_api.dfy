/** The catalogue operations `booksApi` (src/services/libraryApi.ts:106-150),
    as functions from the store before the call to the store after it and the
    call's result. A failed call leaves the store as it was. */
module BooksApi {
  import opened LibraryTypes
  import opened JsArray

  /** The outcome of one call: the store afterwards and what the call returned. */
  datatype Outcome<+T> = Outcome(lib: Library, result: Result<T>)

  function BookHasId(id: string): Book -> bool
  {
    (b: Book) => b.id == id
  }

  /** Copies of `b` currently lent out. */
  function OnLoan(b: Book): int
  {
    b.totalCopies - b.availableCopies
  }

  /** `getById`: the first book with that id, if any. */
  function GetById(books: seq<Book>, id: string): (r: Option<Book>)
    ensures r.None? <==> forall b :: b in books ==> b.id != id
    ensures r.Some? ==> r.value.id == id && r.value in books
    ensures r.Some? ==> exists i :: 0 <= i < |books| && books[i] == r.value &&
                                    forall j :: 0 <= j < i ==> books[j].id != id
  {
    Find(books, BookHasId(id))
  }

  /** The book `create` builds: the form data, a fresh id, every copy on the shelf. */
  function NewBook(data: BookFormData, id: string, today: Date): Book
  {
    Book(id, data.title, data.author, data.isbn, data.category,
         data.totalCopies, data.totalCopies, today)
  }

  /** `create`: appends one book, with no copy on loan, at the end of the catalogue. */
  function Create(lib: Library, data: BookFormData, id: string, today: Date): (o: Outcome<Book>)
    ensures o.result.Ok?
    ensures |o.lib.books| == |lib.books| + 1 && o.lib.books[..|lib.books|] == lib.books
    ensures o.lib.books[|lib.books|] == o.result.value
    ensures o.result.value.availableCopies == o.result.value.totalCopies == data.totalCopies
    ensures OnLoan(o.result.value) == 0
    ensures o.result.value.id == id && o.result.value.createdAt == today
    ensures o.result.value.title == data.title && o.result.value.author == data.author
    ensures o.result.value.isbn == data.isbn && o.result.value.category == data.category
    ensures o.lib.students == lib.students && o.lib.issued == lib.issued
  {
    var b := NewBook(data, id, today);
    Outcome(lib.(books := lib.books + [b]), Ok(b))
  }

  /** The book `update` stores in place of `prev`: the form data, the same id
      and creation date, and availability recomputed from the new total. */
  function Updated(prev: Book, id: string, data: BookFormData): Book
  {
    Book(id, data.title, data.author, data.isbn, data.category, data.totalCopies,
         data.totalCopies - (prev.totalCopies - prev.availableCopies), prev.createdAt)
  }

  /** `update`: fails with "Book not found" when no book has `id`; otherwise
      replaces the first such book in place, keeping its id, its creation date
      and the number of copies on loan. */
  function Update(lib: Library, id: string, data: BookFormData): (o: Outcome<Book>)
    ensures o.result.Err? <==> forall b :: b in lib.books ==> b.id != id
    ensures o.result.Err? ==> o.result.error == BookNotFound && o.lib == lib
    ensures o.result.Ok? ==>
      var i := FindIndex(lib.books, BookHasId(id));
      var b := o.result.value;
      0 <= i < |lib.books| && lib.books[i].id == id &&
      o.lib.books == lib.books[i := b] &&
      b.id == id && b.createdAt == lib.books[i].createdAt &&
      b.title == data.title && b.author == data.author && b.isbn == data.isbn &&
      b.category == data.category && b.totalCopies == data.totalCopies &&
      OnLoan(b) == OnLoan(lib.books[i])
    ensures o.lib.students == lib.students && o.lib.issued == lib.issued
  {
    var i := FindIndex(lib.books, BookHasId(id));
    if i == -1 then Outcome(lib, Err(BookNotFound))
    else
      var b := Updated(lib.books[i], id, data);
      Outcome(lib.(books := lib.books[i := b]), Ok(b))
  }

  /** `delete`: fails with "Book not found" when no book has `id`; otherwise
      removes the first such book and keeps the others in order. */
  function Delete(lib: Library, id: string): (o: Outcome<()>)
    ensures o.result.Err? <==> forall b :: b in lib.books ==> b.id != id
    ensures o.result.Err? ==> o.result.error == BookNotFound && o.lib == lib
    ensures o.result.Ok? ==>
      var i := FindIndex(lib.books, BookHasId(id));
      0 <= i < |lib.books| && lib.books[i].id == id &&
      o.lib.books == lib.books[..i] + lib.books[i + 1..]
    ensures o.lib.students == lib.students && o.lib.issued == lib.issued
  {
    var i := FindIndex(lib.books, BookHasId(id));
    if i == -1 then Outcome(lib, Err(BookNotFound))
    else
      assert lib.books[i] in lib.books && lib.books[i].id == id;
      Outcome(lib.(books := lib.books[..i] + lib.books[i + 1..]), Ok(()))
  }

  /** After a successful `delete` exactly one book is gone: the catalogue is one
      shorter, and the books before and after it are the old ones, in order. */
  lemma DeleteRemovesOne(lib: Library, id: string)
    requires Delete(lib, id).result.Ok?
    ensures var i := FindIndex(lib.books, BookHasId(id));
            var after := Delete(lib, id).lib.books;
            |after| == |lib.books| - 1 &&
            multiset(after) + multiset{lib.books[i]} == multiset(lib.books) &&
            (forall j :: 0 <= j < i ==> after[j] == lib.books[j]) &&
            (forall j :: i <= j < |after| ==> after[j] == lib.books[j + 1])
  {
    var i := FindIndex(lib.books, BookHasId(id));
    assert lib.books == lib.books[..i] + [lib.books[i]] + lib.books[i + 1..];
  }

  /** `update` may drive `availableCopies` below zero: it does when the new total
      is smaller than the number of copies on loan. */
  lemma UpdateBelowOnLoanGoesNegative(lib: Library, id: string, data: BookFormData)
    requires Update(lib, id, data).result.Ok?
    ensures var b := Update(lib, id, data).result.value;
            var i := FindIndex(lib.books, BookHasId(id));
            b.availableCopies < 0 <==> data.totalCopies < OnLoan(lib.books[i])
  {
  }
}
