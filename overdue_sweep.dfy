/** `updateOverdueStatus` (src/services/libraryApi.ts:244-252): every record
    still `'issued'` whose due date is before today becomes `'overdue'`. Dates
    are compared as strings, as the source does. */
module OverdueSweep {
  import opened LibraryTypes
  import opened JsString

  /** What the sweep does to one record. */
  function MarkOverdue(r: IssuedBook, today: Date): (m: IssuedBook)
    ensures m == r || m == r.(status := Overdue)
    ensures m.status == Overdue <==> r.status == Overdue || (r.status == Issued && Less(r.returnDate, today))
    ensures m.status == Returned <==> r.status == Returned
  {
    if r.status == Issued && Less(r.returnDate, today) then r.(status := Overdue) else r
  }

  /** The ledger after one sweep on `today`. */
  function Swept(issued: seq<IssuedBook>, today: Date): (s: seq<IssuedBook>)
    ensures |s| == |issued|
    ensures forall i :: 0 <= i < |s| ==> s[i] == MarkOverdue(issued[i], today)
  {
    seq(|issued|, i requires 0 <= i < |issued| => MarkOverdue(issued[i], today))
  }

  /** The sweep changes exactly the records that are `'issued'` and past due,
      and in them only the status, which becomes `'overdue'`. */
  lemma SweptChangesExactlyPastDue(issued: seq<IssuedBook>, today: Date, i: int)
    requires 0 <= i < |issued|
    ensures var s := Swept(issued, today);
            (s[i] != issued[i] <==> issued[i].status == Issued && Less(issued[i].returnDate, today)) &&
            s[i] == issued[i].(status := s[i].status)
  {
  }

  /** Sweeping twice on the same day is sweeping once. */
  lemma SweptIdempotent(issued: seq<IssuedBook>, today: Date)
    ensures Swept(Swept(issued, today), today) == Swept(issued, today)
  {
  }

  /** A later sweep subsumes an earlier one: sweeping on `earlier` and then on
      `later` is sweeping on `later` alone. */
  lemma SweptLaterSubsumesEarlier(issued: seq<IssuedBook>, earlier: Date, later: Date)
    requires Less(earlier, later)
    ensures Swept(Swept(issued, earlier), later) == Swept(issued, later)
  {
    forall i | 0 <= i < |issued|
      ensures MarkOverdue(MarkOverdue(issued[i], earlier), later) == MarkOverdue(issued[i], later)
    {
      LessTransitive(issued[i].returnDate, earlier, later);
    }
  }
}
