/** The JavaScript array methods the service is written with: `findIndex`,
    `find` and `filter`, as functions on sequences. Each one scans from the
    front, so `find` and `findIndex` report the FIRST match. */
module JsArray {
  import opened LibraryTypes

  /** `s.findIndex(p)`: the first position whose element satisfies `p`, or -1. */
  function FindIndex<T>(s: seq<T>, p: T -> bool): (r: int)
    ensures -1 <= r < |s|
    ensures r == -1 <==> forall i :: 0 <= i < |s| ==> !p(s[i])
    ensures 0 <= r ==> p(s[r]) && forall j :: 0 <= j < r ==> !p(s[j])
    decreases |s|
  {
    if |s| == 0 then -1
    else if p(s[0]) then 0
    else
      var k := FindIndex(s[1..], p);
      assert forall j :: 1 <= j < |s| ==> s[j] == s[1..][j - 1];
      if k == -1 then -1 else k + 1
  }

  /** `s.find(p)`: the first element that satisfies `p`, if any. */
  function Find<T>(s: seq<T>, p: T -> bool): (r: Option<T>)
    ensures r.None? <==> forall i :: 0 <= i < |s| ==> !p(s[i])
    ensures r.Some? ==> exists i :: 0 <= i < |s| && s[i] == r.value && p(s[i]) &&
                                    forall j :: 0 <= j < i ==> !p(s[j])
  {
    var i := FindIndex(s, p);
    if i == -1 then None else Some(s[i])
  }

  /** `s.filter(p)`: the elements that satisfy `p`, in their original order. */
  function Filter<T>(s: seq<T>, p: T -> bool): (r: seq<T>)
    ensures |r| <= |s|
    ensures forall i :: 0 <= i < |r| ==> r[i] in s && p(r[i])
    ensures forall i :: 0 <= i < |s| && p(s[i]) ==> s[i] in r
    decreases |s|
  {
    if |s| == 0 then []
    else
      var rest := Filter(s[1..], p);
      assert forall i :: 1 <= i < |s| ==> s[i] == s[1..][i - 1];
      if p(s[0]) then [s[0]] + rest else rest
  }

  /** Filtering keeps every matching element as often as it occurs and drops
      every other one. */
  lemma {:induction false} FilterMultiplicity<T>(s: seq<T>, p: T -> bool)
    ensures forall x :: multiset(Filter(s, p))[x] == if p(x) then multiset(s)[x] else 0
    decreases |s|
  {
    if |s| > 0 {
      FilterMultiplicity(s[1..], p);
      assert s == [s[0]] + s[1..];
    }
  }

  /** Filtering distributes over concatenation, so the matches keep their
      relative order. */
  lemma {:induction false} FilterConcat<T>(s: seq<T>, t: seq<T>, p: T -> bool)
    ensures Filter(s + t, p) == Filter(s, p) + Filter(t, p)
    decreases |s|
  {
    if |s| == 0 {
      assert s + t == t;
    } else {
      assert (s + t)[1..] == s[1..] + t;
      FilterConcat(s[1..], t, p);
    }
  }

  /** Filtering a list that grew by one element at the end. */
  lemma {:induction false} FilterAppend<T>(s: seq<T>, x: T, p: T -> bool)
    ensures Filter(s + [x], p) == Filter(s, p) + (if p(x) then [x] else [])
  {
    FilterConcat(s, [x], p);
    assert Filter([x][1..], p) == [];
  }

  /** Replacing one element changes the number of matches by what the old and
      new element contribute. */
  lemma {:induction false} FilterUpdateCount<T>(s: seq<T>, k: nat, y: T, p: T -> bool)
    requires k < |s|
    ensures |Filter(s[k := y], p)| + (if p(s[k]) then 1 else 0)
         == |Filter(s, p)| + (if p(y) then 1 else 0)
    decreases |s|
  {
    if k == 0 {
      assert s[k := y][1..] == s[1..];
    } else {
      assert s[k := y][1..] == s[1..][k - 1 := y];
      FilterUpdateCount(s[1..], k - 1, y, p);
    }
  }

  /** Two lists that agree element by element on `p` have as many matches. */
  lemma {:induction false} FilterCountPointwise<T>(s: seq<T>, t: seq<T>, p: T -> bool)
    requires |s| == |t|
    requires forall i :: 0 <= i < |s| ==> p(s[i]) == p(t[i])
    ensures |Filter(s, p)| == |Filter(t, p)|
    decreases |s|
  {
    if |s| > 0 {
      FilterCountPointwise(s[1..], t[1..], p);
    }
  }
}
