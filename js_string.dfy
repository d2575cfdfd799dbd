/** JavaScript's `<` on strings, which the overdue sweep uses to compare an
    ISO due date with today's date (src/services/libraryApi.ts:248).
    JavaScript compares strings code unit by code unit; a proper prefix is
    smaller than the longer string. The lemmas show that this is a strict total
    order and that, on well-formed `YYYY-MM-DD` strings, it is exactly the
    chronological order of the days they name. */
module JsString {

  /** `a < b` on strings. */
  predicate Less(a: string, b: string)
    decreases |a|
  {
    if |a| == 0 || |b| == 0 then |a| == 0 && |b| != 0
    else if a[0] != b[0] then a[0] < b[0]
    else Less(a[1..], b[1..])
  }

  /** The reference definition: `a` is smaller when it is a proper prefix of `b`,
      or when the first position where they differ holds a smaller character in `a`. */
  ghost predicate LexSmaller(a: string, b: string)
  {
    (|a| < |b| && a == b[..|a|]) ||
    exists k :: 0 <= k < |a| && k < |b| && a[..k] == b[..k] && a[k] < b[k]
  }

  lemma {:induction false} LessIsLexSmaller(a: string, b: string)
    ensures Less(a, b) <==> LexSmaller(a, b)
    decreases |a|
  {
    if |a| == 0 || |b| == 0 {
      if |a| > 0 {
        assert !LexSmaller(a, b);
      }
    } else if a[0] != b[0] {
      if a[0] < b[0] {
        assert a[..0] == b[..0];
      } else {
        forall k | 0 < k <= |a| && k <= |b|
          ensures a[..k] != b[..k]
        {
          assert a[..k][0] != b[..k][0];
        }
      }
    } else {
      LessIsLexSmaller(a[1..], b[1..]);
      if LexSmaller(a[1..], b[1..]) {
        if |a| - 1 < |b| - 1 && a[1..] == b[1..][..|a| - 1] {
          assert a == [a[0]] + a[1..];
          assert b[..|a|] == [b[0]] + b[1..][..|a| - 1];
        } else {
          var k :| 0 <= k < |a| - 1 && k < |b| - 1 && a[1..][..k] == b[1..][..k] && a[1..][k] < b[1..][k];
          assert a[..k + 1] == [a[0]] + a[1..][..k];
          assert b[..k + 1] == [b[0]] + b[1..][..k];
        }
      }
      if LexSmaller(a, b) {
        if |a| < |b| && a == b[..|a|] {
          assert a[1..] == b[1..][..|a| - 1];
        } else {
          var k :| 0 <= k < |a| && k < |b| && a[..k] == b[..k] && a[k] < b[k];
          if k == 0 {
            assert false;
          } else {
            assert a[1..][..k - 1] == a[..k][1..];
            assert b[1..][..k - 1] == b[..k][1..];
            assert a[1..][k - 1] < b[1..][k - 1];
          }
        }
      }
    }
  }

  lemma {:induction false} LessIrreflexive(a: string)
    ensures !Less(a, a)
    decreases |a|
  {
    if |a| > 0 {
      LessIrreflexive(a[1..]);
    }
  }

  lemma {:induction false} LessAsymmetric(a: string, b: string)
    ensures Less(a, b) ==> !Less(b, a)
    decreases |a|
  {
    if |a| > 0 && |b| > 0 && a[0] == b[0] {
      LessAsymmetric(a[1..], b[1..]);
    }
  }

  lemma {:induction false} LessTransitive(a: string, b: string, c: string)
    ensures Less(a, b) && Less(b, c) ==> Less(a, c)
    decreases |a|
  {
    if |a| > 0 && |b| > 0 && |c| > 0 && a[0] == b[0] && b[0] == c[0] {
      LessTransitive(a[1..], b[1..], c[1..]);
    }
  }

  /** Any two different strings are ordered one way or the other. */
  lemma {:induction false} LessTotal(a: string, b: string)
    ensures a == b || Less(a, b) || Less(b, a)
    decreases |a|
  {
    if |a| > 0 && |b| > 0 && a[0] == b[0] {
      LessTotal(a[1..], b[1..]);
      if a[1..] == b[1..] {
        assert a == [a[0]] + a[1..] && b == [b[0]] + b[1..];
      }
    }
  }

  /** Comparing two concatenations whose first parts have the same length
      compares the first parts, and the second parts only on a tie. */
  lemma {:induction false} LessConcat(x: string, u: string, y: string, v: string)
    requires |x| == |y|
    ensures Less(x + u, y + v) <==> Less(x, y) || (x == y && Less(u, v))
    decreases |x|
  {
    if |x| == 0 {
      assert x + u == u && y + v == v;
    } else {
      assert (x + u)[0] == x[0] && (y + v)[0] == y[0];
      if x[0] == y[0] {
        assert (x + u)[1..] == x[1..] + u;
        assert (y + v)[1..] == y[1..] + v;
        LessConcat(x[1..], u, y[1..], v);
        assert x == [x[0]] + x[1..] && y == [y[0]] + y[1..];
      }
    }
  }

  predicate IsDigit(c: char)
  {
    '0' <= c <= '9'
  }

  predicate AllDigits(s: string)
  {
    forall i :: 0 <= i < |s| ==> IsDigit(s[i])
  }

  /** A `YYYY-MM-DD` string: ten characters, dashes at positions 4 and 7, digits elsewhere. */
  predicate IsIsoDate(s: string)
  {
    |s| == 10 && s[4] == '-' && s[7] == '-' &&
    AllDigits(s[0..4]) && AllDigits(s[5..7]) && AllDigits(s[8..10])
  }

  function Pow10(n: nat): (r: nat)
    ensures r >= 1
  {
    if n == 0 then 1 else 10 * Pow10(n - 1)
  }

  /** The number a string of decimal digits denotes, most significant digit first. */
  function DigitsValue(s: string): (r: nat)
    requires AllDigits(s)
    ensures r < Pow10(|s|)
  {
    if |s| == 0 then 0
    else
      assert AllDigits(s[1..]) by { forall i | 0 <= i < |s| - 1 ensures IsDigit(s[1..][i]) { assert s[1..][i] == s[i + 1]; } }
      var d := (s[0] as int) - ('0' as int);
      var t := DigitsValue(s[1..]);
      assert d * Pow10(|s| - 1) <= 9 * Pow10(|s| - 1) by { MulMono(d, 9, Pow10(|s| - 1)); }
      d * Pow10(|s| - 1) + t
  }

  /** The day a `YYYY-MM-DD` string names, as the eight-digit number YYYYMMDD. */
  function DayNumber(s: string): nat
    requires IsIsoDate(s)
  {
    DigitsValue(DateKey(s))
  }

  function DateKey(s: string): (r: string)
    requires IsIsoDate(s)
    ensures |r| == 8 && AllDigits(r)
  {
    var r := s[0..4] + s[5..7] + s[8..10];
    assert forall i :: 0 <= i < 8 ==> r[i] == if i < 4 then s[0..4][i] else if i < 6 then s[5..7][i - 4] else s[8..10][i - 6];
    r
  }

  lemma MulMono(x: int, y: int, p: nat)
    requires x <= y
    ensures x * p <= y * p
  {
  }

  /** Two numbers written with the same number of digits compare by their
      leading digit first. */
  lemma LeadingDigitOrder(da: int, db: int, ta: nat, tb: nat, p: nat)
    requires ta < p && tb < p
    ensures da < db ==> da * p + ta < db * p + tb
    ensures da == db ==> (da * p + ta < db * p + tb <==> ta < tb)
  {
    if da < db {
      MulMono(da + 1, db, p);
    }
  }

  /** On digit strings of equal length, string order is numeric order. */
  lemma {:induction false} DigitsLess(a: string, b: string)
    requires |a| == |b| && AllDigits(a) && AllDigits(b)
    ensures Less(a, b) <==> DigitsValue(a) < DigitsValue(b)
    decreases |a|
  {
    if |a| > 0 {
      assert AllDigits(a[1..]) by { forall i | 0 <= i < |a| - 1 ensures IsDigit(a[1..][i]) { assert a[1..][i] == a[i + 1]; } }
      assert AllDigits(b[1..]) by { forall i | 0 <= i < |b| - 1 ensures IsDigit(b[1..][i]) { assert b[1..][i] == b[i + 1]; } }
      var p := Pow10(|a| - 1);
      var da := (a[0] as int) - ('0' as int);
      var db := (b[0] as int) - ('0' as int);
      var ta, tb := DigitsValue(a[1..]), DigitsValue(b[1..]);
      assert DigitsValue(a) == da * p + ta;
      assert DigitsValue(b) == db * p + tb;
      LeadingDigitOrder(da, db, ta, tb, p);
      LeadingDigitOrder(db, da, tb, ta, p);
      if da == db {
        DigitsLess(a[1..], b[1..]);
      }
    }
  }

  /** Comparing two ISO dates as strings, as the overdue sweep does, is comparing
      the days they name. */
  lemma IsoDateOrder(a: string, b: string)
    requires IsIsoDate(a) && IsIsoDate(b)
    ensures Less(a, b) <==> DayNumber(a) < DayNumber(b)
  {
    assert a == a[0..4] + ("-" + (a[5..7] + ("-" + a[8..10])));
    assert b == b[0..4] + ("-" + (b[5..7] + ("-" + b[8..10])));
    LessConcat(a[0..4], "-" + (a[5..7] + ("-" + a[8..10])), b[0..4], "-" + (b[5..7] + ("-" + b[8..10])));
    LessConcat("-", a[5..7] + ("-" + a[8..10]), "-", b[5..7] + ("-" + b[8..10]));
    LessConcat(a[5..7], "-" + a[8..10], b[5..7], "-" + b[8..10]);
    LessConcat("-", a[8..10], "-", b[8..10]);
    LessIrreflexive("-");
    LessConcat(a[0..4], a[5..7] + a[8..10], b[0..4], b[5..7] + b[8..10]);
    LessConcat(a[5..7], a[8..10], b[5..7], b[8..10]);
    assert DateKey(a) == a[0..4] + (a[5..7] + a[8..10]);
    assert DateKey(b) == b[0..4] + (b[5..7] + b[8..10]);
    DigitsLess(DateKey(a), DateKey(b));
  }
}
