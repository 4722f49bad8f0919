/** Shared value types and sequence helpers used across the model. */
module Util {

  datatype Option<T> = None | Some(value: T)

  datatype Result<T, E> = Ok(value: T) | Err(error: E)

  /** Pass/Fail outcome of a validation routine that returns nothing on success. */
  datatype Outcome<E> = Pass | Fail(error: E)

  /** Number of occurrences of `x` in `s`. */
  function Count<T(==)>(s: seq<T>, x: T): nat
  {
    if s == [] then 0 else (if s[0] == x then 1 else 0) + Count(s[1..], x)
  }

  predicate NoDuplicates<T(==)>(s: seq<T>)
  {
    forall i, j :: 0 <= i < j < |s| ==> s[i] != s[j]
  }

  function SumReals(s: seq<real>): real
  {
    if s == [] then 0.0 else s[0] + SumReals(s[1..])
  }

  /** Index of the first occurrence of `x` in `s`, or -1 (JavaScript `findIndex`). */
  function FindIndex<T(==)>(s: seq<T>, x: T): (r: int)
    ensures -1 <= r < |s|
    ensures r == -1 <==> x !in s
    ensures r >= 0 ==> s[r] == x && x !in s[..r]
  {
    if s == [] then -1
    else if s[0] == x then 0
    else
      var k := FindIndex(s[1..], x);
      assert s[1..][..if k >= 0 then k else 0] == s[1..if k >= 0 then k + 1 else 1];
      if k == -1 then -1 else k + 1
  }

  /** Decimal rendering of an integer, as Python's `str` and JavaScript's
      `toString` print integral values. */
  function DecimalString(n: int): string
    decreases if n < 0 then -n + 1 else n
  {
    if n < 0 then "-" + DecimalString(-n)
    else if n < 10 then [Digit(n)]
    else DecimalString(n / 10) + [Digit(n % 10)]
  }

  function Digit(d: int): char
    requires 0 <= d < 10
  {
    "0123456789"[d]
  }

  function DigitValue(c: char): int
  {
    (c as int) - ('0' as int)
  }

  predicate AllDigits(s: string)
  {
    forall i :: 0 <= i < |s| ==> '0' <= s[i] <= '9'
  }

  /** Value of a non-empty run of decimal digits, read left to right. */
  function ParseNat(s: string): int
    requires |s| > 0
    decreases |s|
  {
    if |s| == 1 then DigitValue(s[0]) else ParseNat(s[..|s| - 1]) * 10 + DigitValue(s[|s| - 1])
  }

  /** `int(s)` on an optionally signed run of decimal digits; None otherwise. */
  function ParseDecimal(s: string): Option<int>
  {
    if |s| > 1 && s[0] == '-' && AllDigits(s[1..]) then Some(-ParseNat(s[1..]))
    else if |s| > 0 && AllDigits(s) then Some(ParseNat(s))
    else None
  }

  lemma {:induction false} NatStringParses(n: int)
    requires n >= 0
    ensures |DecimalString(n)| > 0 && AllDigits(DecimalString(n))
    ensures ParseNat(DecimalString(n)) == n
    decreases n
  {
    if n >= 10 {
      NatStringParses(n / 10);
      var s := DecimalString(n / 10);
      var t := s + [Digit(n % 10)];
      assert t[..|t| - 1] == s;
      assert "0123456789"[n % 10] == Digit(n % 10);
      assert DigitValue(Digit(n % 10)) == n % 10;
    } else {
      assert DigitValue(Digit(n)) == n;
    }
  }

  lemma NegativeStringParses(n: int)
    requires n < 0
    ensures ParseDecimal(DecimalString(n)) == Some(n)
  {
    var t := DecimalString(-n);
    NatStringParses(-n);
    var s := "-" + t;
    assert DecimalString(n) == s;
    assert |s| > 1 && s[0] == '-' && s[1..] == t;
  }

  lemma NonNegativeStringParses(n: int)
    requires n >= 0
    ensures ParseDecimal(DecimalString(n)) == Some(n)
  {
    var s := DecimalString(n);
    NatStringParses(n);
    assert '0' <= s[0] <= '9';
    assert s[0] != '-';
  }

  /** Printing an integer and reading it back gives the integer again. */
  lemma ParseDecimalString(n: int)
    ensures ParseDecimal(DecimalString(n)) == Some(n)
  {
    if n < 0 {
      NegativeStringParses(n);
    } else {
      NonNegativeStringParses(n);
    }
  }

  lemma {:induction false} CountPositiveIffIn<T>(s: seq<T>, x: T)
    ensures Count(s, x) > 0 <==> x in s
  {
    if s != [] {
      CountPositiveIffIn(s[1..], x);
    }
  }

  lemma {:induction false} CountAppend<T>(a: seq<T>, b: seq<T>, x: T)
    ensures Count(a + b, x) == Count(a, x) + Count(b, x)
  {
    if a == [] {
      assert a + b == b;
    } else {
      assert (a + b)[1..] == a[1..] + b;
      CountAppend(a[1..], b, x);
    }
  }

  /** A sequence is duplicate-free exactly when no value occurs twice. */
  lemma {:induction false} NoDuplicatesIffCountsAtMostOne<T>(s: seq<T>)
    ensures NoDuplicates(s) <==> forall x :: Count(s, x) <= 1
  {
    if s == [] {
    } else {
      NoDuplicatesIffCountsAtMostOne(s[1..]);
      CountPositiveIffIn(s[1..], s[0]);
      if NoDuplicates(s) {
        forall x ensures Count(s, x) <= 1 {
          assert NoDuplicates(s[1..]);
          assert Count(s[1..], x) <= 1;
          if x == s[0] {
            assert s[0] !in s[1..];
            assert Count(s[1..], x) == 0;
          }
        }
      } else {
        var i, j :| 0 <= i < j < |s| && s[i] == s[j];
        if i == 0 {
          assert s[1..][j - 1] == s[0];
          assert Count(s, s[0]) > 1;
        } else {
          assert s[1..][i - 1] == s[1..][j - 1];
          assert !NoDuplicates(s[1..]);
          var x :| Count(s[1..], x) > 1;
          assert Count(s, x) > 1;
        }
      }
    }
  }

  lemma {:induction false} SumRealsAppend(a: seq<real>, b: seq<real>)
    ensures SumReals(a + b) == SumReals(a) + SumReals(b)
  {
    if a == [] {
      assert a + b == b;
    } else {
      assert (a + b)[1..] == a[1..] + b;
      SumRealsAppend(a[1..], b);
    }
  }
}
