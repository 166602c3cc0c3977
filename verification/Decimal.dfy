/** The decimal notation of Go's `strconv.ParseUint` and `strconv.FormatUint`, base 10. */
module Decimal {
  import opened Basics

  const ZERO: byte := 48

  predicate IsDigit(b: byte) {
    ZERO <= b <= ZERO + 9
  }

  predicate AllDigits(s: Bytes) {
    forall i :: 0 <= i < |s| ==> IsDigit(s[i])
  }

  /** The number a string of digits denotes; leading zeros are allowed. */
  function Value(s: Bytes): nat
    requires AllDigits(s)
  {
    if s == [] then 0 else 10 * Value(s[..|s| - 1]) + (s[|s| - 1] - ZERO)
  }

  /** Fails on the empty string, on any byte that is not a digit, and on numbers from `bound` up. */
  function ParseUint(s: Bytes, bound: nat): Option<nat> {
    if s != [] && AllDigits(s) && Value(s) < bound then Some(Value(s)) else None
  }

  function Format(n: nat): Bytes {
    if n < 10 then [ZERO + n] else Format(n / 10) + [ZERO + n % 10]
  }

  /** The canonical notation: no leading zero unless the number is zero. */
  predicate Canonical(s: Bytes) {
    s != [] && AllDigits(s) && (|s| > 1 ==> s[0] != ZERO)
  }

  lemma {:induction false} FormatDenotes(n: nat)
    ensures Canonical(Format(n)) && (n > 0 ==> Format(n)[0] != ZERO)
    ensures Value(Format(n)) == n
  {
    if n < 10 {
      assert Format(n)[..0] == [];
    } else {
      FormatDenotes(n / 10);
      assert Format(n)[..|Format(n)| - 1] == Format(n / 10);
    }
  }

  /** Formatting and parsing undo each other on every number the parser accepts. */
  lemma {:induction false} ParseFormat(n: nat, bound: nat)
    ensures ParseUint(Format(n), bound) == if n < bound then Some(n) else None
  {
    FormatDenotes(n);
  }

  /** The canonical notation of a number is the shortest string that denotes it. */
  lemma {:induction false} FormatShortest(s: Bytes)
    requires s != [] && AllDigits(s)
    ensures |Format(Value(s))| <= |s|
    ensures Canonical(s) ==> Format(Value(s)) == s
  {
    var init := s[..|s| - 1];
    if init == [] {
      assert Value(s) == s[0] - ZERO;
      assert s == [s[0]];
    } else {
      FormatShortest(init);
      assert Value(s) / 10 == Value(init);
      if Value(s) >= 10 {
        assert s == init + [s[|s| - 1]];
      } else if Canonical(s) {
        PositiveValue(init);
      }
    }
  }

  lemma {:induction false} PositiveValue(s: Bytes)
    requires s != [] && AllDigits(s) && s[0] != ZERO
    ensures Value(s) > 0
  {
    if |s| > 1 {
      PositiveValue(s[..|s| - 1]);
    }
  }

  /** A smaller number never prints longer. */
  lemma {:induction false} FormatMonotone(a: nat, b: nat)
    requires a <= b
    ensures |Format(a)| <= |Format(b)|
  {
    if a >= 10 {
      FormatMonotone(a / 10, b / 10);
    }
  }
}
