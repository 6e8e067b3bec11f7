/**
 Decimal numerals: what `fmt`'s `%d` verb writes for a non-negative length,
 and the value a reader of the Content-Length field recovers from it.
 */
module Decimal {
  import opened Bytes

  predicate IsDigit(b: byte)
  {
    48 <= b <= 57
  }

  predicate AllDigits(s: Bytes)
  {
    forall i :: 0 <= i < |s| ==> IsDigit(s[i])
  }

  /** A numeral as `%d` writes one: at least one digit, and no leading zero unless it is "0". */
  predicate IsCanonical(s: Bytes)
  {
    |s| >= 1 && AllDigits(s) && (s[0] == 48 ==> |s| == 1)
  }

  /** `%d` of a non-negative integer: its digits, most significant first. */
  function Format(n: nat): (s: Bytes)
    ensures IsCanonical(s)
    ensures n < 10 <==> |s| == 1
    decreases n
  {
    if n < 10 then [(48 + n) as byte]
    else
      var s := Format(n / 10) + [(48 + n % 10) as byte];
      assert s[0] == Format(n / 10)[0];
      s
  }

  /** The number a string of digits denotes. */
  function Value(s: Bytes): nat
    requires AllDigits(s)
    decreases |s|
  {
    if |s| == 0 then 0
    else 10 * Value(s[..|s| - 1]) + (s[|s| - 1] - 48) as nat
  }

  /** The value of a three-digit numeral, such as a status code. */
  lemma ValueOfThreeDigits(a: byte, b: byte, c: byte)
    requires IsDigit(a) && IsDigit(b) && IsDigit(c)
    ensures Value([a, b, c]) == 100 * (a - 48) as int + 10 * (b - 48) as int + (c - 48) as int
  {
    assert [a][..0] == [];
    assert Value([a]) == (a - 48) as int;
    assert [a, b][..1] == [a];
    assert Value([a, b]) == 10 * (a - 48) as int + (b - 48) as int;
    assert [a, b, c][..2] == [a, b];
  }

  /** Reading a formatted number gives the number back. */
  lemma {:induction false} ValueOfFormat(n: nat)
    ensures Value(Format(n)) == n
    decreases n
  {
    if n >= 10 {
      var s := Format(n);
      ValueOfFormat(n / 10);
      assert s[..|s| - 1] == Format(n / 10);
    }
  }

  /** A numeral without a leading zero denotes at least one when it has more than one digit. */
  lemma {:induction false} ValueOfLongNumeral(s: Bytes)
    requires IsCanonical(s) && |s| >= 2
    ensures Value(s) >= 10
    decreases |s|
  {
    var p := s[..|s| - 1];
    if |p| >= 2 {
      ValueOfLongNumeral(p);
    } else {
      assert p[0] == s[0];
    }
  }

  /** Formatting the value of a canonical numeral gives the numeral back. */
  lemma {:induction false} FormatOfValue(s: Bytes)
    requires IsCanonical(s)
    ensures Format(Value(s)) == s
    decreases |s|
  {
    if |s| >= 2 {
      var p := s[..|s| - 1];
      assert p[0] == s[0];
      FormatOfValue(p);
      ValueOfLongNumeral(s);
      assert s == p + [s[|s| - 1]];
    }
  }
}
