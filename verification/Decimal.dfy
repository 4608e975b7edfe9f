/** Decimal printing of natural numbers, and the reader that inverts it. */
module Decimal {
  import opened Wrappers

  predicate IsDigit(c: char) {
    '0' <= c <= '9'
  }

  function DigitChar(d: nat): char
    requires d < 10
  {
    ('0' as int + d) as char
  }

  /** The decimal digits of `n`, most significant first, as `to_string` prints them. */
  function Digits(n: nat): string {
    if n < 10 then [DigitChar(n)] else Digits(n / 10) + [DigitChar(n % 10)]
  }

  predicate AllDigits(s: string) {
    forall i :: 0 <= i < |s| ==> IsDigit(s[i])
  }

  /** The number a string of digits denotes. */
  function Value(s: string): nat
    requires AllDigits(s)
  {
    if s == "" then 0
    else 10 * Value(s[..|s| - 1]) + (s[|s| - 1] as int - '0' as int)
  }

  /** Length of the longest prefix made of digits. */
  function Span(s: string): (n: nat)
    ensures n <= |s| && AllDigits(s[..n])
    ensures n < |s| ==> !IsDigit(s[n])
  {
    if s == "" || !IsDigit(s[0]) then 0
    else
      var rest := Span(s[1..]);
      assert s[..1 + rest] == [s[0]] + s[1..][..rest];
      1 + rest
  }

  /** Reads the leading decimal number of `s`; fails when there is none. */
  function TakeNat(s: string): Option<(nat, string)> {
    var n := Span(s);
    if n == 0 then None else Some((Value(s[..n]), s[n..]))
  }

  lemma {:induction false} DigitsDenote(n: nat)
    ensures |Digits(n)| > 0 && AllDigits(Digits(n))
    ensures Value(Digits(n)) == n
  {
    if n < 10 {
      assert Digits(n)[..0] == "";
    } else {
      DigitsDenote(n / 10);
      assert Digits(n)[..|Digits(n)| - 1] == Digits(n / 10);
    }
  }

  /** No number is printed with leading zeros, so each has one printed form. */
  lemma {:induction false} DigitsAreCanonical(n: nat)
    ensures |Digits(n)| > 0 && (n > 0 ==> Digits(n)[0] != '0') && (n == 0 ==> Digits(n) == "0")
  {
    if n >= 10 {
      DigitsAreCanonical(n / 10);
    }
  }

  lemma {:induction false} SpanIsUnique(s: string, n: nat)
    requires n <= |s| && AllDigits(s[..n])
    requires n < |s| ==> !IsDigit(s[n])
    ensures Span(s) == n
  {
    if n > 0 {
      assert s[..n][0] == s[0];
      assert s[1..][..n - 1] == s[..n][1..];
      SpanIsUnique(s[1..], n - 1);
    }
  }

  /** Reading inverts printing, whatever non-digit text follows. */
  lemma TakeNatInvertsDigits(n: nat, rest: string)
    requires rest == "" || !IsDigit(rest[0])
    ensures TakeNat(Digits(n) + rest) == Some((n, rest))
  {
    DigitsDenote(n);
    var s := Digits(n) + rest;
    assert s[..|Digits(n)|] == Digits(n);
    assert s[|Digits(n)|..] == rest;
    SpanIsUnique(s, |Digits(n)|);
  }

  function Pow10(k: nat): nat {
    if k == 0 then 1 else 10 * Pow10(k - 1)
  }

  lemma {:induction false} DigitsLength(n: nat, k: nat)
    requires 1 <= k && n < Pow10(k)
    ensures 1 <= |Digits(n)| <= k
    decreases k
  {
    if n >= 10 {
      assert k > 1 by {
        assert Pow10(1) == 10 * Pow10(0) == 10;
      }
      DigitsLength(n / 10, k - 1);
    }
  }
}
