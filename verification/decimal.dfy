/** Decimal rendering of unsigned integers, as Rust's `Display` writes them
    (`to_string()` and the `{}` placeholder of `format!`): no sign, no
    leading zeros, and "0" for zero. `Parse` is its inverse. */
module Decimal {
  import opened Results

  predicate IsDigit(c: char) {
    '0' <= c <= '9'
  }

  predicate AllDigits(s: string) {
    forall i :: 0 <= i < |s| ==> IsDigit(s[i])
  }

  /** The digits Rust prints: non-empty, and no leading zero unless the number is 0. */
  predicate Canonical(s: string) {
    |s| > 0 && AllDigits(s) && (|s| > 1 ==> s[0] != '0')
  }

  function DigitChar(d: nat): (c: char)
    requires d < 10
    ensures IsDigit(c)
  {
    ('0' as int + d) as char
  }

  function DigitValue(c: char): (d: nat)
    requires IsDigit(c)
    ensures d < 10
  {
    c as int - '0' as int
  }

  /** The decimal text of `n`. */
  function Text(n: nat): (s: string)
    ensures Canonical(s)
    ensures n < 10 <==> |s| == 1
    decreases n
  {
    if n < 10 then [DigitChar(n)]
    else Text(n / 10) + [DigitChar(n % 10)]
  }

  /** The number a string of digits denotes, most significant digit first. */
  function Value(s: string): nat
    requires AllDigits(s)
    decreases |s|
  {
    if |s| == 0 then 0
    else Value(s[..|s| - 1]) * 10 + DigitValue(s[|s| - 1])
  }

  /** Reads back a non-empty run of digits; anything else is rejected. */
  function Parse(s: string): Option<nat> {
    if |s| > 0 && AllDigits(s) then Some(Value(s)) else None
  }

  lemma {:induction false} ValueOfText(n: nat)
    ensures Value(Text(n)) == n
    decreases n
  {
    if n >= 10 {
      var s := Text(n);
      assert s[..|s| - 1] == Text(n / 10);
      ValueOfText(n / 10);
    }
  }

  /** Reading back what `Text` prints gives the number printed. */
  lemma ParseText(n: nat)
    ensures Parse(Text(n)) == Some(n)
  {
    ValueOfText(n);
  }

  /** Distinct numbers have distinct texts. */
  lemma TextInjective(a: nat, b: nat)
    ensures Text(a) == Text(b) <==> a == b
  {
    if Text(a) == Text(b) {
      ParseText(a);
      ParseText(b);
    }
  }

  lemma {:induction false} ValuePositive(s: string)
    requires AllDigits(s) && |s| > 0 && s[0] != '0'
    ensures Value(s) > 0
    decreases |s|
  {
    if |s| > 1 {
      ValuePositive(s[..|s| - 1]);
    }
  }

  /** The other direction of the round trip: every canonical digit string is
      what `Text` prints for the number it denotes. */
  lemma {:induction false} TextOfValue(s: string)
    requires Canonical(s)
    ensures Text(Value(s)) == s
    decreases |s|
  {
    if |s| > 1 {
      var init := s[..|s| - 1];
      ValuePositive(init);
      TextOfValue(init);
      var n := Value(s);
      assert n / 10 == Value(init) && n % 10 == DigitValue(s[|s| - 1]);
      assert s == init + [s[|s| - 1]];
    }
  }
}
