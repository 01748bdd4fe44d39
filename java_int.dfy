/** Java's 32-bit `int`: its range, its wrap-around on addition, and the two
    conversions the record file uses, `Integer.toString` (through
    `StringBuilder.append(int)`) and `Integer.parseInt`. */
module JavaInt {
  import opened Wrappers

  const MinInt: int := -0x8000_0000
  const MaxInt: int := 0x7fff_ffff
  const Modulus: int := 0x1_0000_0000

  type Int32 = x: int | MinInt <= x <= MaxInt

  /** The value Java's `int` arithmetic keeps of the exact result `x`
      (two's-complement wrap-around). */
  function Wrap(x: int): (r: Int32)
    ensures (x - r) % Modulus == 0
    ensures MinInt <= x <= MaxInt ==> r == x
  {
    (x - MinInt) % Modulus + MinInt
  }

  /** Two `int` values congruent modulo 2^32 are the same value. */
  lemma WrapUnique(x: int, r: int)
    requires MinInt <= r <= MaxInt
    requires (x - r) % Modulus == 0
    ensures Wrap(x) == r
  {
    var w := Wrap(x);
    var d := w - r;
    assert (x - r) - (x - w) == d;
    assert d % Modulus == 0 by {
      ModDifference(x - r, x - w);
    }
    assert -Modulus < d < Modulus;
  }

  lemma ModDifference(a: int, b: int)
    requires a % Modulus == 0 && b % Modulus == 0
    ensures (a - b) % Modulus == 0
  {
    var qa, qb := a / Modulus, b / Modulus;
    assert a == Modulus * qa;
    assert b == Modulus * qb;
    assert a - b == Modulus * (qa - qb);
  }

  /** Adding to an already wrapped value wraps like adding to the exact one. */
  lemma WrapAdd(a: int, b: int)
    ensures Wrap(Wrap(a) + b) == Wrap(a + b)
  {
    var w := Wrap(a + b);
    assert (Wrap(a) + b - w) % Modulus == 0 by {
      ModDifference(a + b - w, a - Wrap(a));
      assert (a + b - w) - (a - Wrap(a)) == Wrap(a) + b - w;
    }
    WrapUnique(Wrap(a) + b, w);
  }

  predicate IsDigit(c: char) {
    '0' <= c <= '9'
  }

  predicate AllDigits(s: string) {
    forall i :: 0 <= i < |s| ==> IsDigit(s[i])
  }

  function DigitChar(d: int): (c: char)
    requires 0 <= d < 10
    ensures IsDigit(c) && c as int - '0' as int == d
  {
    ('0' as int + d) as char
  }

  /** The number a string of decimal digits denotes (leading zeros allowed). */
  function DigitsValue(s: string): nat
    requires AllDigits(s)
  {
    if s == [] then 0 else DigitsValue(s[..|s| - 1]) * 10 + (s[|s| - 1] as int - '0' as int)
  }

  /** `Integer.toString(x)`: a minus sign before the text of `-x` for a
      negative `x`; otherwise the decimal digits, most significant first. */
  function IntToString(x: int): (s: string)
    ensures |s| >= 1
    decreases if x < 0 then 1 - x else x
  {
    if x < 0 then "-" + IntToString(-x)
    else if x < 10 then [DigitChar(x)]
    else IntToString(x / 10) + [DigitChar(x % 10)]
  }

  /** The text of a number that is not negative is its decimal digits,
      without a leading zero, and they denote the number. */
  lemma {:induction false} DigitsRoundTrip(n: nat)
    ensures AllDigits(IntToString(n)) && DigitsValue(IntToString(n)) == n
    ensures |IntToString(n)| > 1 ==> IntToString(n)[0] != '0'
  {
    if n >= 10 {
      DigitsRoundTrip(n / 10);
      var s, init := IntToString(n), IntToString(n / 10);
      assert s == init + [DigitChar(n % 10)];
      assert forall i :: 0 <= i < |init| ==> s[i] == init[i];
      assert s[..|s| - 1] == init;
    }
  }

  /** The text of an `int` holds only digits, after a leading minus sign,
      and starts with the sign exactly when the number is negative. */
  lemma IntToStringChars(x: int)
    ensures IntToString(x)[0] == '-' <==> x < 0
    ensures forall i :: 0 <= i < |IntToString(x)| ==> IsDigit(IntToString(x)[i]) || (i == 0 && IntToString(x)[i] == '-')
  {
    var s := IntToString(x);
    if x < 0 {
      DigitsRoundTrip(-x);
      forall i | 1 <= i < |s| ensures IsDigit(s[i]) {
        assert s[i] == s[1..][i - 1];
      }
    } else {
      DigitsRoundTrip(x);
    }
  }

  /** `Integer.parseInt(s)`: an optional `+` or `-`, then at least one ASCII
      digit, denoting a value within the `int` range; None stands for the
      `NumberFormatException` thrown otherwise. */
  function ParseInt(s: string): (r: Option<Int32>)
    ensures r.Some? ==> |s| >= 1
    ensures r.Some? && s[0] == '-' ==> r.value <= 0
    ensures r.Some? && s[0] != '-' ==> r.value >= 0
  {
    if s == [] then None
    else
      var body := if s[0] == '-' || s[0] == '+' then s[1..] else s;
      if body == [] || !AllDigits(body) then None
      else
        var v: int := if s[0] == '-' then -(DigitsValue(body) as int) else DigitsValue(body);
        if MinInt <= v <= MaxInt then Some(v) else None
  }

  /** Text that parses holds only digits, after an optional leading sign. */
  lemma ParseIntChars(s: string)
    requires ParseInt(s).Some?
    ensures forall i :: 0 <= i < |s| ==> IsDigit(s[i]) || (i == 0 && (s[i] == '-' || s[i] == '+'))
  {
    if s[0] == '-' || s[0] == '+' {
      forall i | 1 <= i < |s| ensures IsDigit(s[i]) {
        assert s[i] == s[1..][i - 1];
      }
    }
  }

  /** A string of digits parses as the number it denotes, when that is an `int`. */
  lemma ParseDigits(t: string)
    requires t != [] && AllDigits(t) && DigitsValue(t) <= MaxInt
    ensures ParseInt(t) == Some(DigitsValue(t))
  {
    assert IsDigit(t[0]);
  }

  /** A minus sign before a string of digits parses as the negated number. */
  lemma ParseNegatedDigits(t: string)
    requires t != [] && AllDigits(t) && DigitsValue(t) <= -MinInt
    ensures ParseInt("-" + t) == Some(-(DigitsValue(t) as int))
  {
    var s := "-" + t;
    assert s[0] == '-' && s[1..] == t;
  }

  /** Every `int` survives the trip through its decimal text. */
  lemma ParseIntRoundTrip(x: Int32)
    ensures ParseInt(IntToString(x)) == Some(x)
  {
    if x < 0 {
      var m: nat := -(x as int);
      var t := IntToString(m);
      DigitsRoundTrip(m);
      assert IntToString(x) == "-" + t;
      ParseNegatedDigits(t);
    } else {
      DigitsRoundTrip(x);
      ParseDigits(IntToString(x));
    }
  }
}
