/** Decimal digit strings: their numeric value, Java's `int`-to-`String`
    conversion (as done by string concatenation), and the digit-by-digit
    remainder computation used by the ISO/IEC 7064 MOD 97-10 check. */
module Decimal {

  predicate IsDigit(c: char) {
    '0' <= c <= '9'
  }

  predicate AllDigits(s: string) {
    forall i :: 0 <= i < |s| ==> IsDigit(s[i])
  }

  function DigitValue(c: char): nat
    requires IsDigit(c)
  {
    (c as int) - ('0' as int)
  }

  function DigitChar(d: nat): (c: char)
    requires d < 10
    ensures IsDigit(c) && DigitValue(c) == d
  {
    (('0' as int) + d) as char
  }

  /** The number a digit string denotes, most significant digit first
      (what `new BigInteger(s)` reads). */
  function Value(s: string): nat
    requires AllDigits(s)
    decreases |s|
  {
    if |s| == 0 then 0 else Value(s[..|s| - 1]) * 10 + DigitValue(s[|s| - 1])
  }

  /** Reading the concatenation of two digit strings shifts the first one left. */
  lemma {:induction false} ValueAppend(a: string, b: string)
    requires AllDigits(a) && AllDigits(b)
    ensures AllDigits(a + b)
    ensures Value(a + b) == Value(a) * Pow10(|b|) + Value(b)
    decreases |b|
  {
    if |b| > 0 {
      var b' := b[..|b| - 1];
      assert (a + b)[..|a + b| - 1] == a + b';
      ValueAppend(a, b');
      var d := DigitValue(b[|b| - 1]);
      assert Value(a + b) == Value(a + b') * 10 + d;
      assert Value(b) == Value(b') * 10 + d;
      assert Pow10(|b|) == Pow10(|b'|) * 10;
      ShiftDistributes(Value(a), Pow10(|b'|), Value(b'), d);
    } else {
      assert a + b == a;
    }
  }

  lemma ShiftDistributes(x: int, p: int, y: int, d: int)
    ensures (x * p + y) * 10 + d == x * (p * 10) + (y * 10 + d)
  {
  }

  function Pow10(n: nat): (p: nat)
    ensures p >= 1
  {
    if n == 0 then 1 else 10 * Pow10(n - 1)
  }

  /** Decimal representation of a natural number without leading zeros. */
  function NatToString(n: nat): (s: string)
    ensures |s| > 0 && AllDigits(s)
    ensures Value(s) == n
    ensures |s| > 1 ==> s[0] != '0'
    decreases n
  {
    if n < 10 then [DigitChar(n)]
    else
      var prefix := NatToString(n / 10);
      var s := prefix + [DigitChar(n % 10)];
      assert s[..|s| - 1] == prefix;
      s
  }

  /** Java's `Integer.toString(n)`, which is what `"..." + n` appends: an
      optional minus sign followed by the digits of the magnitude. */
  function IntToString(n: int): (s: string)
    ensures |s| > 0 && (s[0] == '-' <==> n < 0)
    ensures var digits := if n < 0 then s[1..] else s;
      && |digits| > 0 && AllDigits(digits)
      && Value(digits) == (if n < 0 then -n else n)
      && (|digits| > 1 ==> digits[0] != '0')
  {
    if n < 0 then "-" + NatToString(-n) else NatToString(n)
  }

  /** Different numbers print differently, so a printed number identifies the
      number it came from. */
  lemma IntToStringInjective(a: int, b: int)
    requires IntToString(a) == IntToString(b)
    ensures a == b
  {
    if a < 0 && b < 0 {
      assert NatToString(-a) == IntToString(a)[1..] == NatToString(-b);
    }
  }

  /** The remainder of the decimal number `s` modulo `m`, computed one digit at a
      time so that intermediate values stay below `10 * m` (ISO/IEC 7064 piecewise
      calculation). */
  function RemainderFold(s: string, m: nat): (r: nat)
    requires AllDigits(s) && m > 0
    ensures r < m
    decreases |s|
  {
    if |s| == 0 then 0
    else (RemainderFold(s[..|s| - 1], m) * 10 + DigitValue(s[|s| - 1])) % m
  }

  /** Replacing a number by its remainder before shifting in a digit does not
      change the remainder. */
  lemma ShiftRemainder(x: nat, d: nat, m: nat)
    requires m > 0
    ensures ((x % m) * 10 + d) % m == (x * 10 + d) % m
  {
    var q := x / m;
    var y := (x % m) * 10 + d;
    assert x * 10 + d == (q * 10) * m + y;
    assert y == (y / m) * m + y % m;
    assert x * 10 + d == (q * 10 + y / m) * m + y % m;
    RemainderUnique(x * 10 + d, m, q * 10 + y / m, y % m);
  }

  /** Euclidean division has a unique remainder. */
  lemma RemainderUnique(x: int, m: int, q: int, r: int)
    requires m > 0 && 0 <= r < m && x == q * m + r
    ensures x % m == r
  {
    var q0, r0 := x / m, x % m;
    assert (q - q0) * m == r0 - r;
    if q > q0 {
      MultipleAtLeast(q - q0, m);
    } else if q < q0 {
      MultipleAtLeast(q0 - q, m);
    }
  }

  lemma {:induction false} MultipleAtLeast(a: int, m: int)
    requires a >= 1 && m > 0
    ensures a * m >= m
    decreases a
  {
    if a > 1 {
      MultipleAtLeast(a - 1, m);
      assert a * m == (a - 1) * m + m;
    }
  }

  /** The digit-by-digit remainder is the remainder of the whole number. */
  lemma {:induction false} RemainderFoldIsRemainder(s: string, m: nat)
    requires AllDigits(s) && m > 0
    ensures RemainderFold(s, m) == Value(s) % m
    decreases |s|
  {
    if |s| > 0 {
      var p := s[..|s| - 1];
      var d := DigitValue(s[|s| - 1]);
      RemainderFoldIsRemainder(p, m);
      assert RemainderFold(s, m) == (RemainderFold(p, m) * 10 + d) % m;
      assert Value(s) == Value(p) * 10 + d;
      ShiftRemainder(Value(p), d, m);
    }
  }
}
