/** Decimal text of non-negative integers: the `%0Nd` verb of Go's `fmt`
    package restricted to non-negative operands, together with the reading of
    a digit string back into its value, which serves as its partner. */
module Decimal {

  predicate IsDigit(c: char) {
    '0' <= c <= '9'
  }

  predicate AllDigits(s: string) {
    forall i :: 0 <= i < |s| ==> IsDigit(s[i])
  }

  function DigitChar(d: nat): (c: char)
    requires d < 10
    ensures IsDigit(c)
    ensures DigitValue(c) == d
  {
    ('0' as int + d) as char
  }

  function DigitValue(c: char): (d: nat)
    requires IsDigit(c)
    ensures d < 10
  {
    (c as int) - ('0' as int)
  }

  function Pow10(k: nat): (p: nat)
    ensures p >= 1
  {
    if k == 0 then 1 else 10 * Pow10(k - 1)
  }

  /** The number a string of decimal digits denotes, most significant digit first. */
  function Value(s: string): nat
    requires AllDigits(s)
  {
    if |s| == 0 then 0 else Value(s[..|s| - 1]) * 10 + DigitValue(s[|s| - 1])
  }

  /** A run of `k` zero characters. */
  function Zeros(k: nat): (z: string)
    ensures |z| == k
    ensures forall i :: 0 <= i < k ==> z[i] == '0'
  {
    seq(k, _ => '0')
  }

  /** The shortest decimal text of `n`: no leading zero unless `n` is zero. */
  function Digits(n: nat): (r: string)
    ensures 1 <= |r|
    ensures AllDigits(r)
    ensures Value(r) == n
    ensures r[0] == '0' ==> r == "0"
    decreases n
  {
    if n < 10 then [DigitChar(n)]
    else
      var p := Digits(n / 10);
      assert (p + [DigitChar(n % 10)])[..|p|] == p;
      p + [DigitChar(n % 10)]
  }

  /** `fmt.Sprintf("%0*d", width, n)` for non-negative `n`: the decimal text of
      `n`, left-padded with zeros up to `width` characters, never truncated. */
  function PadZeros(n: nat, width: nat): (r: string)
    ensures AllDigits(r)
    ensures Value(r) == n
    ensures |r| == if |Digits(n)| < width then width else |Digits(n)|
  {
    var d := Digits(n);
    if |d| < width then
      ValueConcat(Zeros(width - |d|), d);
      ValueZeros(width - |d|);
      Zeros(width - |d|) + d
    else d
  }

  lemma {:induction false} ValueZeros(k: nat)
    ensures Value(Zeros(k)) == 0
  {
    if k > 0 {
      assert Zeros(k)[..k - 1] == Zeros(k - 1);
      ValueZeros(k - 1);
    }
  }

  /** Reading a concatenation: the left part is shifted by the right part's width. */
  lemma {:induction false} ValueConcat(a: string, b: string)
    requires AllDigits(a) && AllDigits(b)
    ensures AllDigits(a + b)
    ensures Value(a + b) == Value(a) * Pow10(|b|) + Value(b)
  {
    if |b| == 0 {
      assert a + b == a;
    } else {
      var b' := b[..|b| - 1];
      var d := DigitValue(b[|b| - 1]);
      assert (a + b)[..|a + b| - 1] == a + b';
      assert (a + b)[|a + b| - 1] == b[|b| - 1];
      ValueConcat(a, b');
      assert Value(a + b) == Value(a + b') * 10 + d;
      assert Value(b) == Value(b') * 10 + d;
      assert Pow10(|b|) == Pow10(|b'|) * 10;
      ShiftDistributes(Value(a), Pow10(|b'|), Value(b'), d);
    }
  }

  lemma ShiftDistributes(x: int, p: int, y: int, d: int)
    ensures (x * p + y) * 10 + d == x * (p * 10) + (y * 10 + d)
  {
  }

  /** A string of `k` digits denotes a number below `10^k`. */
  lemma {:induction false} ValueBound(s: string)
    requires AllDigits(s)
    ensures Value(s) < Pow10(|s|)
  {
    if |s| > 0 {
      ValueBound(s[..|s| - 1]);
    }
  }

  /** A number below `10^k` needs at most `k` digits. */
  lemma {:induction false} DigitsLength(n: nat, k: nat)
    requires 1 <= k
    requires n < Pow10(k)
    ensures |Digits(n)| <= k
    decreases n
  {
    if n >= 10 {
      assert Pow10(1) == 10;
      assert k >= 2;
      assert n / 10 < Pow10(k - 1);
      DigitsLength(n / 10, k - 1);
    }
  }

  lemma DivModTen(v: nat, d: nat)
    requires d < 10
    ensures (v * 10 + d) / 10 == v
    ensures (v * 10 + d) % 10 == d
  {
  }

  /** Digit strings of equal width are equal exactly when their values are. */
  lemma {:induction false} ValueInjective(a: string, b: string)
    requires AllDigits(a) && AllDigits(b)
    requires |a| == |b|
    requires Value(a) == Value(b)
    ensures a == b
  {
    if |a| > 0 {
      var a', b' := a[..|a| - 1], b[..|b| - 1];
      var da, db := DigitValue(a[|a| - 1]), DigitValue(b[|b| - 1]);
      DivModTen(Value(a'), da);
      DivModTen(Value(b'), db);
      assert da == db && Value(a') == Value(b') by {
        assert Value(a) == Value(a') * 10 + da;
        assert Value(b) == Value(b') * 10 + db;
      }
      ValueInjective(a', b');
      assert a == a' + [a[|a| - 1]] && b == b' + [b[|b| - 1]];
    }
  }

  /** Padding to a string's own width reproduces it: every digit string of
      width `|s|` is the padded text of exactly its own value. */
  lemma PadZerosOfValue(s: string)
    requires 1 <= |s|
    requires AllDigits(s)
    ensures PadZeros(Value(s), |s|) == s
  {
    ValueBound(s);
    DigitsLength(Value(s), |s|);
    ValueInjective(PadZeros(Value(s), |s|), s);
  }
}
