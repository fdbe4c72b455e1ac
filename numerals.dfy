/** Numbers written as text: `int(s, base)` reads them and `hex(n)` / `str(n)`,
    with the `0x` prefix removed and upper-cased, write them. */
module Numerals {
  import opened Text

  /** A character `int(s, 16)` accepts as a digit, in either case. */
  predicate IsHexDigit(c: char) {
    '0' <= c <= '9' || 'a' <= c <= 'f' || 'A' <= c <= 'F'
  }

  function DigitValue(c: char): (d: nat)
    requires IsHexDigit(c)
    ensures d < 16
    ensures d == 0 <==> c == '0'
  {
    if '0' <= c <= '9' then c as int - '0' as int
    else if 'a' <= c <= 'f' then c as int - 'a' as int + 10
    else c as int - 'A' as int + 10
  }

  /** The upper-case digit for `d`, as `hex(n).upper()` writes it. */
  function DigitChar(d: nat): (c: char)
    requires d < 16
    ensures IsHexDigit(c) && DigitValue(c) == d
    ensures !('a' <= c <= 'f')
  {
    if d < 10 then ('0' as int + d) as char else ('A' as int + d - 10) as char
  }

  /** `c` is a digit below `base`. */
  predicate IsDigit(c: char, base: nat) {
    IsHexDigit(c) && DigitValue(c) < base
  }

  /** Every character is a digit below `base`; stated from the last character
      back, the order in which `Value` reads them. */
  predicate AllDigits(s: string, base: nat) {
    |s| == 0 || (AllDigits(s[..|s| - 1], base) && IsDigit(s[|s| - 1], base))
  }

  /** `AllDigits` says the same of every position. */
  lemma {:induction false} AllDigitsAt(s: string, base: nat)
    ensures AllDigits(s, base) <==> forall i :: 0 <= i < |s| ==> IsDigit(s[i], base)
  {
    if |s| > 0 {
      AllDigitsAt(s[..|s| - 1], base);
    }
  }

  /** Any piece of digit text is digit text. */
  lemma AllDigitsSlice(s: string, lo: nat, hi: nat, base: nat)
    requires lo <= hi <= |s| && AllDigits(s, base)
    ensures AllDigits(s[lo..hi], base)
  {
    AllDigitsAt(s, base);
    AllDigitsAt(s[lo..hi], base);
  }

  /** Both parts of a run of digits are runs of digits. */
  lemma AllDigitsParts(a: string, b: string, base: nat)
    requires AllDigits(a + b, base)
    ensures AllDigits(a, base) && AllDigits(b, base)
  {
    AllDigitsAt(a + b, base);
    AllDigitsAt(a, base);
    AllDigitsAt(b, base);
    forall i | 0 <= i < |a|
      ensures IsDigit(a[i], base)
    {
      assert (a + b)[i] == a[i];
    }
    forall i | 0 <= i < |b|
      ensures IsDigit(b[i], base)
    {
      assert (a + b)[|a| + i] == b[i];
    }
  }

  /** No lower-case hex letter, stated from the last character back. */
  predicate NoLowerCase(s: string) {
    |s| == 0 || (NoLowerCase(s[..|s| - 1]) && !('a' <= s[|s| - 1] <= 'f'))
  }

  /** Text that `int(s, base)` reads without raising: at least one digit, nothing else. */
  predicate IsNumeral(s: string, base: nat) {
    |s| > 0 && AllDigits(s, base)
  }

  /** The form `hex()` and `str()` produce once prefix-stripped and upper-cased:
      no leading zero except in "0" itself, no lower-case letter. */
  predicate IsCanonical(s: string, base: nat) {
    IsNumeral(s, base) && (s[0] == '0' ==> |s| == 1) && NoLowerCase(s)
  }

  function Pow(b: nat, k: nat): (p: nat)
    ensures b > 0 ==> p > 0
  {
    if k == 0 then 1 else b * Pow(b, k - 1)
  }

  /** `int(s, base)`: the most significant digit first. */
  function Value(s: string, base: nat): nat
    requires AllDigits(s, base)
  {
    if |s| == 0 then 0
    else
      var high := Value(s[..|s| - 1], base);
      assert high * base >= 0;
      high * base + DigitValue(s[|s| - 1])
  }

  lemma DivMod(n: nat, base: nat)
    requires base >= 2
    ensures n == (n / base) * base + n % base && n % base < base
    ensures n >= base ==> 0 < n / base < n
  {
  }

  /** Quotient and remainder are the only way to write `n` as `q * base + r`. */
  lemma Unique(n: nat, base: nat, q: nat, r: nat)
    requires base >= 2 && n == q * base + r && r < base
    ensures n / base == q && n % base == r
  {
    DivMod(n, base);
    var q' := n / base;
    if q' < q {
      ScaleBelow(q', q, base, n % base);
    } else if q < q' {
      ScaleBelow(q, q', base, r);
    }
  }

  lemma MulAtLeast(a: nat, b: nat)
    requires a > 0
    ensures a * b >= b
  {
  }

  /** One more digit below `base` keeps a value below the next power. */
  lemma ScaleBelow(a: nat, p: nat, b: nat, d: nat)
    requires a < p && d < b
    ensures a * b + d < p * b
  {
    MulAtLeast(p - a, b);
    assert p * b == a * b + (p - a) * b;
  }

  /** `hex(n)[2:].upper()` for base 16 and `str(n)` for base 10: the shortest
      upper-case digits of `n`. */
  function Render(n: nat, base: nat): (r: string)
    requires 2 <= base <= 16
    ensures IsCanonical(r, base) && Value(r, base) == n
    decreases n
  {
    DivMod(n, base);
    if n < base then [DigitChar(n)]
    else
      var r := Render(n / base, base) + [DigitChar(n % base)];
      assert r[..|r| - 1] == Render(n / base, base);
      r
  }

  /** A digit sequence whose first digit is not zero has a positive value. */
  lemma {:induction false} LeadingDigitPositive(s: string, base: nat)
    requires 2 <= base && IsNumeral(s, base) && s[0] != '0'
    ensures Value(s, base) > 0
  {
    if |s| > 1 {
      var p := s[..|s| - 1];
      LeadingDigitPositive(p, base);
      MulAtLeast(Value(p, base), base);
    }
  }

  /** An upper-case digit is the one `DigitChar` writes for its value. */
  lemma DigitCharValue(c: char)
    requires IsHexDigit(c) && !('a' <= c <= 'f')
    ensures DigitChar(DigitValue(c)) == c
  {
  }

  /** Canonical text is exactly what `Render` writes for its value. */
  lemma {:induction false} RenderValue(s: string, base: nat)
    requires 2 <= base <= 16 && IsCanonical(s, base)
    ensures Render(Value(s, base), base) == s
  {
    if |s| == 1 {
      RenderDigit(s, base);
    } else {
      var p := s[..|s| - 1];
      assert p[0] == s[0];
      RenderValue(p, base);
      RenderStep(s, base);
    }
  }

  lemma RenderDigit(s: string, base: nat)
    requires 2 <= base <= 16 && IsCanonical(s, base) && |s| == 1
    ensures Render(Value(s, base), base) == s
  {
    var last := s[0];
    assert s[..0] == [];
    assert IsDigit(last, base) && !('a' <= last <= 'f');
    DigitCharValue(last);
    assert Value(s, base) == DigitValue(last);
  }

  /** One more digit: `Render` of the longer text's value appends that digit. */
  lemma RenderStep(s: string, base: nat)
    requires 2 <= base <= 16 && IsCanonical(s, base) && |s| > 1
    requires IsCanonical(s[..|s| - 1], base)
    requires Render(Value(s[..|s| - 1], base), base) == s[..|s| - 1]
    ensures Render(Value(s, base), base) == s
  {
    var last, p := s[|s| - 1], s[..|s| - 1];
    assert IsDigit(last, base) && !('a' <= last <= 'f');
    DigitCharValue(last);
    var v, d, w := Value(s, base), DigitValue(last), Value(p, base);
    assert v == w * base + d;
    LeadingDigitPositive(p, base);
    MulAtLeast(w, base);
    Unique(v, base, w, d);
    assert s == p + [last];
  }

  /** Splitting text splits its value: the left part is scaled by the width of the right. */
  lemma {:induction false} ValueAppend(a: string, b: string, base: nat)
    requires AllDigits(a, base) && AllDigits(b, base)
    ensures AllDigits(a + b, base)
    ensures Value(a + b, base) == Value(a, base) * Pow(base, |b|) + Value(b, base)
    decreases |b|
  {
    if |b| == 0 {
      assert a + b == a;
    } else {
      var b' := b[..|b| - 1];
      ValueAppend(a, b', base);
      assert (a + b)[..|a + b| - 1] == a + b';
      var x, p, v, d := Value(a, base), Pow(base, |b'|), Value(b', base), DigitValue(b[|b| - 1]);
      assert Value(a + b, base) == (x * p + v) * base + d;
      Regroup(x, p, v, base, d);
      assert Pow(base, |b|) == base * p;
    }
  }

  lemma Regroup(x: nat, p: nat, v: nat, b: nat, d: nat)
    ensures (x * p + v) * b + d == x * (b * p) + (v * b + d)
  {
    assert (x * p + v) * b == x * p * b + v * b;
    assert x * p * b == x * (b * p);
  }

  /** `n` digits in `base` hold a value below `base` to the `n`. */
  lemma {:induction false} ValueBound(s: string, base: nat)
    requires AllDigits(s, base)
    ensures Value(s, base) < Pow(base, |s|)
  {
    if |s| > 0 {
      var p := s[..|s| - 1];
      ValueBound(p, base);
      var v, q, d := Value(p, base), Pow(base, |p|), DigitValue(s[|s| - 1]);
      assert IsDigit(s[|s| - 1], base);
      ScaleBelow(v, q, base, d);
      assert Value(s, base) == v * base + d;
      assert Pow(base, |s|) == base * q;
      assert q * base == base * q;
    }
  }

  lemma ByteDigits(n: nat)
    ensures n % 256 == (n / 16) % 16 * 16 + n % 16
  {
  }

  /** The last two hex digits of `n` are its two lowest nibbles. */
  lemma {:induction false} LastTwoDigits(n: nat)
    requires n >= 16
    ensures LastTwo(Render(n, 16)) == [DigitChar((n / 16) % 16), DigitChar(n % 16)]
  {
    var high := Render(n / 16, 16);
    assert high[|high| - 1] == DigitChar((n / 16) % 16) by {
      if n / 16 >= 16 {
        assert high == Render(n / 256, 16) + [DigitChar((n / 16) % 16)] by {
          assert n / 16 / 16 == n / 256;
        }
      }
    }
  }

  /** `hex(n)[-2:]` has the value of the low byte of `n`. */
  lemma LastTwoOfRender(n: nat)
    ensures AllDigits(LastTwo(Render(n, 16)), 16)
    ensures Value(LastTwo(Render(n, 16)), 16) == n % 256
  {
    ByteDigits(n);
    if n >= 16 {
      LastTwoDigits(n);
      var t := LastTwo(Render(n, 16));
      assert t[..1] == [DigitChar((n / 16) % 16)];
      assert Value(t[..1], 16) == (n / 16) % 16 by {
        assert t[..1][..0] == [];
      }
    }
  }

  /** `hex(n)[-2:] == "FF"` exactly when the low byte of `n` is 0xFF. */
  lemma LastTwoIsFF(n: nat)
    ensures LastTwo(Render(n, 16)) == "FF" <==> n % 256 == 0xFF
  {
    ByteDigits(n);
    if n >= 16 {
      LastTwoDigits(n);
      assert DigitChar(15) == 'F';
      if LastTwo(Render(n, 16)) == "FF" {
        assert DigitValue(DigitChar((n / 16) % 16)) == DigitValue('F');
        assert DigitValue(DigitChar(n % 16)) == DigitValue('F');
      }
    }
  }
}
