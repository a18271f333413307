/** Python's `int(s, base)` on the digit strings the lexer hands over, for
    base 8 and base 16, and its inverse, a fixed-width formatter. */
module Digits {
  import opened Syntax

  /** The bases in use: 8 for octal escapes, 16 for hex and Unicode escapes. */
  type Base = b: nat | 2 <= b <= 16 witness 2

  function Pow(b: nat, k: nat): (p: nat)
    ensures b > 0 ==> p > 0
  {
    if k == 0 then 1 else Pow(b, k - 1) * b
  }

  /** A character `int(s, 16)` accepts as a digit, in either case. */
  predicate IsHexDigit(c: char) {
    '0' <= c <= '9' || 'a' <= c <= 'f' || 'A' <= c <= 'F'
  }

  /** The value of one digit; the octal digits are exactly those worth less than 8. */
  function DigitValue(c: char): (d: nat)
    requires IsHexDigit(c)
    ensures d < 16
    ensures '0' <= c <= '7' <==> d < 8
  {
    if '0' <= c <= '9' then c as int - '0' as int
    else if 'a' <= c <= 'f' then c as int - 'a' as int + 10
    else c as int - 'A' as int + 10
  }

  predicate IsDigitOf(c: char, base: Base) {
    IsHexDigit(c) && DigitValue(c) < base
  }

  /** Every character is a digit of `base` (the empty string included). */
  predicate AllDigits(s: seq<char>, base: Base) {
    forall i :: 0 <= i < |s| ==> IsDigitOf(s[i], base)
  }

  /** What `int(s, base)` accepts without raising, restricted to what the lexer
      produces: at least one digit and nothing else (no sign, space or prefix). */
  predicate IsNumeral(s: seq<char>, base: Base) {
    |s| > 0 && AllDigits(s, base)
  }

  /** More digits give a larger power. */
  lemma {:induction false} PowMono(b: nat, m: nat, n: nat)
    requires b >= 1 && m <= n
    ensures Pow(b, m) <= Pow(b, n)
    decreases n
  {
    if m < n {
      PowMono(b, m, n - 1);
      MulMono(1, b, Pow(b, n - 1));
    }
  }

  /** The value of a digit string, most significant digit first; a string of
      `n` digits stays below `base` to the `n`. */
  function Parse(s: seq<char>, base: Base): (n: nat)
    requires AllDigits(s, base)
    ensures n < Pow(base, |s|)
    decreases |s|
  {
    if |s| == 0 then 0
    else
      var init := s[..|s| - 1];
      assert AllDigits(init, base);
      var p := Parse(init, base);
      var d := DigitValue(s[|s| - 1]);
      MulAddBound(p, d, base, Pow(base, |s| - 1));
      p * base + d
  }

  /** `p * b + d` with `p < P` and `d < b` stays below `P * b`. */
  lemma MulAddBound(p: nat, d: nat, b: nat, P: nat)
    requires p < P && d < b
    ensures p * b + d < P * b
  {
    assert p * b <= (P - 1) * b;
  }

  /** The lower-case digit for a value below 16. */
  function DigitChar(d: nat): (c: Byte)
    requires d < 16
    ensures IsHexDigit(c) && DigitValue(c) == d
    ensures !('A' <= c <= 'F')
  {
    if d < 10 then Chr('0' as int + d) else Chr('a' as int + d - 10)
  }

  /** The last `width` digits of `n` in `base`, lower case, zero-padded. */
  function Format(n: nat, base: Base, width: nat): (s: Bytes)
    ensures |s| == width && AllDigits(s, base)
    decreases width
  {
    if width == 0 then []
    else Format(n / base, base, width - 1) + [DigitChar(n % base)]
  }

  /** Formatting to enough digits and parsing back gives the number. */
  lemma {:induction false} ParseFormat(n: nat, base: Base, width: nat)
    requires n < Pow(base, width)
    ensures Parse(Format(n, base, width), base) == n
    decreases width
  {
    if width > 0 {
      var q, r := n / base, n % base;
      var init := Format(q, base, width - 1);
      assert q < Pow(base, width - 1) by { DivBound(n, base, Pow(base, width - 1)); }
      assert Parse(init, base) == q by { ParseFormat(q, base, width - 1); }
      assert Parse(init + [DigitChar(r)], base) == q * base + r by {
        ParseSnoc(init, DigitChar(r), base);
      }
      assert q * base + r == n by { DivMod(n, base); }
    }
  }

  /** Appending a digit multiplies by the base and adds the digit. */
  lemma ParseSnoc(s: seq<char>, c: char, base: Base)
    requires AllDigits(s, base) && IsDigitOf(c, base)
    ensures AllDigits(s + [c], base)
    ensures Parse(s + [c], base) == Parse(s, base) * base + DigitValue(c)
  {
    assert (s + [c])[..|s|] == s;
  }

  /** `n < P * b` puts `n / b` below `P`. */
  lemma DivBound(n: nat, b: nat, P: nat)
    requires b > 0 && n < P * b
    ensures n / b < P
  {
    DivMod(n, b);
    if n / b >= P {
      MulMono(P, n / b, b);
    }
  }

  /** Euclidean division splits a number into quotient and remainder. */
  lemma DivMod(n: nat, b: nat)
    requires b > 0
    ensures n == (n / b) * b + n % b && n % b < b
  {
  }

  /** Multiplying by a non-negative factor keeps the order. */
  lemma MulMono(x: nat, y: nat, b: nat)
    requires x <= y
    ensures x * b <= y * b
  {
  }

  /** Parsing a lower-case digit string and formatting back to its width gives
      the string: `Parse` forgets nothing but letter case. */
  lemma {:induction false} FormatParse(s: seq<char>, base: Base)
    requires AllDigits(s, base)
    requires forall i :: 0 <= i < |s| ==> !('A' <= s[i] <= 'F')
    ensures Format(Parse(s, base), base, |s|) == s
    decreases |s|
  {
    if |s| > 0 {
      var init, last := s[..|s| - 1], s[|s| - 1];
      var n := Parse(s, base);
      assert AllDigits(init, base) && n / base == Parse(init, base) && n % base == DigitValue(last) by {
        ParseDivMod(s, base);
      }
      assert Format(n / base, base, |init|) == init by { FormatParse(init, base); }
      assert DigitChar(n % base) == last by { DigitCharValue(last); }
      assert init + [last] == s;
    }
  }

  /** Dividing the value of a digit string by the base splits off its last digit. */
  lemma ParseDivMod(s: seq<char>, base: Base)
    requires AllDigits(s, base) && |s| > 0
    ensures AllDigits(s[..|s| - 1], base)
    ensures Parse(s, base) / base == Parse(s[..|s| - 1], base)
    ensures Parse(s, base) % base == DigitValue(s[|s| - 1])
  {
    assert AllDigits(s[..|s| - 1], base);
    DivModUnique(Parse(s, base), base, Parse(s[..|s| - 1], base), DigitValue(s[|s| - 1]));
  }

  /** A lower-case digit is the digit of its own value. */
  lemma DigitCharValue(c: char)
    requires IsHexDigit(c) && !('A' <= c <= 'F')
    ensures DigitChar(DigitValue(c)) == c
  {
  }

  /** Euclidean division is unique: `n == q * b + r` with `r < b` fixes both. */
  lemma DivModUnique(n: nat, b: nat, q: nat, r: nat)
    requires b > 0 && r < b && n == q * b + r
    ensures n / b == q && n % b == r
  {
    var q', r' := n / b, n % b;
    DivMod(n, b);
    if q' < q {
      MulMono(q' + 1, q, b);
    } else if q' > q {
      MulMono(q + 1, q', b);
    }
  }

  /** A leading zero does not change the value. */
  lemma {:induction false} LeadingZero(s: seq<char>, base: Base)
    requires AllDigits(s, base)
    ensures AllDigits(['0'] + s, base)
    ensures Parse(['0'] + s, base) == Parse(s, base)
  {
    var z := ['0'] + s;
    assert AllDigits(z, base) by {
      forall i | 0 <= i < |z| ensures IsDigitOf(z[i], base) {
        if i > 0 { assert z[i] == s[i - 1]; }
      }
    }
    if |s| > 0 {
      assert z[..|z| - 1] == ['0'] + s[..|s| - 1];
      LeadingZero(s[..|s| - 1], base);
    }
  }

  /** Three digit strings from escapes in the wild: `377` and `400` in base 8,
      `41` in base 16. */
  lemma ParseExamples()
    ensures AllDigits("377", 8) && Parse("377", 8) == 255
    ensures AllDigits("400", 8) && Parse("400", 8) == 256
    ensures AllDigits("41", 16) && Parse("41", 16) == 65
  {
    ParseThreeDigits('3', '7', '7', 8);
    ParseThreeDigits('4', '0', '0', 8);
    ParseSnoc("4", '1', 16);
    assert "4" + ['1'] == "41";
  }

  lemma ParseThreeDigits(a: char, b: char, c: char, base: Base)
    requires IsDigitOf(a, base) && IsDigitOf(b, base) && IsDigitOf(c, base)
    ensures AllDigits([a, b, c], base)
    ensures Parse([a, b, c], base) == (DigitValue(a) * base + DigitValue(b)) * base + DigitValue(c)
  {
    ParseSnoc([a], b, base);
    assert [a] + [b] == [a, b];
    ParseSnoc([a, b], c, base);
    assert [a, b] + [c] == [a, b, c];
  }
}
