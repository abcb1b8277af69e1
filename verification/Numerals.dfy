/** Numbers written in a base from 2 to 36, as itoa writes them. */
module Numerals {
  import opened Arithmetic

  predicate Base(b: nat) { 2 <= b <= 36 }

  function Digit(d: nat): char
    requires d < 36
  {
    if d > 9 then 'a' + (d - 10) as char else '0' + d as char
  }

  /** The value of a digit; 36 stands for "not a digit". */
  function DigitValue(c: char): nat {
    if '0' <= c <= '9' then c as int - '0' as int
    else if 'a' <= c <= 'z' then c as int - 'a' as int + 10
    else 36
  }

  predicate Numeral(s: string, base: nat) {
    forall c :: c in s ==> DigitValue(c) < base
  }

  /** A numeral without superfluous leading zeros. */
  predicate Canonical(s: string, base: nat) {
    Numeral(s, base) && s != "" && (s[0] != '0' || |s| == 1)
  }

  lemma QuotientBounds(q: int, r: nat, base: nat)
    requires 2 <= base && r < base <= q * base + r
    ensures 1 <= q < q * base + r
  {
    assert q <= 0 ==> q * base <= 0;
    assert q >= 1 ==> q * (base - 2) >= 0;
  }

  lemma Quotient(n: nat, base: nat)
    requires Base(base) && base <= n
    ensures 1 <= n / base < n
  {
    QuotientBounds(n / base, n % base, base);
  }

  /** The digits of n, most significant first. */
  function Render(n: nat, base: nat): (s: string)
    requires Base(base)
    ensures 1 <= |s|
    decreases n
  {
    if n < base then [Digit(n)]
    else
      Quotient(n, base);
      Render(n / base, base) + [Digit(n % base)]
  }

  /** The number that a string of digits denotes. */
  function Parse(s: string, base: nat): nat {
    if s == "" then 0 else Parse(s[..|s| - 1], base) * base + DigitValue(s[|s| - 1])
  }

  function Pow(b: nat, e: nat): nat {
    if e == 0 then 1 else b * Pow(b, e - 1)
  }

  /** The digits are 0 to 9 and then the lower-case letters. */
  lemma DigitsAre(d: nat)
    requires d < 36
    ensures Digit(d) == "0123456789abcdefghijklmnopqrstuvwxyz"[d]
  {
  }

  lemma DigitRoundTrip(d: nat)
    requires d < 36
    ensures DigitValue(Digit(d)) == d && Digit(d) != '\0' && Digit(d) != '%'
  {
  }

  lemma ValueRoundTrip(c: char)
    requires DigitValue(c) < 36
    ensures Digit(DigitValue(c)) == c
  {
  }

  lemma {:induction false} ParseAppend(s: string, c: char, base: nat)
    ensures Parse(s + [c], base) == Parse(s, base) * base + DigitValue(c)
  {
    assert (s + [c])[..|s|] == s;
  }

  lemma DivSplit(n: nat, d: nat)
    requires 0 < d
    ensures n / d * d + n % d == n && n % d < d
  {
  }

  lemma {:induction false} RenderNumeral(n: nat, base: nat)
    requires Base(base)
    ensures Numeral(Render(n, base), base)
    decreases n
  {
    DigitRoundTrip(if n < base then n else n % base);
    if n >= base {
      Quotient(n, base);
      RenderNumeral(n / base, base);
    }
  }

  lemma {:induction false} ParseDigit(d: nat, base: nat)
    requires d < 36
    ensures Parse([Digit(d)], base) == d
  {
    hide Digit, DigitValue;
    DigitRoundTrip(d);
    ParseAppend("", Digit(d), base);
    assert "" + [Digit(d)] == [Digit(d)] && Parse("", base) * base == 0;
  }

  /** The last digit and those before it. */
  lemma {:induction false} RenderLast(n: nat, base: nat)
    requires Base(base)
    ensures n < base ==> Render(n, base) == [Digit(n)]
    ensures base <= n ==>
      0 <= n / base < n && n % base < base && n == n / base * base + n % base
      && Render(n, base) == Render(n / base, base) + [Digit(n % base)]
  {
    hide Digit;
    DivSplit(n, base);
    if base <= n {
      Quotient(n, base);
    }
  }

  /** Parsing what was rendered gives the number back. */
  lemma {:induction false} ParseRender(n: nat, base: nat)
    requires Base(base)
    ensures Parse(Render(n, base), base) == n
    decreases n
  {
    hide Render, Parse, Digit, DigitValue;
    RenderLast(n, base);
    if n < base {
      ParseDigit(n, base);
    } else {
      ParseRender(n / base, base);
      DigitRoundTrip(n % base);
      ParseAppend(Render(n / base, base), Digit(n % base), base);
    }
  }

  /** Rendering what was parsed gives the digits back, unless they began with a superfluous zero. */
  lemma {:induction false} RenderParse(s: string, base: nat)
    requires Base(base) && Canonical(s, base)
    ensures Render(Parse(s, base), base) == s
  {
    var last := |s| - 1;
    var t, c := s[..last], s[last];
    assert s == t + [c] && c in s;
    if t == "" {
      SingleDigit(c, base);
    } else {
      assert Canonical(t, base) && t[0] != '0';
      hide *;
      RenderParse(t, base);
      NoLeadingZero(Parse(t, base), base);
      RenderStep(t, c, base);
    }
  }

  lemma {:induction false} SingleDigit(c: char, base: nat)
    requires Base(base) && DigitValue(c) < base
    ensures Render(Parse([c], base), base) == [c]
  {
    hide Digit, DigitValue, Pow;
    ValueRoundTrip(c);
    assert [c][..0] == "";
    assert Parse([c], base) == Parse("", base) * base + DigitValue(c);
    assert Parse("", base) * base == 0;
  }

  lemma {:induction false} RenderStep(t: string, c: char, base: nat)
    requires Base(base) && Numeral(t + [c], base) && 1 <= Parse(t, base)
    ensures Render(Parse(t + [c], base), base) == Render(Parse(t, base), base) + [c]
  {
    assert (t + [c])[|t|] == c;
    ParseAppend(t, c, base);
    ValueRoundTrip(c);
    RenderSplit(Parse(t, base), DigitValue(c), base);
  }

  lemma RenderSplit(q: nat, r: nat, base: nat)
    requires Base(base) && r < base && 1 <= q
    ensures Render(q * base + r, base) == Render(q, base) + [Digit(r)]
  {
    hide Digit;
    DivMod(q, base, r);
    ProductAtLeast(q, base);
  }

  /** The digit count is the least d >= 1 with n < base^d. */
  lemma {:induction false} LengthExact(n: nat, base: nat, d: nat)
    requires Base(base) && 1 <= d
    ensures |Render(n, base)| <= d <==> n < Pow(base, d)
    decreases n
  {
    hide Digit, Pow, Base;
    BaseBounds(base);
    PowStep(base, d - 1);
    if n < base {
      ProductAtLeast(Pow(base, d - 1), base);
    } else {
      Quotient(n, base);
      QuotientBelow(n, base, Pow(base, d - 1));
      if d > 1 {
        LengthExact(n / base, base, d - 1);
      } else {
        PowZero(base);
        RenderNotEmpty(n / base, base);
      }
    }
  }

  lemma BaseBounds(base: nat)
    requires Base(base)
    ensures 2 <= base
  {
  }

  lemma {:induction false} RenderNotEmpty(n: nat, base: nat)
    requires Base(base)
    ensures 1 <= |Render(n, base)|
  {
  }

  lemma {:induction false} PowZero(b: nat)
    ensures Pow(b, 0) == 1
  {
  }

  lemma PowStep(b: nat, e: nat)
    requires 1 <= b
    ensures Pow(b, e + 1) == b * Pow(b, e) == Pow(b, e) * b && 1 <= Pow(b, e)
  {
    PowPositive(b, e);
  }

  lemma {:induction false} PowPositive(b: nat, e: nat)
    requires 1 <= b
    ensures 1 <= Pow(b, e)
  {
    if e > 0 {
      PowPositive(b, e - 1);
      ProductAtLeast(b, Pow(b, e - 1));
    }
  }

  lemma QuotientBelow(n: nat, b: nat, p: nat)
    requires 0 < b
    ensures n / b < p <==> n < b * p
  {
    var q, r := Euclid(n, b);
    if q < p {
      MulMonotonic(b, q + 1, p);
    } else {
      MulMonotonic(b, p, q);
    }
  }

  /** A 64-bit number has at most 20 digits in base 10 and 16 in base 16. */
  lemma {:induction false} WordDigits(n: nat)
    requires n < 0x1_0000_0000_0000_0000
    ensures |Render(n, 10)| <= 20 && |Render(n, 16)| <= 16
  {
    assert Pow(10, 5) == 100000;
    PowAdd(10, 5, 5);
    PowAdd(10, 10, 10);
    assert Pow(16, 4) == 0x1_0000;
    PowAdd(16, 4, 4);
    PowAdd(16, 8, 8);
    LengthExact(n, 10, 20);
    LengthExact(n, 16, 16);
  }

  lemma PowAdd(b: nat, d: nat, e: nat)
    ensures Pow(b, d + e) == Pow(b, d) * Pow(b, e)
  {
    if d > 0 {
      PowAdd(b, d - 1, e);
      MulAssociative(b, Pow(b, d - 1), Pow(b, e));
    }
  }

  /** No leading zero, except in "0". */
  lemma {:induction false} NoLeadingZero(n: nat, base: nat)
    requires Base(base)
    ensures Render(n, base)[0] == '0' <==> n == 0
    decreases n
  {
    if n < base {
    } else {
      Quotient(n, base);
      NoLeadingZero(n / base, base);
    }
  }

  /** The rendering of n is the one canonical numeral that denotes n. */
  lemma {:induction false} RenderExact(n: nat, s: string, base: nat)
    requires Base(base)
    ensures Canonical(s, base) && Parse(s, base) == n <==> s == Render(n, base)
  {
    hide Parse, Numeral;
    ParseRender(n, base);
    RenderNumeral(n, base);
    NoLeadingZero(n, base);
    if Canonical(s, base) && Parse(s, base) == n {
      RenderParse(s, base);
    }
  }
}
