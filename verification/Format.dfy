/** What a printf format and its arguments render to. */
module Format {
  import opened Words
  import opened Numerals
  import opened Stdlib

  /** A variadic argument: a pointer to a C string, or a 64-bit number. */
  datatype Arg = Str(bytes: seq<char>) | Num(n: Word)

  /** The conversions that take an argument. */
  predicate Directive(c: char) { c == 's' || c == 'd' || c == 'p' }

  predicate Accepts(c: char, a: Arg) {
    if c == 's' then a.Str? && '\0' in a.bytes else a.Num?
  }

  function Emitted(c: char, a: Arg): string
    requires Directive(c) && Accepts(c, a)
  {
    match c
    case 's' => Text(a.bytes)
    case 'd' => Render(a.n, 10)
    case _ => Render(a.n, 16)
  }

  /** Every conversion that takes an argument finds one of its kind. */
  predicate Supplied(fmt: string, args: seq<Arg>) {
    if fmt == "" then true
    else if fmt[0] != '%' then Supplied(fmt[1..], args)
    else if |fmt| == 1 then true
    else if Directive(fmt[1]) then args != [] && Accepts(fmt[1], args[0]) && Supplied(fmt[2..], args[1..])
    else Supplied(fmt[2..], args)
  }

  /** The text: %s, %d and %p consume one argument each; any other conversion and a trailing % emit nothing. */
  function Rendering(fmt: string, args: seq<Arg>): string
    requires Supplied(fmt, args)
  {
    if fmt == "" then ""
    else if fmt[0] != '%' then [fmt[0]] + Rendering(fmt[1..], args)
    else if |fmt| == 1 then ""
    else if Directive(fmt[1]) then Emitted(fmt[1], args[0]) + Rendering(fmt[2..], args[1..])
    else Rendering(fmt[2..], args)
  }

  /** The number of arguments a format consumes. */
  function Consumed(fmt: string): nat {
    if fmt == "" then 0
    else if fmt[0] != '%' then Consumed(fmt[1..])
    else if |fmt| == 1 then 0
    else (if Directive(fmt[1]) then 1 else 0) + Consumed(fmt[2..])
  }

  /** The format does not end inside a conversion. */
  predicate Complete(fmt: string) {
    if fmt == "" then true
    else if fmt[0] != '%' then Complete(fmt[1..])
    else |fmt| > 1 && Complete(fmt[2..])
  }

  lemma SlicePast<T>(s: seq<T>, k: nat)
    requires k < |s|
    ensures s[1..][..k] == s[..k + 1][1..] && s[1..][k..] == s[k + 1..]
  {
  }

  /** A complete format renders independently of what follows it, from the arguments it consumes. */
  lemma {:induction false} RenderingAppend(a: string, b: string, args: seq<Arg>)
    requires Complete(a) && Supplied(a + b, args)
    ensures Consumed(a) <= |args| && Supplied(a, args[..Consumed(a)]) && Supplied(b, args[Consumed(a)..])
    ensures Rendering(a + b, args) == Rendering(a, args[..Consumed(a)]) + Rendering(b, args[Consumed(a)..])
  {
    hide Emitted, Accepts, Directive;
    if a == "" {
      assert a + b == b;
    } else if a[0] != '%' {
      assert (a + b)[1..] == a[1..] + b;
      RenderingAppend(a[1..], b, args);
    } else {
      assert (a + b)[2..] == a[2..] + b && (a + b)[1] == a[1];
      if Directive(a[1]) {
        var k := Consumed(a[2..]);
        RenderingAppend(a[2..], b, args[1..]);
        SlicePast(args, k);
      } else {
        RenderingAppend(a[2..], b, args);
      }
    }
  }

  // ---------------------------------------------------------------- what the conversions print

  /** Text without per cent signs is printed as it is and needs no argument. */
  lemma {:induction false} PlainText(fmt: string, args: seq<Arg>)
    requires '%' !in fmt
    ensures Complete(fmt) && Consumed(fmt) == 0 && Supplied(fmt, args) && Rendering(fmt, args) == fmt
  {
    if fmt != "" {
      PlainText(fmt[1..], args);
    }
  }

  lemma FormatSplit(a: string, r: string)
    ensures a == "" ==> a + r == r
    ensures |a| >= 1 ==> (a + r)[1..] == a[1..] + r && (a + r)[0] == a[0]
    ensures |a| >= 2 ==> (a + r)[2..] == a[2..] + r && (a + r)[1] == a[1]
  {
  }

  /** A complete format with its arguments, and then another one with its own. */
  lemma {:induction false} Join(a: string, x: seq<Arg>, r: string, z: seq<Arg>)
    requires Complete(a) && Supplied(a, x) && Consumed(a) == |x| && Supplied(r, z)
    ensures Supplied(a + r, x + z) && Rendering(a + r, x + z) == Rendering(a, x) + Rendering(r, z)
    ensures Complete(r) ==> Complete(a + r) && Consumed(a + r) == Consumed(a) + Consumed(r)
  {
    hide Emitted, Accepts, Directive;
    FormatSplit(a, r);
    if a == "" {
      assert x + z == z;
    } else if a[0] != '%' {
      Join(a[1..], x, r, z);
    } else if Directive(a[1]) {
      Join(a[2..], x[1..], r, z);
      assert (x + z)[1..] == x[1..] + z;
    } else {
      Join(a[2..], x, r, z);
    }
  }

  /** A conversion and what follows it. */
  lemma {:induction false} ConversionStep(c: char, b: string, arg: Arg, y: seq<Arg>)
    requires Supplied(b, y)
    ensures Directive(c) && Accepts(c, arg) ==>
      Supplied(['%', c] + b, [arg] + y) && Rendering(['%', c] + b, [arg] + y) == Emitted(c, arg) + Rendering(b, y)
    ensures !Directive(c) ==> Supplied(['%', c] + b, y) && Rendering(['%', c] + b, y) == Rendering(b, y)
    ensures Complete(b) ==>
      Complete(['%', c] + b) && Consumed(['%', c] + b) == Consumed(b) + if Directive(c) then 1 else 0
  {
    hide Emitted, Accepts, Directive;
    assert (['%', c] + b)[2..] == b && ([arg] + y)[1..] == y;
  }

  /** Numbers are written as the canonical numeral of their value. */
  lemma EmittedNumber(c: char, n: Word)
    ensures c == 'd' ==> Canonical(Emitted(c, Num(n)), 10) && Parse(Emitted(c, Num(n)), 10) == n
    ensures c == 'p' ==> Canonical(Emitted(c, Num(n)), 16) && Parse(Emitted(c, Num(n)), 16) == n
  {
    hide Render, Parse, Canonical;
    RenderExact(n, Render(n, 10), 10);
    RenderExact(n, Render(n, 16), 16);
  }

  /** At any place of a format, %s prints the text of its argument, the one after those of the conversions before it. */
  lemma {:induction false} StringConversion(a: string, b: string, x: seq<Arg>, bytes: seq<char>, y: seq<Arg>)
    requires Complete(a) && Supplied(a, x) && Consumed(a) == |x| && Supplied(b, y) && '\0' in bytes
    ensures Supplied(a + ("%s" + b), x + ([Str(bytes)] + y))
    ensures Rendering(a + ("%s" + b), x + ([Str(bytes)] + y)) == Rendering(a, x) + (Text(bytes) + Rendering(b, y))
  {
    hide Rendering, Supplied, Complete, Consumed, Text;
    ConversionStep('s', b, Str(bytes), y);
    assert ['%', 's'] == "%s";
    Join(a, x, "%s" + b, [Str(bytes)] + y);
  }

  /** Likewise %d prints the one canonical string of digits that denotes its argument in base 10. */
  lemma DecimalConversion(a: string, b: string, x: seq<Arg>, n: Word, y: seq<Arg>) returns (s: string)
    requires Complete(a) && Supplied(a, x) && Consumed(a) == |x| && Supplied(b, y)
    ensures Canonical(s, 10) && Parse(s, 10) == n
    ensures Supplied(a + ("%d" + b), x + ([Num(n)] + y))
    ensures Rendering(a + ("%d" + b), x + ([Num(n)] + y)) == Rendering(a, x) + (s + Rendering(b, y))
  {
    hide Rendering, Supplied, Complete, Consumed, Canonical, Parse, Emitted;
    s := Emitted('d', Num(n));
    EmittedNumber('d', n);
    ConversionStep('d', b, Num(n), y);
    assert ['%', 'd'] == "%d";
    Join(a, x, "%d" + b, [Num(n)] + y);
  }

  /** And %p the one in base 16. */
  lemma HexConversion(a: string, b: string, x: seq<Arg>, n: Word, y: seq<Arg>) returns (s: string)
    requires Complete(a) && Supplied(a, x) && Consumed(a) == |x| && Supplied(b, y)
    ensures Canonical(s, 16) && Parse(s, 16) == n
    ensures Supplied(a + ("%p" + b), x + ([Num(n)] + y))
    ensures Rendering(a + ("%p" + b), x + ([Num(n)] + y)) == Rendering(a, x) + (s + Rendering(b, y))
  {
    hide Rendering, Supplied, Complete, Consumed, Canonical, Parse, Emitted;
    s := Emitted('p', Num(n));
    EmittedNumber('p', n);
    ConversionStep('p', b, Num(n), y);
    assert ['%', 'p'] == "%p";
    Join(a, x, "%p" + b, [Num(n)] + y);
  }

  /** Any other character after a per cent sign is dropped with it and takes no argument. */
  lemma {:induction false} OtherConversion(a: string, c: char, b: string, x: seq<Arg>, y: seq<Arg>)
    requires Complete(a) && Supplied(a, x) && Consumed(a) == |x| && Supplied(b, y)
    requires c != 's' && c != 'd' && c != 'p'
    ensures Supplied(a + (['%', c] + b), x + y)
    ensures Rendering(a + (['%', c] + b), x + y) == Rendering(a, x) + Rendering(b, y)
  {
    hide Rendering, Supplied, Complete, Consumed;
    ConversionStep(c, b, Num(0), y);
    Join(a, x, ['%', c] + b, y);
  }

  /** A per cent sign at the end is dropped. */
  lemma {:induction false} TrailingPercent(a: string, x: seq<Arg>)
    requires Complete(a) && Supplied(a, x) && Consumed(a) == |x|
    ensures Supplied(a + "%", x) && Rendering(a + "%", x) == Rendering(a, x)
  {
    assert Rendering("%", []) == "";
    Join(a, x, "%", []);
    assert x + [] == x;
  }

  lemma Numerals255()
    ensures Render(255, 10) == "255" && Render(255, 16) == "ff"
  {
    assert Render(2, 10) == "2" && Render(25, 10) == "25" && Render(15, 16) == "f";
  }

  /** A line of the boot messages, and the same with the number as a pointer. */
  lemma CounterLine()
    ensures Supplied("HPET counter : %d \n", [Num(255)]) && Supplied("HPET counter : %p \n", [Num(255)])
    ensures Rendering("HPET counter : %d \n", [Num(255)]) == "HPET counter : 255 \n"
    ensures Rendering("HPET counter : %p \n", [Num(255)]) == "HPET counter : ff \n"
  {
    hide Rendering, Supplied, Complete, Consumed, Render, Parse, Canonical;
    var a, b := "HPET counter : ", " \n";
    PlainText(a, []);
    PlainText(b, []);
    Numerals255();
    var s := DecimalConversion(a, b, [], 255, []);
    RenderExact(255, s, 10);
    var t := HexConversion(a, b, [], 255, []);
    RenderExact(255, t, 16);
    assert [] + ([Num(255)] + []) == [Num(255)];
    assert a + ("%d" + b) == "HPET counter : %d \n" && a + ("%p" + b) == "HPET counter : %p \n";
    assert a + ("255" + b) == "HPET counter : 255 \n" && a + ("ff" + b) == "HPET counter : ff \n";
  }

  /** No format can print a per cent sign: one appears only if a %s argument holds it. */
  lemma {:induction false} NoPercent(fmt: string, args: seq<Arg>)
    requires Supplied(fmt, args)
    requires forall a :: a in args && a.Str? ==> '%' !in Text(a.bytes)
    ensures '%' !in Rendering(fmt, args)
    decreases |fmt|
  {
    if fmt == "" {
    } else if fmt[0] != '%' {
      NoPercent(fmt[1..], args);
    } else if |fmt| > 1 {
      if Directive(fmt[1]) {
        NoPercent(fmt[2..], args[1..]);
        EmittedChars(fmt[1], args[0]);
      } else {
        NoPercent(fmt[2..], args);
      }
    }
  }

  /** Numbers render without NUL or per cent sign, and strings without NUL. */
  lemma EmittedChars(c: char, a: Arg)
    requires Directive(c) && Accepts(c, a)
    ensures '\0' !in Emitted(c, a) && (a.Num? ==> '%' !in Emitted(c, a))
  {
    if a.Num? {
      RenderChars(a.n, 10);
      RenderChars(a.n, 16);
    }
  }

  lemma {:induction false} RenderChars(n: nat, base: nat)
    requires Base(base)
    ensures '\0' !in Render(n, base) && '%' !in Render(n, base)
    decreases n
  {
    DigitRoundTrip(if n < base then n else n % base);
    if n >= base {
      Quotient(n, base);
      RenderChars(n / base, base);
    }
  }

  lemma {:induction false} RenderingHasNoNul(fmt: string, args: seq<Arg>)
    requires Supplied(fmt, args) && '\0' !in fmt
    ensures '\0' !in Rendering(fmt, args)
    decreases |fmt|
  {
    if fmt == "" {
    } else if fmt[0] != '%' {
      RenderingHasNoNul(fmt[1..], args);
    } else if |fmt| > 1 {
      if Directive(fmt[1]) {
        RenderingHasNoNul(fmt[2..], args[1..]);
        EmittedChars(fmt[1], args[0]);
      } else {
        RenderingHasNoNul(fmt[2..], args);
      }
    }
  }

  /** What the two-state loop has still to render: a pending % and the rest of the format. */
  function Pending(isPercent: bool, rest: string): string {
    if isPercent then "%" + rest else rest
  }

  lemma {:induction false} PendingStep(isPercent: bool, rest: string, args: seq<Arg>)
    requires rest != "" && Supplied(Pending(isPercent, rest), args)
    ensures !isPercent && rest[0] != '%' ==> Supplied(Pending(false, rest[1..]), args)
    ensures !isPercent && rest[0] != '%' ==>
      Rendering(Pending(isPercent, rest), args) == [rest[0]] + Rendering(Pending(false, rest[1..]), args)
    ensures !isPercent && rest[0] == '%' ==> Pending(true, rest[1..]) == Pending(isPercent, rest)
    ensures isPercent && Directive(rest[0]) ==>
      args != [] && Accepts(rest[0], args[0]) && Supplied(Pending(false, rest[1..]), args[1..])
    ensures isPercent && Directive(rest[0]) ==>
      Rendering(Pending(isPercent, rest), args)
        == Emitted(rest[0], args[0]) + Rendering(Pending(false, rest[1..]), args[1..])
    ensures isPercent && !Directive(rest[0]) ==> Supplied(Pending(false, rest[1..]), args)
    ensures isPercent && !Directive(rest[0]) ==>
      Rendering(Pending(isPercent, rest), args) == Rendering(Pending(false, rest[1..]), args)
  {
    assert ("%" + rest)[2..] == rest[1..];
  }

  lemma {:induction false} PendingEnds(fmt: string, isPercent: bool, args: seq<Arg>)
    ensures Pending(false, fmt) == fmt
    ensures Supplied(Pending(isPercent, ""), args) && Rendering(Pending(isPercent, ""), args) == ""
  {
  }
}
