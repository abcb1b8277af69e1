/** The string and memory routines of the kernel's libc, on buffers of characters. */
module Stdlib {
  import opened Arithmetic
  import opened Words
  import opened Numerals

  /** The text of a C string: everything before the first NUL. */
  function Text(s: seq<char>): (t: string)
    ensures t <= s && '\0' !in t
    ensures '\0' in s ==> |t| < |s| && s[|t|] == '\0'
  {
    if s == [] || s[0] == '\0' then [] else [s[0]] + Text(s[1..])
  }

  lemma {:induction false} TextOf(t: string, rest: seq<char>)
    requires '\0' !in t
    ensures Text(t + ['\0'] + rest) == t
  {
    if t != "" {
      assert (t + ['\0'] + rest)[1..] == t[1..] + ['\0'] + rest;
      TextOf(t[1..], rest);
    }
  }

  method StrLen(str: seq<char>) returns (count: nat)
    requires '\0' in str
    ensures count == |Text(str)|
  {
    count := 0;
    while str[count] != '\0'
      invariant count <= |Text(str)|
      decreases |str| - count
    {
      count := count + 1;
    }
  }

  function Reversed(s: string): (r: string)
    ensures |r| == |s|
  {
    seq(|s|, i requires 0 <= i < |s| => s[|s| - 1 - i])
  }

  method StrReverse(str: array<char>, len: nat)
    requires len <= str.Length
    modifies str
    ensures str[..] == Reversed(old(str[..len])) + old(str[len..])
  {
    hide Swapped;
    ghost var s := str[..];
    NothingSwapped(s, len);
    var i := 0;
    while i < len / 2
      invariant i <= len / 2 && str[..] == Swapped(s, len, i)
    {
      OneMoreSwapped(s, len, i);
      var temp := str[i];
      str[i] := str[len - i - 1];
      str[len - i - 1] := temp;
      i := i + 1;
    }
    AllSwapped(s, len);
  }

  /** s with the first and last k of its first len characters exchanged. */
  ghost function Swapped(s: string, len: nat, k: nat): (r: string)
    requires 2 * k <= len <= |s|
    ensures |r| == |s|
  {
    seq(|s|, i requires 0 <= i < |s| => if i < k || len - k <= i < len then s[len - 1 - i] else s[i])
  }

  lemma NothingSwapped(s: string, len: nat)
    requires len <= |s|
    ensures Swapped(s, len, 0) == s
  {
  }

  lemma OneMoreSwapped(s: string, len: nat, k: nat)
    requires 2 * k + 2 <= len <= |s|
    ensures var r := Swapped(s, len, k);
      Swapped(s, len, k + 1) == r[k := r[len - k - 1]][len - k - 1 := r[k]]
  {
  }

  lemma AllSwapped(s: string, len: nat)
    requires len <= |s|
    ensures Swapped(s, len, len / 2) == Reversed(s[..len]) + s[len..]
  {
    var r := Swapped(s, len, len / 2);
    forall i | 0 <= i < |s|
      ensures r[i] == (Reversed(s[..len]) + s[len..])[i]
    {
      if i < len {
        assert Reversed(s[..len])[i] == s[len - 1 - i];
      }
    }
  }

  /** memcpy(dest + at, src, n) between different buffers. */
  method Memcpy(dest: array<char>, at: nat, src: seq<char>, n: nat)
    requires n <= |src| && at + n <= dest.Length
    modifies dest
    ensures dest[..] == old(dest[..at]) + src[..n] + old(dest[at + n..])
  {
    hide Overwritten;
    ghost var s := dest[..];
    NothingCopied(s, at, src);
    var done := 0;
    while done < n
      invariant done <= n && dest[..] == Overwritten(s, at, src, done)
    {
      OneMoreCopied(s, at, src, done);
      dest[at + done] := src[done];
      done := done + 1;
    }
    AllCopied(s, at, src, n);
  }

  /** s with the first k characters of src in place of its own from `at` on. */
  ghost function Overwritten(s: string, at: nat, src: string, k: nat): (r: string)
    requires k <= |src| && at + k <= |s|
    ensures |r| == |s|
  {
    s[..at] + src[..k] + s[at + k..]
  }

  lemma NothingCopied(s: string, at: nat, src: string)
    requires at <= |s|
    ensures Overwritten(s, at, src, 0) == s
  {
  }

  lemma OneMoreCopied(s: string, at: nat, src: string, k: nat)
    requires k < |src| && at + k < |s|
    ensures Overwritten(s, at, src, k + 1) == Overwritten(s, at, src, k)[at + k := src[k]]
  {
  }

  lemma AllCopied(s: string, at: nat, src: string, k: nat)
    requires k <= |src| && at + k <= |s|
    ensures Overwritten(s, at, src, k) == s[..at] + src[..k] + s[at + k..]
  {
  }

  method Memset(ptr: array<char>, v: char, n: nat)
    requires n <= ptr.Length
    modifies ptr
    ensures ptr[..] == seq(n, _ => v) + old(ptr[n..])
  {
    var done := 0;
    while done < n
      invariant done <= n
      invariant forall k :: 0 <= k < ptr.Length ==> ptr[k] == if k < done then v else old(ptr[k])
    {
      ptr[done] := v;
      done := done + 1;
    }
  }

  /** The digits that the loop of itoa still has to produce. */
  function Remaining(n: nat, base: nat): string
    requires Base(base)
  {
    if n == 0 then "" else Render(n, base)
  }

  lemma RemainingStep(n: nat, base: nat)
    requires Base(base) && 0 < n
    ensures Remaining(n, base) == Remaining(n / base, base) + [Digit(n % base)]
  {
    hide Digit;
    if n < base {
      DivMod(0, base, n);
    } else {
      Quotient(n, base);
    }
  }

  lemma DigitStep(n: nat, base: nat, s: string)
    requires Base(base) && 0 < n
    ensures Remaining(n, base) + Reversed(s) == Remaining(n / base, base) + Reversed(s + [Digit(n % base)])
  {
    RemainingStep(n, base);
    assert Reversed(s + [Digit(n % base)]) == [Digit(n % base)] + Reversed(s);
  }

  /** One round of the loop of itoa. */
  method PutDigit(n: nat, buf: array<char>, i: nat, base: nat) returns (rest: nat)
    requires Base(base) && 0 < n && i < buf.Length
    modifies buf
    ensures rest == n / base && rest < n && buf[i] == Digit(n % base)
    ensures buf[..i] == old(buf[..i]) && buf[i + 1..] == old(buf[i + 1..])
  {
    RemainingEnds(n, base);
    var rem := n % base;
    buf[i] := if rem > 9 then 'a' + (rem - 10) as char else '0' + rem as char;
    rest := n / base;
  }

  /** The loop of itoa: the digits of num from the lowest up. */
  method PutDigits(num: Word, buf: array<char>, base: nat) returns (i: nat)
    requires Base(base) && 0 < num && |Render(num, base)| < buf.Length
    modifies buf
    ensures i == |Render(num, base)| && Reversed(buf[..i]) == Render(num, base) && buf[i..] == old(buf[i..])
  {
    hide *;
    i := 0;
    var n: nat := num;
    RemainingEnds(num, base);
    while n != 0
      invariant i <= |Render(num, base)| && Render(num, base) == Remaining(n, base) + Reversed(buf[..i])
      invariant buf[i..] == old(buf[i..])
    {
      RemainingEnds(n, base);
      DigitStep(n, base, buf[..i]);
      ghost var before := buf[..i];
      n := PutDigit(n, buf, i, base);
      i := i + 1;
      assert buf[..i] == before + [buf[i - 1]];
    }
    RemainingEnds(0, base);
  }

  lemma {:induction false} RemainingEnds(n: nat, base: nat)
    requires Base(base)
    ensures Remaining(0, base) == "" && Reversed("") == ""
    ensures 0 < n ==> Remaining(n, base) == Render(n, base) && 0 <= n / base < n
  {
    hide Render;
    if base <= n {
      Quotient(n, base);
    } else if 0 < n {
      DivMod(0, base, n);
    }
  }

  lemma {:induction false} ZeroRendered(base: nat)
    requires Base(base)
    ensures Render(0, base) == "0"
  {
  }

  /** Reversing what stands before the NUL. */
  lemma Finished(s: string, t: string, i: nat)
    requires i < |s| == |t| && t[i..] == s[i..]
    ensures var u := t[i := '\0']; Reversed(u[..i]) + u[i..] == Reversed(t[..i]) + ['\0'] + s[i + 1..]
  {
    hide Reversed;
    var u := t[i := '\0'];
    assert u[..i] == t[..i];
    assert u[i..] == ['\0'] + s[i..][1..];
  }

  /** The digit and the NUL of the number 0. */
  method PutZero(buf: array<char>)
    requires 2 <= buf.Length
    modifies buf
    ensures buf[..] == "0" + ['\0'] + old(buf[2..])
  {
    buf[0] := '0';
    buf[1] := '\0';
  }

  /** itoa writes the digits of num and a NUL, and leaves the rest of the buffer alone. */
  method Itoa(num: Word, buf: array<char>, base: nat)
    requires Base(base) && |Render(num, base)| < buf.Length
    modifies buf
    ensures var d := |Render(num, base)|; buf[..] == Render(num, base) + ['\0'] + old(buf[d + 1..])
  {
    hide *;
    ghost var s := buf[..];
    if num == 0 {
      ZeroRendered(base);
      PutZero(buf);
      return;
    }
    var i := PutDigits(num, buf, base);
    ghost var t := buf[..];
    Finished(s, t, i);
    buf[i] := '\0';
    assert buf[..] == t[i := '\0'];
    StrReverse(buf, i);
  }

  /** A buffer of the given size takes the number and its NUL exactly when num < base^(size-1). */
  lemma BufferSuffices(num: nat, base: nat, size: nat)
    requires Base(base) && 2 <= size
    ensures |Render(num, base)| < size <==> num < Pow(base, size - 1)
  {
    LengthExact(num, base, size - 1);
  }
}
