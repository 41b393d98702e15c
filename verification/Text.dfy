/** The C library conversions between numbers and text that the wire format relies on:
    %zu, %d and %lld on the way out, atoi on the way in, and isspace. As in the C locale,
    only the ten ASCII digits are digits, and the blanks are the space and the five
    control characters from tab to carriage return. Overflow of the C types is not
    modelled. */
module Text {
  import opened Sds

  predicate IsDigit(c: char) { '0' <= c <= '9' }

  /** isspace in the C locale. */
  predicate IsSpace(c: char) { c == ' ' || '\t' <= c <= '\r' }

  function Value(c: char): nat
    requires IsDigit(c)
  {
    c as int - '0' as int
  }

  function Digit(d: nat): (c: char)
    requires d < 10
    ensures IsDigit(c) && Value(c) == d
  {
    ('0' as int + d) as char
  }

  /** %zu and %d of a non-negative number. */
  function Dec(n: nat): (s: Bytes)
    ensures |s| > 0 && forall i :: 0 <= i < |s| ==> IsDigit(s[i])
  {
    if n < 10 then [Digit(n)] else Dec(n / 10) + [Digit(n % 10)]
  }

  /** %d and %lld. */
  function DecInt(n: int): Bytes { if n < 0 then "-" + Dec(-n) else Dec(n) }

  /** The value of the leading digits, continuing from acc. */
  function Digits(s: Bytes, acc: nat): nat
    decreases |s|
  {
    if s == [] || !IsDigit(s[0]) then acc else Digits(s[1..], 10 * acc + Value(s[0]))
  }

  function SkipSpace(s: Bytes): Bytes
    decreases |s|
  {
    if s != [] && IsSpace(s[0]) then SkipSpace(s[1..]) else s
  }

  /** atoi: blanks, a sign, then as many digits as there are; anything else counts as zero. */
  function Atoi(s: Bytes): int
  {
    var t := SkipSpace(s);
    if t == [] then 0
    else if t[0] == '-' then 0 - Digits(t[1..], 0)
    else if t[0] == '+' then Digits(t[1..], 0)
    else Digits(t, 0)
  }

  ghost function Pow10(k: nat): nat { if k == 0 then 1 else 10 * Pow10(k - 1) }

  lemma {:induction false} DecLength(n: nat, k: nat)
    requires k > 0 && n < Pow10(k)
    ensures |Dec(n)| <= k
  {
    if n >= 10 {
      assert k > 1;
      DecLength(n / 10, k - 1);
    }
  }

  lemma {:induction false} DigitsAppend(s: Bytes, t: Bytes, acc: nat)
    requires forall i :: 0 <= i < |s| ==> IsDigit(s[i])
    ensures Digits(s + t, acc) == Digits(t, Digits(s, acc))
    decreases |s|
  {
    if s == [] {
      assert s + t == t;
    } else {
      assert (s + t)[1..] == s[1..] + t;
      DigitsAppend(s[1..], t, 10 * acc + Value(s[0]));
    }
  }

  lemma {:induction false} DigitsOfDec(n: nat)
    ensures Digits(Dec(n), 0) == n
  {
    if n >= 10 {
      var last := [Digit(n % 10)];
      DigitsAppend(Dec(n / 10), last, 0);
      DigitsOfDec(n / 10);
      assert last[1..] == [];
      assert Digits(last, n / 10) == 10 * (n / 10) + n % 10;
    } else {
      assert Dec(n)[1..] == [];
    }
  }

  lemma AtoiOfDec(n: nat)
    ensures Atoi(Dec(n)) == n
  {
    DigitsOfDec(n);
    assert IsDigit(Dec(n)[0]);
  }

  /** atoi skips blanks, takes a sign, and stops at the first byte that is no digit. */
  lemma AtoiReads(blanks: Bytes, n: nat, rest: Bytes)
    requires (forall i :: 0 <= i < |blanks| ==> IsSpace(blanks[i])) && (rest == [] || !IsDigit(rest[0]))
    ensures Atoi(blanks + (Dec(n) + rest)) == Atoi(blanks + ("+" + (Dec(n) + rest))) == n
    ensures Atoi(blanks + ("-" + (Dec(n) + rest))) == 0 - n
  {
    var s := Dec(n) + rest;
    DigitsAppend(Dec(n), rest, 0);
    DigitsOfDec(n);
    assert IsDigit(s[0]) by { assert s[0] == Dec(n)[0]; }
    hide Dec;
    SkipsBlanks(blanks, s);
    SkipsBlanks(blanks, "+" + s);
    SkipsBlanks(blanks, "-" + s);
    assert ("+" + s)[1..] == s && ("-" + s)[1..] == s;
  }

  lemma {:induction false} SkipsBlanks(blanks: Bytes, s: Bytes)
    requires (forall i :: 0 <= i < |blanks| ==> IsSpace(blanks[i])) && s != [] && !IsSpace(s[0])
    ensures SkipSpace(blanks + s) == s
  {
    if blanks == [] {
      assert blanks + s == s;
    } else {
      SkipsBlanks(blanks[1..], s);
      assert (blanks + s)[1..] == blanks[1..] + s;
    }
  }

  /** Anything else reads as zero. */
  lemma AtoiOfOther(s: Bytes)
    requires s == [] || (!IsSpace(s[0]) && !IsDigit(s[0]) && s[0] != '-' && s[0] != '+')
    ensures Atoi(s) == 0
  {
  }

  /** The digits printed, the last one for the ones. */
  lemma DecDigits(n: nat)
    ensures n < 10 ==> Dec(n) == ["0123456789"[n]]
    ensures n >= 10 ==> Dec(n) == Dec(n / 10) + ["0123456789"[n % 10]]
  {
    assert forall d: nat :: d < 10 ==> "0123456789"[d] == Digit(d);
  }
}
