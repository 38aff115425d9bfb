/**
 * Decimal numbers as text: digit strings, and the one grammar every amount is written in.
 */
module Decimals {
  import opened Wrappers

  // ----- Digit strings -----

  predicate IsDigit(c: char) { '0' <= c <= '9' }

  predicate AllDigits(s: string) {
    forall i :: 0 <= i < |s| ==> IsDigit(s[i])
  }

  function DigitOf(c: char): nat
    requires IsDigit(c)
  {
    c as int - '0' as int
  }

  function DigitChar(n: nat): (c: char)
    requires n < 10
    ensures IsDigit(c) && DigitOf(c) == n
  {
    ('0' as int + n) as char
  }

  function NumberOf(s: string): nat
    requires AllDigits(s)
  {
    if s == "" then 0 else 10 * NumberOf(s[..|s| - 1]) + DigitOf(s[|s| - 1])
  }

  function ToDigits(n: nat): (s: string)
    ensures s != "" && AllDigits(s)
  {
    if n < 10 then [DigitChar(n)] else ToDigits(n / 10) + [DigitChar(n % 10)]
  }

  function Pow10(n: nat): (p: nat)
    ensures p > 0
  {
    if n == 0 then 1 else 10 * Pow10(n - 1)
  }

  function PadStart(s: string, n: nat): string
    decreases n - |s|
  {
    if |s| >= n then s else PadStart("0" + s, n)
  }

  function PadEnd(s: string, n: nat): string
    decreases n - |s|
  {
    if |s| >= n then s else PadEnd(s + "0", n)
  }

  lemma {:induction false} ToDigitsReadsBack(n: nat)
    ensures NumberOf(ToDigits(n)) == n
  {
    if n >= 10 {
      ToDigitsReadsBack(n / 10);
      var front, last := ToDigits(n / 10), [DigitChar(n % 10)];
      assert (front + last)[..|front|] == front;
    }
  }

  lemma TenTimes(a: nat, p: nat, b: nat)
    ensures 10 * (a * p + b) == a * (10 * p) + 10 * b
  {
  }

  lemma {:induction false} NumberOfConcat(a: string, b: string)
    requires AllDigits(a) && AllDigits(b)
    ensures AllDigits(a + b) && NumberOf(a + b) == NumberOf(a) * Pow10(|b|) + NumberOf(b)
  {
    if b == "" {
      assert a + b == a;
    } else {
      var front := b[..|b| - 1];
      NumberOfConcat(a, front);
      assert (a + b)[..|a + b| - 1] == a + front;
      assert (a + b)[|a + b| - 1] == b[|b| - 1];
      TenTimes(NumberOf(a), Pow10(|front|), NumberOf(front));
    }
  }

  lemma {:induction false} Pow10Adds(m: nat, n: nat)
    ensures Pow10(m + n) == Pow10(m) * Pow10(n)
  {
    if m > 0 {
      Pow10Adds(m - 1, n);
      assert 10 * (Pow10(m - 1) * Pow10(n)) == (10 * Pow10(m - 1)) * Pow10(n);
    }
  }

  lemma {:induction false} PadStartKeepsTheNumber(s: string, n: nat)
    requires AllDigits(s)
    ensures AllDigits(PadStart(s, n)) && NumberOf(PadStart(s, n)) == NumberOf(s)
    decreases n - |s|
  {
    if |s| < n {
      NumberOfConcat("0", s);
      assert NumberOf("0") == 0;
      PadStartKeepsTheNumber("0" + s, n);
    }
  }

  // ----- The grammar of a decimal -----

  /** A decimal as it is written: a sign, digits, and the digits of a fraction if there are any. */
  datatype Decimal = Decimal(negative: bool, whole: string, fraction: string) {
    predicate WellFormed() {
      whole != "" && AllDigits(whole) && AllDigits(fraction)
    }

    function Written(): string {
      (if negative then "-" else "") + whole + (if fraction == "" then "" else "." + fraction)
    }

    /** All its digits as one signed number, the point left out. */
    function SignedDigits(): int
      requires WellFormed()
    {
      var n: int := NumberOf(whole + fraction);
      if negative then -n else n
    }
  }

  /** How many digits a text starts with. */
  function DigitRun(s: string): (n: nat)
    ensures n <= |s| && AllDigits(s[..n]) && (n < |s| ==> !IsDigit(s[n]))
  {
    if s == "" || !IsDigit(s[0]) then 0
    else
      var n := DigitRun(s[1..]);
      assert s[..1 + n] == [s[0]] + s[1..][..n];
      1 + n
  }

  function ParseUnsigned(s: string, negative: bool): Option<Decimal> {
    var n := DigitRun(s);
    if n == 0 then None
    else if n == |s| then Some(Decimal(negative, s, ""))
    else if s[n] == '.' && n + 1 < |s| && AllDigits(s[n + 1..]) then Some(Decimal(negative, s[..n], s[n + 1..]))
    else None
  }

  /** An optional sign, digits, and an optional point with digits after it; nothing else. */
  function Parse(s: string): Option<Decimal> {
    if s != "" && s[0] == '-' then ParseUnsigned(s[1..], true) else ParseUnsigned(s, false)
  }

  lemma {:induction false} DigitRunIs(s: string, n: nat)
    requires n <= |s| && AllDigits(s[..n]) && (n < |s| ==> !IsDigit(s[n]))
    ensures DigitRun(s) == n
  {
    if n > 0 {
      assert IsDigit(s[..n][0]);
      assert s[1..][..n - 1] == s[..n][1..];
      DigitRunIs(s[1..], n - 1);
    }
  }

  lemma ParseUnsignedReads(s: string, d: Decimal)
    requires !d.negative
    ensures ParseUnsigned(s, false) == Some(d) <==> d.WellFormed() && s == d.Written()
  {
    if d.WellFormed() && s == d.Written() {
      assert s[..|d.whole|] == d.whole;
      DigitRunIs(s, |d.whole|);
      if d.fraction != "" {
        assert s[|d.whole| + 1..] == d.fraction;
      }
    }
    if ParseUnsigned(s, false) == Some(d) {
      var n := DigitRun(s);
      assert s[..|s|] == s;
      if n < |s| {
        assert s == s[..n] + "." + s[n + 1..];
      }
    }
  }

  /** The parser undoes the printer, and accepts nothing the printer does not write. */
  lemma {:induction false} ParseUndoesWritten(s: string, d: Decimal)
    ensures Parse(s) == Some(d) <==> d.WellFormed() && s == d.Written()
  {
    var plain := d.(negative := false);
    if s != "" && s[0] == '-' {
      ParseUnsignedReads(s[1..], plain);
      assert d.negative ==> d.Written() == "-" + plain.Written();
      assert s == "-" + s[1..];
      assert ParseUnsigned(s[1..], true) == Some(d) ==> d.negative && ParseUnsigned(s[1..], false) == Some(plain);
      if d.negative && d.WellFormed() && s == d.Written() {
        assert s[1..] == plain.Written();
      }
    } else {
      ParseUnsignedReads(s, plain);
      assert plain.WellFormed() ==> IsDigit(plain.Written()[0]);
    }
  }
}
