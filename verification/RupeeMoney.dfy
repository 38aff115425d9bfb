/**
 * Money in exact paise: read from a decimal string, printed back, shown in Indian grouping,
 * and subtracted twice over, by the value type and by the finance repository on its own.
 */
module RupeeMoney {
  import opened Blanks
  import opened Decimals
  import opened PublishedAmounts
  import opened Wrappers

  // ----- Decimal strings -----

  /** A decimal string as the contracts allow it: a sign, digits, one or two decimals if any. */
  predicate IsAmount(s: string) {
    Parse(s).Some? && |Parse(s).value.fraction| <= 2
  }

  /** The pieces of `split(".")`: what stands before the first point, and up to the second. */
  function BeforeDot(s: string): string {
    if s == "" || s[0] == '.' then "" else [s[0]] + BeforeDot(s[1..])
  }

  function AfterDot(s: string): string {
    var n := |BeforeDot(s)|;
    if n < |s| then BeforeDot(s[n + 1..]) else ""
  }

  lemma {:induction false} BeforeDotStops(a: string, b: string)
    requires '.' !in a && (b == "" || b[0] == '.')
    ensures BeforeDot(a + b) == a
  {
    if a == "" {
      assert a + b == b;
    } else {
      assert (a + b)[1..] == a[1..] + b;
      BeforeDotStops(a[1..], b);
    }
  }

  lemma {:induction false} WrittenSplits(d: Decimal)
    requires d.WellFormed()
    ensures BeforeDot(d.Written()) == (if d.negative then "-" else "") + d.whole
    ensures AfterDot(d.Written()) == d.fraction
  {
    var head := (if d.negative then "-" else "") + d.whole;
    var tail := if d.fraction == "" then "" else "." + d.fraction;
    assert d.Written() == head + tail;
    BeforeDotStops(head, tail);
    BeforeDotStops(d.fraction, "");
    assert d.fraction + "" == d.fraction;
    if d.fraction != "" {
      assert (head + tail)[|head| + 1..] == d.fraction;
    }
  }

  /** The value type's reading; None is its refusal. */
  function FromDecimalString(value: string): Option<int> {
    var trimmed := Trim(value);
    if !IsAmount(trimmed) then None
    else
      var d := Parse(trimmed).value;
      ParseUndoesWritten(trimmed, d);
      var negative := trimmed[0] == '-';
      var unsigned := if negative then trimmed[1..] else trimmed;
      assert unsigned == d.(negative := false).Written();
      WrittenSplits(d.(negative := false));
      PadEndScales(AfterDot(unsigned), 2);
      var magnitude: int := NumberOf(BeforeDot(unsigned)) * 100 + NumberOf(PadEnd(AfterDot(unsigned), 2));
      Some(if negative then -magnitude else magnitude)
  }

  lemma TenAcross(a: nat, p: nat)
    ensures (10 * a) * p == a * (10 * p)
  {
  }

  lemma AppendZero(s: string)
    requires AllDigits(s)
    ensures AllDigits(s + "0") && NumberOf(s + "0") == 10 * NumberOf(s)
  {
    assert (s + "0")[..|s|] == s;
  }

  lemma {:induction false} PadEndScales(s: string, n: nat)
    requires AllDigits(s) && |s| <= n
    ensures AllDigits(PadEnd(s, n)) && |PadEnd(s, n)| == n
    ensures NumberOf(PadEnd(s, n)) == NumberOf(s) * Pow10(n - |s|)
    decreases n - |s|
  {
    if |s| < n {
      AppendZero(s);
      PadEndScales(s + "0", n);
      assert PadEnd(s, n) == PadEnd(s + "0", n);
      TenAcross(NumberOf(s), Pow10(n - |s| - 1));
    }
  }

  /** Rupees and paise read apart come to the digits read as one number and shifted. */
  lemma {:induction false} ReadsAsShifted(d: Decimal)
    requires d.WellFormed() && |d.fraction| <= 2
    ensures AllDigits(PadEnd(d.fraction, 2))
    ensures var n: int := NumberOf(d.whole) * 100 + NumberOf(PadEnd(d.fraction, 2));
      Signed(d, 2) == if d.negative then -n else n
  {
    var w, f, p := NumberOf(d.whole), NumberOf(d.fraction), Pow10(2 - |d.fraction|);
    PadEndScales(d.fraction, 2);
    NumberOfConcat(d.whole, d.fraction);
    Pow10Adds(|d.fraction|, 2 - |d.fraction|);
    assert Pow10(2) == 100;
    Distribute(w, Pow10(|d.fraction|), f, p);
  }

  lemma Distribute(w: nat, q: nat, f: nat, p: nat)
    ensures (w * q + f) * p == w * (q * p) + f * p
  {
  }

  lemma {:induction false} AmountReads(value: string, d: Decimal)
    requires d.WellFormed() && |d.fraction| <= 2 && Trim(value) == d.Written()
    ensures FromDecimalString(value) == Some(Signed(d, 2))
  {
    hide Parse, NumberOf, PadEnd, Signed, BeforeDot, AfterDot, Trim;
    var trimmed := Trim(value);
    ParseUndoesWritten(trimmed, d);
    var plain := d.(negative := false);
    assert (trimmed[0] == '-') == d.negative;
    var unsigned := if d.negative then trimmed[1..] else trimmed;
    assert unsigned == plain.Written();
    WrittenSplits(plain);
    assert "" + d.whole == d.whole;
    assert BeforeDot(unsigned) == d.whole && AfterDot(unsigned) == d.fraction;
    ReadsAsShifted(d);
  }

  /** The two readers of rupees agree: the value type takes what the other does, without commas. */
  lemma {:induction false} ReadersAgree(value: string, p: int)
    ensures FromDecimalString(value) == Some(p) <==>
      ShiftedToPaise(value, 2) == Ok(Some(p)) && ',' !in Trim(value)
  {
    hide Parse, NumberOf, PadEnd, Signed, BeforeDot, AfterDot, Trim, Erase, IsAbsent;
    var t := Trim(value);
    if IsAmount(t) {
      var d := Parse(t).value;
      ParseUndoesWritten(t, d);
      WrittenHasNoComma(d);
      EraseNothing(t);
      AmountReads(value, d);
      WrittenIsNotAbsent(d);
    } else if ',' !in t {
      EraseNothing(t);
    }
  }

  lemma WrittenHasNoComma(d: Decimal)
    requires d.WellFormed()
    ensures ',' !in d.Written()
  {
  }

  // ----- Printing -----

  function Sign(n: int): string {
    if n < 0 then "-" else ""
  }

  function Magnitude(n: int): nat {
    if n < 0 then -n else n
  }

  function ToDecimalString(paise: int): string {
    var n := Magnitude(paise);
    Sign(paise) + ToDigits(n / 100) + "." + PadStart(ToDigits(n % 100), 2)
  }

  lemma TwoDigits(n: nat)
    requires n < 100
    ensures PadStart(ToDigits(n), 2) == [DigitChar(n / 10), DigitChar(n % 10)]
  {
    if n < 10 {
      assert "0" + ToDigits(n) == [DigitChar(0), DigitChar(n)];
    } else {
      assert ToDigits(n / 10) == [DigitChar(n / 10)];
    }
  }

  function PrintedAs(paise: int): (d: Decimal)
    ensures d.WellFormed() && |d.fraction| == 2 && d.Written() == ToDecimalString(paise)
  {
    var n := Magnitude(paise);
    TwoDigits(n % 100);
    Decimal(paise < 0, ToDigits(n / 100), PadStart(ToDigits(n % 100), 2))
  }

  lemma {:induction false} PrintedIsThePaise(paise: int)
    ensures Signed(PrintedAs(paise), 2) == paise
  {
    var n, d := Magnitude(paise), PrintedAs(paise);
    ToDigitsReadsBack(n / 100);
    ToDigitsReadsBack(n % 100);
    PadStartKeepsTheNumber(ToDigits(n % 100), 2);
    NumberOfConcat(d.whole, d.fraction);
    hide NumberOf, ToDigits, PadStart;
    assert Pow10(2) == 100;
  }

  lemma {:induction false} NothingToTrim(d: Decimal)
    requires d.WellFormed()
    ensures Trim(d.Written()) == d.Written()
  {
    var s := d.Written();
    WrittenHasNoBlank(d, 0);
    WrittenHasNoBlank(d, |s| - 1);
  }

  /** Paise printed as rupees are read back as the same paise, by either reader. */
  lemma {:induction false} PrintedReadsBack(paise: int)
    ensures IsAmount(ToDecimalString(paise))
    ensures FromDecimalString(ToDecimalString(paise)) == Some(paise)
    ensures ShiftedToPaise(ToDecimalString(paise), 2) == Ok(Some(paise))
  {
    hide ToDecimalString, Signed, FromDecimalString, ShiftedToPaise, Parse, Trim, PrintedAs;
    var d := PrintedAs(paise);
    ParseUndoesWritten(d.Written(), d);
    PrintedIsThePaise(paise);
    NothingToTrim(d);
    AmountReads(d.Written(), d);
    ReadersAgree(d.Written(), paise);
  }

  // ----- Two subtractions -----

  /** `BigInt` of an optional sign and digits. */
  function BigIntOf(s: string): int
    requires AllDigits(if s != "" && s[0] == '-' then s[1..] else s)
  {
    if s != "" && s[0] == '-' then -(NumberOf(s[1..]) as int) else NumberOf(s)
  }

  /** The digits of a contract amount as the finance repository reads them. */
  function PaiseOf(v: string): int
    requires IsAmount(v)
  {
    var d := Parse(v).value;
    hide Parse, NumberOf, BeforeDot, AfterDot, PadEnd;
    ParseUndoesWritten(v, d);
    WrittenSplits(d);
    PadEndScales(d.fraction, 2);
    var text := BeforeDot(v) + PadEnd(AfterDot(v), 2)[..2];
    assert text == (if d.negative then "-" else "") + (d.whole + PadEnd(d.fraction, 2));
    assert d.negative ==> text[1..] == d.whole + PadEnd(d.fraction, 2);
    BigIntOf(text)
  }

  /** The finance repository's subtraction of two stored amounts, either of which may be absent. */
  function Minus(a: Option<string>, b: Option<string>): Option<string>
    requires a.Some? ==> IsAmount(a.value)
    requires b.Some? ==> IsAmount(b.value)
  {
    if a.None? || b.None? then None
    else
      var paise := PaiseOf(a.value) - PaiseOf(b.value);
      var abs := PadStart(ToDigits(Magnitude(paise)), 3);
      PadStartLength(ToDigits(Magnitude(paise)), 3);
      Some(Sign(paise) + abs[..|abs| - 2] + "." + abs[|abs| - 2..])
  }

  lemma {:induction false} PadStartLength(s: string, n: nat)
    ensures |PadStart(s, n)| >= n
    decreases n - |s|
  {
    if |s| < n {
      PadStartLength("0" + s, n);
    }
  }

  lemma {:induction false} PaiseOfIsMoneys(v: string)
    requires IsAmount(v)
    ensures FromDecimalString(v) == Some(PaiseOf(v))
  {
    hide FromDecimalString, Signed, NumberOf, BeforeDot, AfterDot, PadEnd, Parse, Trim;
    var d := Parse(v).value;
    ParseUndoesWritten(v, d);
    NothingToTrim(d);
    AmountReads(v, d);
    WrittenSplits(d);
    PadEndScales(d.fraction, 2);
    ReadsAsShifted(d);
    var digits := d.whole + PadEnd(d.fraction, 2);
    NumberOfConcat(d.whole, PadEnd(d.fraction, 2));
    assert Pow10(2) == 100;
    var text := BeforeDot(v) + PadEnd(AfterDot(v), 2)[..2];
    assert PadEnd(AfterDot(v), 2)[..2] == PadEnd(d.fraction, 2);
    if d.negative {
      assert text == "-" + digits && text[1..] == digits;
    } else {
      assert text == digits;
    }
  }

  /** Cutting the padded digits two from the end prints what dividing by a hundred prints. */
  lemma {:induction false} CutIsDivision(n: nat)
    ensures |PadStart(ToDigits(n), 3)| >= 3
    ensures var abs := PadStart(ToDigits(n), 3);
      abs[..|abs| - 2] == ToDigits(n / 100) && abs[|abs| - 2..] == PadStart(ToDigits(n % 100), 2)
  {
    TwoDigits(n % 100);
    var abs := PadStart(ToDigits(n), 3);
    if n < 10 {
      assert "0" + ToDigits(n) == ['0', DigitChar(n)];
      assert "0" + ['0', DigitChar(n)] == ['0', '0', DigitChar(n)];
      assert PadStart(ToDigits(n), 3) == PadStart(['0', DigitChar(n)], 3) == ['0', '0', DigitChar(n)];
      assert ToDigits(0) == "0";
    } else if n < 100 {
      assert ToDigits(n) == [DigitChar(n / 10), DigitChar(n % 10)];
      assert "0" + ToDigits(n) == ['0', DigitChar(n / 10), DigitChar(n % 10)];
      assert ToDigits(0) == "0";
    } else {
      assert ToDigits(n) == ToDigits(n / 10) + [DigitChar(n % 10)];
      assert ToDigits(n / 10) == ToDigits(n / 10 / 10) + [DigitChar(n / 10 % 10)];
      assert n / 10 / 10 == n / 100 && n / 10 % 10 == n % 100 / 10;
    }
  }

  /** The repository's subtraction is the value type's: read, subtract and print. */
  lemma {:induction false} MinusIsMoneys(a: string, b: string)
    requires IsAmount(a) && IsAmount(b)
    ensures FromDecimalString(a).Some? && FromDecimalString(b).Some?
    ensures Minus(Some(a), Some(b)) == Some(ToDecimalString(FromDecimalString(a).value - FromDecimalString(b).value))
  {
    hide FromDecimalString, PaiseOf, IsAmount;
    PaiseOfIsMoneys(a);
    PaiseOfIsMoneys(b);
    CutIsDivision(Magnitude(PaiseOf(a) - PaiseOf(b)));
  }

  /** A difference is a contract amount itself, and adding back what was taken gives the first. */
  lemma {:induction false} MinusAddsBack(a: string, b: string)
    requires IsAmount(a) && IsAmount(b)
    ensures var m := Minus(Some(a), Some(b));
      && m.Some? && IsAmount(m.value)
      && FromDecimalString(a).Some? && FromDecimalString(b).Some? && FromDecimalString(m.value).Some?
      && FromDecimalString(m.value).value + FromDecimalString(b).value == FromDecimalString(a).value
  {
    hide FromDecimalString, Minus, ToDecimalString, IsAmount;
    MinusIsMoneys(a, b);
    PrintedReadsBack(FromDecimalString(a).value - FromDecimalString(b).value);
  }
}
