/**
 * Money as it is shown: Indian digit grouping, and a figure in lakh or crore with two decimals
 * cut from it, never rounded up.
 */
module RupeeDisplay {
  import opened Blanks
  import opened Decimals
  import opened RupeeMoney
  import opened Wrappers

  const RUPEES_PER_LAKH: nat := 100_000
  const RUPEES_PER_CRORE: nat := 10_000_000

  // ----- Grouping -----

  /** A comma before every digit with a whole number of pairs from it to the end, but the first. */
  function CommaPairs(head: string, i: nat): string
    requires i <= |head|
    decreases |head| - i
  {
    if i == |head| then ""
    else (if i > 0 && (|head| - i) % 2 == 0 then "," else "") + [head[i]] + CommaPairs(head, i + 1)
  }

  function GroupIndian(digits: string): string {
    if |digits| <= 3 then digits
    else CommaPairs(digits[..|digits| - 3], 0) + "," + digits[|digits| - 3..]
  }

  /** The places of a comma, counted from the right: 3, 6, 9 and so on. */
  predicate IsCommaPlace(n: nat) {
    n > 0 && n % 3 == 0
  }

  /** Commas stand at just those places of a text that `shift` more characters follow. */
  predicate CommasAt(s: string, shift: nat) {
    s == "" || ((s[|s| - 1] == ',' <==> IsCommaPlace(shift)) && CommasAt(s[..|s| - 1], shift + 1))
  }

  /** Three digits, then twos, and never a comma in front: 8,00,00,000. */
  predicate IsGrouped(s: string) {
    CommasAt(s, 0) && (s != "" ==> s[0] != ',')
  }

  lemma {:induction false} CommasAtPlaces(s: string, shift: nat)
    ensures CommasAt(s, shift) <==>
      forall k :: 0 <= k < |s| ==> (s[k] == ',' <==> IsCommaPlace(|s| - 1 - k + shift))
  {
    hide IsCommaPlace;
    if s != "" {
      var front := s[..|s| - 1];
      CommasAtPlaces(front, shift + 1);
      assert forall k :: 0 <= k < |front| ==> front[k] == s[k] && |front| - 1 - k + (shift + 1) == |s| - 1 - k + shift;
    }
  }

  lemma {:induction false} CommasAtConcat(a: string, b: string, shift: nat)
    ensures CommasAt(a + b, shift) <==> CommasAt(b, shift) && CommasAt(a, shift + |b|)
  {
    hide IsCommaPlace;
    if b == "" {
      assert a + b == a;
    } else {
      CommasAtConcat(a, b[..|b| - 1], shift + 1);
      assert (a + b)[..|a + b| - 1] == a + b[..|b| - 1];
    }
  }

  /** Grouped or not by where its commas stand: at 3, 6, 9 from the right and nowhere else. */
  lemma GroupedByPlace(s: string)
    ensures IsGrouped(s) <==>
      (s != "" ==> s[0] != ',') && forall k :: 0 <= k < |s| ==> (s[k] == ',' <==> IsCommaPlace(|s| - 1 - k))
  {
    CommasAtPlaces(s, 0);
  }

  lemma {:induction false} CommaPairsPlaced(head: string, i: nat)
    requires ',' !in head && i <= |head|
    ensures var r := CommaPairs(head, i);
      CommasAt(r, 4) && (i > 0 ==> |r| == |head| - i + (|head| - i) / 2)
    decreases |head| - i
  {
    if i < |head| {
      CommaPairsPlaced(head, i + 1);
      var rest, digit := CommaPairs(head, i + 1), [head[i]];
      var comma := if i > 0 && (|head| - i) % 2 == 0 then "," else "";
      assert CommaPairs(head, i) == comma + digit + rest;
      CommasAtConcat(comma + digit, rest, 4);
      CommasAtConcat(comma, digit, 4 + |rest|);
      PairPlaces(|head| - i - 1);
      hide CommaPairs, IsCommaPlace;
      assert CommasAt(digit, 4 + |rest|) && CommasAt(comma, 4 + |rest| + 1);
    }
  }

  /** Past n digits and the commas among them comes a digit's place, then a comma's if n is odd. */
  lemma PairPlaces(n: nat)
    ensures !IsCommaPlace(4 + n + n / 2)
    ensures n % 2 == 1 ==> IsCommaPlace(5 + n + n / 2)
  {
  }

  lemma {:induction false} CommaPairsSpell(head: string, i: nat)
    requires ',' !in head && i <= |head|
    ensures Erase(CommaPairs(head, i)) == head[i..]
    decreases |head| - i
  {
    if i < |head| {
      CommaPairsSpell(head, i + 1);
      var rest, digit := CommaPairs(head, i + 1), [head[i]];
      var comma := if i > 0 && (|head| - i) % 2 == 0 then "," else "";
      assert CommaPairs(head, i) == comma + digit + rest;
      EraseConcat(comma + digit, rest);
      EraseConcat(comma, digit);
      EraseOne(head[i]);
      EraseOne(',');
      assert Erase("") == "";
      assert head[i..] == digit + head[i + 1..];
    }
  }

  lemma EraseOne(c: char)
    ensures Erase([c]) == if c == ',' then "" else [c]
  {
    assert [c][1..] == "";
  }

  /** Grouping takes nothing away and puts the commas where they belong. */
  lemma {:induction false} GroupingIsIndian(digits: string)
    requires ',' !in digits
    ensures Erase(GroupIndian(digits)) == digits && IsGrouped(GroupIndian(digits))
  {
    if |digits| <= 3 {
      EraseNothing(digits);
      NoCommas(digits);
    } else {
      var head, tail := digits[..|digits| - 3], digits[|digits| - 3..];
      var front := CommaPairs(head, 0);
      assert front[0] == head[0];
      CommaPairsPlaced(head, 0);
      NoCommas(tail);
      CommasAtConcat(front + ",", tail, 0);
      CommasAtConcat(front, ",", 3);
      assert CommasAt(",", 3);
      hide CommasAt;
      CommaPairsSpell(head, 0);
      EraseNothing(tail);
      EraseConcat(front + ",", tail);
      EraseConcat(front, ",");
      EraseOne(',');
      hide Erase, CommaPairs;
      assert head[0..] + "" + tail == digits;
    }
  }

  lemma {:induction false} NoCommas(s: string)
    requires ',' !in s && |s| <= 3
    ensures CommasAt(s, 0)
  {
    CommasAtPlaces(s, 0);
  }

  lemma {:induction false} EraseLast(s: string)
    requires s != ""
    ensures var front, last := s[..|s| - 1], s[|s| - 1];
      Erase(s) == if last == ',' then Erase(front) else Erase(front) + [last]
  {
    var last := [s[|s| - 1]];
    assert s == s[..|s| - 1] + last;
    EraseConcat(s[..|s| - 1], last);
    EraseOne(s[|s| - 1]);
    assert Erase(s[..|s| - 1]) + "" == Erase(s[..|s| - 1]);
  }

  /** There is one way to group a number: the digits and the comma places settle the text. */
  lemma {:induction false} GroupingIsUnique(s: string, t: string, shift: nat)
    requires CommasAt(s, shift) && CommasAt(t, shift)
    requires (s != "" ==> s[0] != ',') && (t != "" ==> t[0] != ',')
    requires Erase(s) == Erase(t)
    ensures s == t
    decreases |s| + |t|
  {
    hide IsCommaPlace;
    if s != "" && t != "" {
      EraseLast(s);
      EraseLast(t);
      var a, b := s[|s| - 1], t[|t| - 1];
      assert a == ',' <==> b == ',';
      var es, et := Erase(s[..|s| - 1]), Erase(t[..|t| - 1]);
      hide Erase;
      if a != ',' {
        LastOut(es, a, et, b);
      }
      GroupingIsUnique(s[..|s| - 1], t[..|t| - 1], shift + 1);
      assert s == s[..|s| - 1] + [a] && t == t[..|t| - 1] + [b];
    }
  }

  lemma LastOut(s: string, a: char, t: string, b: char)
    requires s + [a] == t + [b]
    ensures s == t && a == b
  {
    assert (s + [a])[|s + [a]| - 1] == (t + [b])[|t + [b]| - 1];
    assert (s + [a])[..|s|] == s && (t + [b])[..|t|] == t;
  }

  /** A text is the grouping of these digits exactly when it spells them, grouped. */
  lemma {:induction false} GroupedExactly(s: string, digits: string)
    requires ',' !in digits
    ensures s == GroupIndian(digits) <==> Erase(s) == digits && IsGrouped(s)
  {
    hide GroupIndian, Erase;
    GroupingIsIndian(digits);
    if Erase(s) == digits && IsGrouped(s) {
      GroupingIsUnique(s, GroupIndian(digits), 0);
    }
  }

  // ----- Two decimals of a unit -----

  function Scaled(rupees: nat, unit: nat): string
    requires unit > 0
  {
    GroupIndian(ToDigits(rupees / unit)) + "." + PadStart(ToDigits((rupees % unit) * 100 / unit), 2)
  }

  /** Dividing a hundred times the remainder gives the two decimals, below a hundred. */
  lemma FloorOfHundredths(r: nat, u: nat)
    requires u > 0
    ensures (r % u) * 100 / u < 100
    ensures (r / u) * 100 + (r % u) * 100 / u == r * 100 / u
  {
    var q, m := r / u, r % u;
    var h := m * 100 / u;
    DivisionIs(r, u, q);
    DivisionIs(m * 100, u, h);
    Hundred(r, u, q, m);
    if h >= 100 {
      Grows(u, 100, h);
    }
    Sum(u, q * 100, h);
    QuotientIs(r * 100, u, q * 100 + h);
  }

  lemma DivisionIs(n: nat, u: nat, q: nat)
    requires u > 0 && q == n / u
    ensures q * u <= n < q * u + u && n % u == n - q * u
  {
  }

  lemma Hundred(r: nat, u: nat, q: nat, m: nat)
    requires r == q * u + m
    ensures r * 100 == (q * 100) * u + m * 100
  {
  }

  lemma Sum(u: nat, a: nat, b: nat)
    ensures (a + b) * u == a * u + b * u
  {
  }

  lemma Grows(u: nat, a: nat, b: nat)
    requires a <= b
    ensures a * u <= b * u
  {
  }

  lemma QuotientIs(n: nat, u: nat, w: nat)
    requires u > 0 && w * u <= n < w * u + u
    ensures n / u == w
  {
    var q := n / u;
    DivisionIs(n, u, q);
    if q < w {
      Grows(u, q + 1, w);
      Sum(u, q, 1);
    } else if q > w {
      Grows(u, w + 1, q);
      Sum(u, w, 1);
    }
  }

  /**
   * What is shown is the floor: read the grouped digits and the two decimals back, and they are
   * a hundred times the rupees over the unit, whole, with nothing rounded up.
   */
  lemma {:induction false} ScaledIsTheFloor(rupees: nat, unit: nat) returns (whole: string, decimals: string)
    requires unit > 0
    ensures Scaled(rupees, unit) == whole + "." + decimals
    ensures IsGrouped(whole) && AllDigits(Erase(whole)) && AllDigits(decimals) && |decimals| == 2
    ensures NumberOf(Erase(whole)) * 100 + NumberOf(decimals) == rupees * 100 / unit
  {
    var w, d := rupees / unit, (rupees % unit) * 100 / unit;
    FloorOfHundredths(rupees, unit);
    TwoDigits(d);
    ToDigitsReadsBack(w);
    ToDigitsReadsBack(d);
    PadStartKeepsTheNumber(ToDigits(d), 2);
    whole, decimals := GroupIndian(ToDigits(w)), PadStart(ToDigits(d), 2);
    hide NumberOf, ToDigits, PadStart, GroupIndian;
    GroupingIsIndian(ToDigits(w));
  }

  datatype Style = CroreLakh | Full | Compact

  function Format(paise: int, style: Style): string {
    var rupees := Magnitude(paise) / 100;
    Sign(paise) + "₹" +
    if style.Full? then GroupIndian(ToDigits(rupees))
    else if rupees >= RUPEES_PER_CRORE then Scaled(rupees, RUPEES_PER_CRORE) + " crore"
    else if rupees >= RUPEES_PER_LAKH then Scaled(rupees, RUPEES_PER_LAKH) + " lakh"
    else GroupIndian(ToDigits(rupees))
  }

  lemma {:induction false} NoZeroInFront(n: nat)
    ensures ToDigits(n)[0] == '0' ==> n == 0
    ensures n == 0 ==> ToDigits(n) == "0"
  {
    if n >= 10 {
      NoZeroInFront(n / 10);
    }
  }

  lemma {:induction false} WholeIsGrouped(rupees: nat)
    ensures var whole := GroupIndian(ToDigits(rupees));
      && IsGrouped(whole) && AllDigits(Erase(whole)) && NumberOf(Erase(whole)) == rupees
      && Erase(whole) != "" && (Erase(whole)[0] == '0' ==> Erase(whole) == "0")
  {
    ToDigitsReadsBack(rupees);
    NoZeroInFront(rupees);
    hide NumberOf, ToDigits, GroupIndian, IsGrouped;
    GroupingIsIndian(ToDigits(rupees));
  }

  /**
   * In full, or below a lakh in any style, what is shown is the sign, the rupee sign and the whole
   * rupees, grouped and with no zero in front.
   */
  lemma {:induction false} FormatInFull(paise: int, style: Style) returns (whole: string)
    requires style.Full? || -100 * RUPEES_PER_LAKH < paise < 100 * RUPEES_PER_LAKH
    ensures Format(paise, style) == (if paise < 0 then "-" else "") + "₹" + whole
    ensures IsGrouped(whole) && AllDigits(Erase(whole)) && NumberOf(Erase(whole)) == (if paise < 0 then -paise else paise) / 100
    ensures Erase(whole) != "" && (Erase(whole)[0] == '0' ==> Erase(whole) == "0")
  {
    var rupees := Magnitude(paise) / 100;
    WholeIsGrouped(rupees);
    hide GroupIndian, IsGrouped, Erase, NumberOf, ToDigits, Scaled;
    whole := GroupIndian(ToDigits(rupees));
  }

  /**
   * A display never overstates: the figure shown, in the unit named, is at most the amount and
   * short of it by less than the last decimal place; and a lakh figure never reaches 100 lakh.
   */
  lemma {:induction false} FormatNeverOverstates(paise: int, style: Style) returns (whole: string, decimals: string)
    requires Magnitude(paise) >= 100 * RUPEES_PER_LAKH && !style.Full?
    ensures var inCrore := Magnitude(paise) >= 100 * RUPEES_PER_CRORE;
      var unit := if inCrore then RUPEES_PER_CRORE else RUPEES_PER_LAKH;
      && Format(paise, style) ==
           (if paise < 0 then "-" else "") + "₹" + (whole + "." + decimals + if inCrore then " crore" else " lakh")
      && IsGrouped(whole) && AllDigits(Erase(whole)) && AllDigits(decimals) && |decimals| == 2
      && var hundredths := NumberOf(Erase(whole)) * 100 + NumberOf(decimals);
      && hundredths * unit <= Magnitude(paise) < (hundredths + 1) * unit
      && hundredths >= 100 && (!inCrore ==> hundredths < 10_000)
  {
    var n := Magnitude(paise);
    var rupees := n / 100;
    var unit := if rupees >= RUPEES_PER_CRORE then RUPEES_PER_CRORE else RUPEES_PER_LAKH;
    hide Scaled, IsGrouped, Erase, NumberOf, GroupIndian;
    whole, decimals := ScaledIsTheFloor(rupees, unit);
    var h := rupees * 100 / unit;
    if unit == RUPEES_PER_CRORE {
      assert h == rupees / 100_000 && h * unit <= n < (h + 1) * unit;
    } else {
      assert h == rupees / 1_000 && h * unit <= n < (h + 1) * unit;
    }
  }
}
