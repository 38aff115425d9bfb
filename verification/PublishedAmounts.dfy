/**
 * Amounts as a report publishes them, converted to exact paise.
 *
 * Reports state figures in thousands, lakh or crore. The conversion is a shift of the decimal
 * point done on the text, and a figure that would lose digits to it is refused.
 */
module PublishedAmounts {
  import opened Blanks
  import opened Positions
  import opened Decimals
  import opened Wrappers

  const THOUSANDS_SHIFT: nat := 5
  const CRORES_SHIFT: nat := 9

  // ----- Reading -----

  /** The texts that stand for an absent figure, which is not a figure of zero. */
  const ABSENT: set<string> := {"", "-", "--", "---", "NA", "N/A", "null"}

  function Upper(s: string): string {
    seq(|s|, i requires 0 <= i < |s| =>
      if 'a' <= s[i] <= 'z' then (s[i] as int - 'a' as int + 'A' as int) as char else s[i])
  }

  predicate IsAbsent(s: string) {
    s in ABSENT || Upper(s) in ABSENT
  }

  datatype Refusal = Malformed | SubPaise

  function Signed(d: Decimal, shift: nat): int
    requires d.WellFormed() && |d.fraction| <= shift
  {
    var paise: int := NumberOf(d.whole + d.fraction) * Pow10(shift - |d.fraction|);
    if d.negative then -paise else paise
  }

  /** Reads a cleaned figure: nothing, exact paise, or a refusal. */
  function Read(cleaned: string, shift: nat): Result<Option<int>, Refusal> {
    if IsAbsent(cleaned) then Ok(None)
    else
      match Parse(cleaned)
      case None => Err(Malformed)
      case Some(d) =>
        ParseUndoesWritten(cleaned, d);
        if |d.fraction| > shift then Err(SubPaise) else Ok(Some(Signed(d, shift)))
  }

  function ShiftedToPaise(raw: string, shift: nat): Result<Option<int>, Refusal> {
    Read(Erase(Trim(raw)), shift)
  }

  function ThousandsToPaise(raw: string): Result<Option<int>, Refusal> {
    ShiftedToPaise(raw, THOUSANDS_SHIFT)
  }

  function CroresToPaise(raw: string): Result<Option<int>, Refusal> {
    ShiftedToPaise(raw, CRORES_SHIFT)
  }

  // ----- Exactness -----

  lemma {:induction false} ShiftIsExact(d: Decimal, shift: nat, p: int)
    requires d.WellFormed() && |d.fraction| <= shift
    ensures p == Signed(d, shift) <==> p * Pow10(|d.fraction|) == d.SignedDigits() * Pow10(shift)
  {
    var f, rest := |d.fraction|, shift - |d.fraction|;
    Pow10Adds(rest, f);
    Scaling(d.SignedDigits(), Pow10(rest), Pow10(f), p);
    assert Signed(d, shift) == d.SignedDigits() * Pow10(rest);
  }

  lemma Scaling(n: int, a: int, b: int, p: int)
    requires b > 0
    ensures p == n * a <==> p * b == n * (a * b)
  {
    assert (n * a) * b == n * (a * b);
    if p < n * a {
      assert p * b < (n * a) * b;
    } else if p > n * a {
      assert p * b > (n * a) * b;
    }
  }

  /**
   * A reading of p paise means exactly this: the text is a decimal, its last place is worth at
   * least a paisa at this scale, and p is its value.
   */
  lemma {:induction false} AmountIsExact(raw: string, shift: nat, d: Decimal, p: int)
    requires d.WellFormed() && Erase(Trim(raw)) == d.Written()
    ensures ShiftedToPaise(raw, shift) == Ok(Some(p)) <==>
      |d.fraction| <= shift && p * Pow10(|d.fraction|) == d.SignedDigits() * Pow10(shift)
    ensures ShiftedToPaise(raw, shift) == Err(SubPaise) <==> |d.fraction| > shift
  {
    hide Trim, Erase, Signed, Parse;
    ParseUndoesWritten(Erase(Trim(raw)), d);
    WrittenIsNotAbsent(d);
    if |d.fraction| <= shift {
      ShiftIsExact(d, shift, p);
    }
  }

  /** The last character of a written decimal is a digit, which no word for absence ends in. */
  lemma WrittenIsNotAbsent(d: Decimal)
    requires d.WellFormed()
    ensures !IsAbsent(d.Written())
  {
    var s := d.Written();
    assert IsDigit(s[|s| - 1]);
    assert Upper(s)[|s| - 1] == s[|s| - 1];
  }

  /** A word for absence, or a written decimal. */
  ghost predicate IsFigure(s: string) {
    IsAbsent(s) || exists d: Decimal :: d.WellFormed() && d.Written() == s
  }

  /** A text is refused as malformed exactly when it is neither an absence nor a written decimal. */
  lemma {:induction false} MalformedExactly(raw: string, shift: nat)
    ensures ShiftedToPaise(raw, shift) == Err(Malformed) <==> !IsFigure(Erase(Trim(raw)))
  {
    hide Trim, Erase, Signed, IsAbsent;
    var s := Erase(Trim(raw));
    forall d: Decimal ensures d.WellFormed() && d.Written() == s <==> Parse(s) == Some(d) {
      ParseUndoesWritten(s, d);
    }
    hide Parse;
    if Parse(s).Some? {
      assert Parse(s).value.Written() == s;
    }
  }

  lemma UpperIs(s: string, capitals: string)
    requires |s| == |capitals|
    requires forall k :: 0 <= k < |capitals| ==> !('a' <= capitals[k] <= 'z')
    ensures Upper(s) == capitals <==> Lower(s) == Lower(capitals)
  {
    forall k | 0 <= k < |s| ensures Upper(s)[k] == capitals[k] <==> Lower(s)[k] == Lower(capitals)[k] {
    }
  }

  lemma UpperHasNoSmall(s: string)
    ensures Upper(s) != "null"
    ensures |Upper(s)| == |s|
  {
    assert "null"[0] == 'n';
    assert forall k :: 0 <= k < |s| ==> Upper(s)[k] != 'n';
  }

  /** No figure is read exactly from a blank, one to three dashes, null, or NA or N/A in any case. */
  lemma {:induction false} AbsentExactly(raw: string, shift: nat)
    ensures ShiftedToPaise(raw, shift) == Ok(None) <==>
      var s := Erase(Trim(raw)); s in {"", "-", "--", "---", "null"} || Lower(s) in {"na", "n/a"}
  {
    var s := Erase(Trim(raw));
    AbsentMeans(s);
    hide Trim, Erase, IsAbsent, Parse, Signed;
  }

  lemma AbsentMeans(s: string)
    ensures IsAbsent(s) <==> s in {"", "-", "--", "---", "null"} || Lower(s) in {"na", "n/a"}
  {
    UpperHasNoSmall(s);
    assert Lower("NA") == "na" && Lower("N/A") == "n/a";
    assert Upper(s) == "" <==> s == "";
    AnyCase(s);
    hide Upper, Lower;
  }

  lemma AnyCase(s: string)
    ensures Upper(s) == "NA" <==> Lower(s) == Lower("NA")
    ensures Upper(s) == "N/A" <==> Lower(s) == Lower("N/A")
    ensures Upper(s) == "-" <==> s == "-"
    ensures Upper(s) == "--" <==> s == "--"
    ensures Upper(s) == "---" <==> s == "---"
    ensures Lower(s) == Lower("NA") || Lower(s) == Lower("N/A") <==> Upper(s) in {"NA", "N/A"}
    ensures s == "NA" ==> Upper(s) == "NA"
    ensures s == "N/A" ==> Upper(s) == "N/A"
  {
    if |s| == 2 {
      UpperIs(s, "NA");
    }
    if |s| == 3 {
      UpperIs(s, "N/A");
    }
    assert |Upper(s)| == |s| == |Lower(s)|;
    forall k | 0 <= k < |s| ensures Upper(s)[k] == '-' <==> s[k] == '-' {
    }
  }

  /** Reading the same text at crore scale gives ten thousand times what thousands scale gives. */
  lemma {:induction false} CroresAreTenThousandThousands(raw: string)
    ensures match ThousandsToPaise(raw)
      case Ok(None) => CroresToPaise(raw) == Ok(None)
      case Ok(Some(p)) => CroresToPaise(raw) == Ok(Some(10000 * p))
      case Err(Malformed) => CroresToPaise(raw) == Err(Malformed)
      case Err(SubPaise) => CroresToPaise(raw) != Ok(None) && CroresToPaise(raw) != Err(Malformed)
  {
    hide Trim, Erase, Signed, IsAbsent;
    var s := Erase(Trim(raw));
    if !IsAbsent(s) && Parse(s).Some? {
      var d := Parse(s).value;
      ParseUndoesWritten(s, d);
      hide Parse;
      if |d.fraction| <= THOUSANDS_SHIFT {
        FourMorePlaces(d);
      }
    }
  }

  lemma {:induction false} FourMorePlaces(d: Decimal)
    requires d.WellFormed() && |d.fraction| <= THOUSANDS_SHIFT
    ensures Signed(d, CRORES_SHIFT) == 10000 * Signed(d, THOUSANDS_SHIFT)
  {
    var n, p := NumberOf(d.whole + d.fraction), Pow10(THOUSANDS_SHIFT - |d.fraction|);
    Pow10Adds(4, THOUSANDS_SHIFT - |d.fraction|);
    assert Pow10(4) == 10000;
    assert n * (10000 * p) == 10000 * (n * p);
  }

  // ----- Commas -----

  lemma AbsentHasNoBlank(s: string, i: nat)
    requires s in ABSENT && i < |s|
    ensures !IsBlank(s[i])
  {
  }

  lemma BlankIsNotAbsent(s: string, i: nat)
    requires i < |s| && IsBlank(s[i])
    ensures !IsAbsent(s)
  {
    BlankIsNotLetter(s[i]);
    assert Upper(s)[i] == s[i];
    hide IsBlank, Upper;
    if s in ABSENT {
      AbsentHasNoBlank(s, i);
    } else if Upper(s) in ABSENT {
      AbsentHasNoBlank(Upper(s), i);
    }
  }

  lemma WrittenHasNoBlank(d: Decimal, i: nat)
    requires d.WellFormed() && i < |d.Written()|
    ensures !IsBlank(d.Written()[i])
  {
  }

  /** With a blank at either end a text is no figure and no word for absence. */
  lemma BlankEdgeIsMalformed(s: string, shift: nat)
    requires Trim(s) != s
    ensures Read(s, shift) == Err(Malformed)
  {
    hide IsBlank, IsAbsent, Signed, Parse;
    var i := if IsBlank(s[0]) then 0 else |s| - 1;
    BlankIsNotAbsent(s, i);
    if Parse(s).Some? {
      var d := Parse(s).value;
      ParseUndoesWritten(s, d);
      WrittenHasNoBlank(d, i);
    }
  }

  /**
   * Commas never change a reading, except that a comma standing between the figure and white
   * space keeps that white space from being trimmed, and the text is refused.
   */
  lemma {:induction false} CommasMatterOnlyBesideSpace(raw: string, shift: nat)
    ensures var cleaned := Erase(Trim(raw));
      ShiftedToPaise(raw, shift) == ShiftedToPaise(Erase(raw), shift) <==>
        Trim(cleaned) == cleaned || !IsFigure(Trim(Erase(raw)))
  {
    hide Read, IsFigure;
    MalformedExactly(Erase(raw), shift);
    var cleaned := Erase(Trim(raw));
    var a, b := TrimCuts(raw);
    assert Erase(raw) == a + cleaned + b by {
      EraseConcat(a + Trim(raw), b);
      EraseConcat(a, Trim(raw));
      BlanksHaveNoComma(a);
      BlanksHaveNoComma(b);
    }
    TrimIgnoresBlanks(a, cleaned, b);
    TrimAddsNothing(cleaned);
    EraseLeavesNoComma(Trim(raw));
    EraseNothing(Trim(cleaned));
    if Trim(cleaned) != cleaned {
      BlankEdgeIsMalformed(cleaned, shift);
    }
  }

  /** Such a text: the figure is refused with its comma and read without it. */
  lemma ACommaBesideASpaceMatters()
    ensures ShiftedToPaise(", 5", 2) == Err(Malformed)
    ensures ShiftedToPaise(Erase(", 5"), 2) == Ok(Some(500))
  {
    var s := ", 5";
    assert s[1..] == " 5" && " 5"[1..] == "5" && "5"[1..] == "";
    assert Erase("5") == "5" && Erase(" 5") == " 5" && Erase(s) == " 5";
    assert Trim(s) == s && Trim(" 5") == "5";
    BlankEdgeIsMalformed(" 5", 2);
    FiveRupees();
  }

  lemma FiveRupees()
    ensures Read("5", 2) == Ok(Some(500))
  {
    var d := Decimal(false, "5", "");
    assert d.WellFormed() && d.Written() == "5";
    ParseUndoesWritten("5", d);
    WrittenIsNotAbsent(d);
    assert d.whole + d.fraction == "5" && NumberOf("5") == 5 && Pow10(2) == 100;
    assert Signed(d, 2) == 500;
  }

  // ----- Amounts in prose -----

  /** The text layer puts spaces inside a figure, so in prose all of them are left out. */
  function Squeeze(s: string): string {
    if s == "" then "" else (if IsBlank(s[0]) then "" else [s[0]]) + Squeeze(s[1..])
  }

  /** A figure in a sentence, in paise, or none where the conversion is not exact. */
  function ProseToPaise(digits: string, shift: Option<nat>): Option<int> {
    if shift.None? then None
    else
      match ShiftedToPaise(Squeeze(digits), shift.value)
      case Ok(paise) => paise
      case Err(_) => None
  }

  lemma {:induction false} SqueezeHasNoBlank(s: string)
    ensures forall i :: 0 <= i < |Squeeze(s)| ==> !IsBlank(Squeeze(s)[i])
  {
    if s != "" {
      SqueezeHasNoBlank(s[1..]);
      var rest := Squeeze(s[1..]);
      assert Squeeze(s) == rest || Squeeze(s) == [s[0]] + rest;
    }
  }

  lemma {:induction false} SqueezeErased(s: string)
    ensures Squeeze(Erase(s)) == Erase(Squeeze(s))
  {
    if s != "" {
      SqueezeErased(s[1..]);
      var rest := s[1..];
      if s[0] == ',' {
        assert Erase(s) == "" + Erase(rest) == Erase(rest);
        assert Squeeze(s) == [','] + Squeeze(rest) by {
          BlankIsNotComma();
        }
        assert ([','] + Squeeze(rest))[1..] == Squeeze(rest);
      } else {
        var erased := [s[0]] + Erase(rest);
        assert Erase(s) == erased && erased[0] == s[0] && erased[1..] == Erase(rest);
        if IsBlank(s[0]) {
          assert Squeeze(erased) == "" + Squeeze(Erase(rest)) == Squeeze(Erase(rest));
          assert Squeeze(s) == "" + Squeeze(rest) == Squeeze(rest);
        } else {
          var squeezed := [s[0]] + Squeeze(rest);
          assert squeezed[0] == s[0] && squeezed[1..] == Squeeze(rest);
        }
      }
    }
  }

  lemma BlankIsNotComma()
    ensures !IsBlank(',')
  {
  }

  /** In prose neither commas nor spaces ever change a reading. */
  lemma {:induction false} ProseIgnoresCommasAndSpaces(digits: string, shift: nat)
    ensures ProseToPaise(Erase(Squeeze(digits)), Some(shift)) == ProseToPaise(digits, Some(shift))
  {
    hide Read, IsBlank;
    var s := Squeeze(digits);
    SqueezeHasNoBlank(digits);
    SqueezeErased(digits);
    SqueezeHasNoBlank(Erase(digits));
    SqueezeNothing(Erase(s));
    EraseLeavesNoComma(s);
    EraseNothing(Erase(s));
    TrimNothing(s);
    TrimNothing(Erase(s));
  }

  lemma {:induction false} SqueezeNothing(s: string)
    requires forall i :: 0 <= i < |s| ==> !IsBlank(s[i])
    ensures Squeeze(s) == s
  {
    hide IsBlank;
    if s != "" {
      SqueezeNothing(s[1..]);
    }
  }

  lemma TrimNothing(s: string)
    requires forall i :: 0 <= i < |s| ==> !IsBlank(s[i])
    ensures Trim(s) == s
  {
  }

  ghost function NeitherCommaNorBlank(s: string): set<nat> {
    set k: nat | k < |s| && s[k] != ',' && !IsBlank(s[k])
  }

  /** A text less its commas and its white space. */
  ghost predicate Spells(s: string, text: string) {
    exists at :: Lists(at, NeitherCommaNorBlank(s)) && IsPicked(s, at, text)
  }

  ghost predicate IsPicked(s: string, at: seq<nat>, text: string) {
    |text| == |at| && forall k :: 0 <= k < |at| ==> at[k] < |s| && text[k] == s[at[k]]
  }

  lemma {:induction false} SqueezePush(s: string, c: char)
    ensures Erase(Squeeze(s + [c])) == Erase(Squeeze(s)) + if c == ',' || IsBlank(c) then "" else [c]
  {
    assert Squeeze([c]) == if IsBlank(c) then "" else [c] by {
      assert [c][1..] == "";
    }
    SqueezeConcat(s, [c]);
    EraseConcat(Squeeze(s), Squeeze([c]));
    assert Erase([c]) == if c == ',' then "" else [c] by {
      assert [c][1..] == "";
    }
    hide IsBlank;
    BlankIsNotComma();
  }

  lemma {:induction false} SqueezeConcat(a: string, b: string)
    ensures Squeeze(a + b) == Squeeze(a) + Squeeze(b)
  {
    hide IsBlank;
    if a == "" {
      assert a + b == b;
    } else {
      assert (a + b)[1..] == a[1..] + b;
      SqueezeConcat(a[1..], b);
    }
  }

  lemma PickedPush(s: string, c: char)
    ensures NeitherCommaNorBlank(s + [c]) ==
      NeitherCommaNorBlank(s) + if c == ',' || IsBlank(c) then {} else {|s|}
    ensures forall k :: k in NeitherCommaNorBlank(s) ==> k < |s|
  {
    hide IsBlank;
  }

  ghost predicate AreSpelled(s: string, at: seq<nat>, text: string) {
    Lists(at, NeitherCommaNorBlank(s)) && IsPicked(s, at, text)
  }

  lemma SpellOneMore(s: string, c: char, at: seq<nat>, text: string) returns (next: seq<nat>)
    requires AreSpelled(s, at, text)
    ensures AreSpelled(s + [c], next, text + if c == ',' || IsBlank(c) then "" else [c])
  {
    PickedPush(s, c);
    PickOneMore(s, c, at, text);
    hide NeitherCommaNorBlank, IsPicked, IsBlank;
    if c == ',' || IsBlank(c) {
      assert NeitherCommaNorBlank(s) + {} == NeitherCommaNorBlank(s);
      assert text + "" == text;
      next := at;
    } else {
      ListsPush(at, NeitherCommaNorBlank(s), |s|);
      next := at + [|s|];
    }
  }

  lemma NothingSpelled()
    ensures AreSpelled("", [], Erase(Squeeze("")))
  {
  }

  lemma {:induction false} SqueezedAre(s: string) returns (at: seq<nat>)
    ensures AreSpelled(s, at, Erase(Squeeze(s)))
  {
    hide IsBlank, Erase, Squeeze, AreSpelled;
    if s == "" {
      NothingSpelled();
      at := [];
    } else {
      var front, c := s[..|s| - 1], s[|s| - 1];
      assert s == front + [c];
      at := SqueezedAre(front);
      SqueezePush(front, c);
      at := SpellOneMore(front, c, at, Erase(Squeeze(front)));
    }
  }

  lemma PickOneMore(s: string, c: char, at: seq<nat>, text: string)
    requires IsPicked(s, at, text)
    ensures IsPicked(s + [c], at, text) && IsPicked(s + [c], at + [|s|], text + [c])
  {
  }

  /** A figure in prose is exactly what its characters but commas and white space spell, or none. */
  lemma {:induction false} ProseIsExact(digits: string, shift: nat, d: Decimal, p: int)
    requires d.WellFormed() && Spells(digits, d.Written())
    ensures ProseToPaise(digits, Some(shift)) == Some(p) <==>
      |d.fraction| <= shift && p * Pow10(|d.fraction|) == d.SignedDigits() * Pow10(shift)
    ensures ProseToPaise(digits, None) == None
  {
    hide Read, IsBlank, Squeeze, Erase, Trim, Pow10;
    var s := Squeeze(digits);
    var at := SqueezedAre(digits);
    var b :| Lists(b, NeitherCommaNorBlank(digits)) && IsPicked(digits, b, d.Written());
    ListedAlike(at, b, NeitherCommaNorBlank(digits));
    assert Erase(s) == d.Written();
    SqueezeHasNoBlank(digits);
    TrimNothing(s);
    AmountIsExact(s, shift, d, p);
  }
}
