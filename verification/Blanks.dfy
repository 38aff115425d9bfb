/**
 * White space, commas and letter case: what is passed over when a text is read.
 */
module Blanks {
  import PageText

  predicate IsBlank(c: char) {
    var n := c as int;
    n < 0x1_0000 && PageText.IsSpace(n as PageText.Unit)
  }

  ghost predicate AllBlank(s: string) {
    forall i :: 0 <= i < |s| ==> IsBlank(s[i])
  }

  function Trim(s: string): string {
    if s != "" && IsBlank(s[0]) then Trim(s[1..])
    else if s != "" && IsBlank(s[|s| - 1]) then Trim(s[..|s| - 1])
    else s
  }

  function Erase(s: string): string {
    if s == "" then "" else (if s[0] == ',' then "" else [s[0]]) + Erase(s[1..])
  }

  lemma {:induction false} EraseConcat(a: string, b: string)
    ensures Erase(a + b) == Erase(a) + Erase(b)
  {
    if a == "" {
      assert a + b == b;
    } else {
      assert (a + b)[1..] == a[1..] + b;
      EraseConcat(a[1..], b);
    }
  }

  lemma {:induction false} EraseNothing(s: string)
    requires ',' !in s
    ensures Erase(s) == s
  {
    if s != "" {
      EraseNothing(s[1..]);
    }
  }

  lemma {:induction false} EraseLeavesNoComma(s: string)
    ensures ',' !in Erase(s)
  {
    if s != "" {
      EraseLeavesNoComma(s[1..]);
    }
  }

  lemma {:induction false} TrimCuts(s: string) returns (a: string, b: string)
    ensures s == a + Trim(s) + b && AllBlank(a) && AllBlank(b)
    decreases |s|
  {
    hide IsBlank;
    a, b := "", "";
    if s != "" && IsBlank(s[0]) {
      a, b := TrimCuts(s[1..]);
      a := [s[0]] + a;
    } else if s != "" && IsBlank(s[|s| - 1]) {
      a, b := TrimCuts(s[..|s| - 1]);
      b := b + [s[|s| - 1]];
    }
  }

  lemma {:induction false} TrimIgnoresBlanks(a: string, s: string, b: string)
    requires AllBlank(a) && AllBlank(b)
    ensures Trim(a + s + b) == Trim(s)
    decreases |a| + |b|
  {
    var t := a + s + b;
    if a != "" {
      assert t[1..] == a[1..] + s + b;
      TrimIgnoresBlanks(a[1..], s, b);
    } else if b != "" {
      var front := b[..|b| - 1];
      TrimIgnoresBlanks(a, s, front);
      TrimDropsLast(s + front, b[|b| - 1]);
      assert t == s + front + [b[|b| - 1]];
      assert a + s + front == s + front;
    } else {
      assert t == s;
    }
  }

  lemma {:induction false} TrimDropsLast(s: string, c: char)
    requires IsBlank(c)
    ensures Trim(s + [c]) == Trim(s)
  {
    var t := s + [c];
    if s != "" && IsBlank(s[0]) {
      assert t[1..] == s[1..] + [c];
      TrimDropsLast(s[1..], c);
    } else if s == "" {
      assert t[1..] == "";
    } else {
      assert t[..|t| - 1] == s;
    }
  }

  lemma BlankIsNotLetter(c: char)
    requires IsBlank(c)
    ensures !('a' <= c <= 'z') && !('0' <= c <= '9') && c != '-' && c != '.' && c != ','
  {
  }

  lemma {:induction false} TrimAddsNothing(s: string)
    ensures forall c :: c in Trim(s) ==> c in s
  {
    var a, b := TrimCuts(s);
  }

  lemma BlanksHaveNoComma(s: string)
    requires AllBlank(s)
    ensures Erase(s) == s
  {
    forall i | 0 <= i < |s| ensures s[i] != ',' {
      BlankIsNotLetter(s[i]);
    }
    EraseNothing(s);
  }

  function Lower(s: string): (t: string)
    ensures |t| == |s|
  {
    seq(|s|, i requires 0 <= i < |s| =>
      if 'A' <= s[i] <= 'Z' then (s[i] as int - 'A' as int + 'a' as int) as char else s[i])
  }

  /** Capitals become the small letters; everything else stays. */
  lemma LowerIs(s: string)
    ensures Lower("ABCDEFGHIJKLMNOPQRSTUVWXYZ") == "abcdefghijklmnopqrstuvwxyz"
    ensures (forall i :: 0 <= i < |s| ==> !('A' <= s[i] <= 'Z')) ==> Lower(s) == s
  {
  }
}
