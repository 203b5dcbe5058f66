/** String operations shared by the worker and the mention bot: substring
    search (`includes` / `in`), removal of every occurrence (`str.replace(p, '')`),
    whitespace stripping (`str.strip()`), ASCII lower-casing and decimal rendering. */
module Text {

  /** `p` occurs in `s` starting at index `i`. */
  predicate OccursAt(s: string, p: string, i: int) {
    0 <= i && i + |p| <= |s| && s[i..i + |p|] == p
  }

  /** `s.includes(p)` in JavaScript, `p in s` in Python; the empty pattern occurs everywhere. */
  predicate Contains(s: string, p: string) {
    exists i | 0 <= i <= |s| - |p| :: OccursAt(s, p, i)
  }

  lemma ContainsAt(s: string, p: string, i: int)
    requires OccursAt(s, p, i)
    ensures Contains(s, p)
  {
  }

  /** A pattern with a character that never appears in `s` cannot occur in `s`. */
  lemma MissingCharNotContained(s: string, p: string, k: int)
    requires 0 <= k < |p|
    requires p[k] !in s
    ensures !Contains(s, p)
  {
    forall i | 0 <= i <= |s| - |p|
      ensures !OccursAt(s, p, i)
    {
      assert s[i..i + |p|][k] == s[i + k];
    }
  }

  /** An occurrence in `a + sep + b` lies wholly in `a` or wholly in `b` when
      the separator is non-empty and shares no character with the pattern. */
  lemma ContainsAcrossSeparator(a: string, sep: string, b: string, p: string)
    requires |sep| > 0
    requires forall k :: 0 <= k < |sep| ==> sep[k] !in p
    ensures Contains(a + sep + b, p) <==> Contains(a, p) || Contains(b, p)
  {
    var s := a + sep + b;
    if Contains(a, p) {
      ContainsInPrefix(a, sep + b, p);
      assert a + (sep + b) == s;
    }
    if Contains(b, p) {
      ContainsInSuffix(a + sep, b, p);
    }
    if |p| == 0 {
      ContainsAt(a, p, 0);
    } else if Contains(s, p) {
      var i :| 0 <= i <= |s| - |p| && OccursAt(s, p, i);
      OccurrenceAvoidsSeparator(a, sep, b, p, i);
    }
  }

  lemma ContainsInPrefix(a: string, c: string, p: string)
    requires Contains(a, p)
    ensures Contains(a + c, p)
  {
    var i :| 0 <= i <= |a| - |p| && OccursAt(a, p, i);
    assert (a + c)[i..i + |p|] == a[i..i + |p|];
    ContainsAt(a + c, p, i);
  }

  lemma ContainsInSuffix(c: string, b: string, p: string)
    requires Contains(b, p)
    ensures Contains(c + b, p)
  {
    var i :| 0 <= i <= |b| - |p| && OccursAt(b, p, i);
    assert (c + b)[|c| + i..|c| + i + |p|] == b[i..i + |p|];
    ContainsAt(c + b, p, |c| + i);
  }

  /** A non-empty occurrence cannot overlap a separator it shares no character with. */
  lemma OccurrenceAvoidsSeparator(a: string, sep: string, b: string, p: string, i: int)
    requires |sep| > 0 && |p| > 0
    requires forall k :: 0 <= k < |sep| ==> sep[k] !in p
    requires OccursAt(a + sep + b, p, i)
    ensures Contains(a, p) || Contains(b, p)
  {
    var s := a + sep + b;
    var off := |a| + |sep|;
    if i + |p| <= |a| {
      assert a[i..i + |p|] == s[i..i + |p|];
      ContainsAt(a, p, i);
    } else if off <= i {
      assert b[i - off..i - off + |p|] == s[i..i + |p|];
      ContainsAt(b, p, i - off);
    } else {
      StraddleFails(a, sep, b, p, i);
    }
  }

  /** A window that covers part of the separator is not an occurrence. */
  lemma StraddleFails(a: string, sep: string, b: string, p: string, i: int)
    requires |sep| > 0 && |p| > 0
    requires forall k :: 0 <= k < |sep| ==> sep[k] !in p
    requires 0 <= i < |a| + |sep| && |a| < i + |p|
    ensures !OccursAt(a + sep + b, p, i)
  {
    var s := a + sep + b;
    // the window starting at i covers separator position t
    var t := if i < |a| then |a| else i;
    if i + |p| <= |s| {
      assert s[i..i + |p|][t - i] == s[t] == sep[t - |a|];
    }
  }

  /** Python's `str.replace(p, r)` for a non-empty `p`: a left-to-right scan
      that replaces non-overlapping occurrences. */
  function Replace(s: string, p: string, r: string): string
    requires |p| > 0
    decreases |s|
  {
    if |s| < |p| then s
    else if s[..|p|] == p then r + Replace(s[|p|..], p, r)
    else [s[0]] + Replace(s[1..], p, r)
  }

  /** Removing a pattern never lengthens the string, and it shortens it
      exactly when the pattern occurs. */
  lemma {:induction false} RemoveShrinks(s: string, p: string)
    requires |p| > 0
    ensures |Replace(s, p, "")| <= |s|
    ensures Contains(s, p) <==> |Replace(s, p, "")| < |s|
    decreases |s|
  {
    if |s| < |p| {
    } else if s[..|p|] == p {
      RemoveShrinks(s[|p|..], p);
      ContainsAt(s, p, 0);
    } else {
      RemoveShrinks(s[1..], p);
      ContainsPastMismatch(s, p);
    }
  }

  /** When `s` does not start with `p`, `p` occurs in `s` iff it occurs after the first character. */
  lemma ContainsPastMismatch(s: string, p: string)
    requires |p| > 0 && |s| >= |p| && s[..|p|] != p
    ensures Contains(s, p) <==> Contains(s[1..], p)
  {
    var t := s[1..];
    if Contains(s, p) {
      var i :| 0 <= i <= |s| - |p| && OccursAt(s, p, i);
      assert i != 0 by {
        assert s[0..|p|] == s[..|p|];
      }
      assert t[i - 1..i - 1 + |p|] == s[i..i + |p|];
      ContainsAt(t, p, i - 1);
    }
    if Contains(t, p) {
      var i :| 0 <= i <= |t| - |p| && OccursAt(t, p, i);
      assert s[i + 1..i + 1 + |p|] == t[i..i + |p|];
      ContainsAt(s, p, i + 1);
    }
  }

  /** `s.replace(p, '')`, including Python's rule that an empty `p` leaves `s`
      as it is. Without an occurrence nothing changes; otherwise the text
      before the leftmost occurrence is kept, the occurrence is cut, and the
      scan resumes right after it. */
  function Remove(s: string, p: string): (r: string)
    ensures |r| <= |s|
    ensures p != "" ==> (Contains(s, p) <==> |r| < |s|)
    ensures p == "" || !Contains(s, p) ==> r == s
    ensures p != "" ==> forall i :: FirstOccurrence(s, p, i) ==> r == s[..i] + Replace(s[i + |p|..], p, "")
  {
    if p == "" then s
    else
      RemoveShrinks(s, p);
      RemoveIdentityIff(s, p);
      RemoveAtEveryFirst(s, p);
      Replace(s, p, "")
  }

  /** `p` occurs at `i` and nowhere before it. */
  predicate FirstOccurrence(s: string, p: string, i: int) {
    OccursAt(s, p, i) && forall j :: 0 <= j < i ==> !OccursAt(s, p, j)
  }

  /** Removal keeps the text before the leftmost occurrence, cuts that
      occurrence, and goes on with the rest. */
  lemma RemoveAtFirst(s: string, p: string, i: int)
    requires |p| > 0
    requires FirstOccurrence(s, p, i)
    ensures Replace(s, p, "") == s[..i] + Replace(s[i + |p|..], p, "")
  {
    FirstOccurrenceIsFirstIndex(s, p, i);
    RemoveAtFirstIndex(s, p, i);
  }

  /** Where the removal scan first cuts: the index of the leftmost
      occurrence, or -1 when there is none. */
  function FirstIndex(s: string, p: string): (i: int)
    requires |p| > 0
    ensures -1 <= i && i + |p| <= |s| + (if i < 0 then |p| else 0)
    decreases |s|
  {
    if |s| < |p| then -1
    else if s[..|p|] == p then 0
    else
      var k := FirstIndex(s[1..], p);
      if k < 0 then -1 else k + 1
  }

  lemma {:induction false} FirstOccurrenceIsFirstIndex(s: string, p: string, i: int)
    requires |p| > 0
    requires FirstOccurrence(s, p, i)
    ensures FirstIndex(s, p) == i
    decreases i
  {
    if i == 0 {
      assert s[..|p|] == s[0..|p|];
    } else {
      FirstOccurrenceShifts(s, p, i);
      FirstOccurrenceIsFirstIndex(s[1..], p, i - 1);
    }
  }

  lemma {:induction false} RemoveAtFirstIndex(s: string, p: string, i: int)
    requires |p| > 0
    requires i == FirstIndex(s, p) && i >= 0
    ensures i + |p| <= |s|
    ensures Replace(s, p, "") == s[..i] + Replace(s[i + |p|..], p, "")
    decreases |s|, 1
  {
    if s[..|p|] == p {
      assert s[0..|p|] == s[..|p|];
      RemoveAtStart(s, p);
    } else {
      RemoveAfterFirstChar(s, p, i);
    }
  }

  /** The leftmost occurrence lies past the first character: the scan keeps
      that character and cuts one place earlier in the rest. */
  lemma {:induction false} RemoveAfterFirstChar(s: string, p: string, i: int)
    requires |p| > 0 && |s| >= |p| && s[..|p|] != p
    requires i == FirstIndex(s, p) && i >= 0
    ensures i + |p| <= |s|
    ensures Replace(s, p, "") == s[..i] + Replace(s[i + |p|..], p, "")
    decreases |s|, 0
  {
    var k := FirstIndex(s[1..], p);
    assert i == k + 1;
    RemoveAtFirstIndex(s[1..], p, k);
    ReplacePastMismatch(s, p);
    KeepFirstThenCut(s, p, i, k);
  }

  /** A pattern in front of text that does not hold it is all removal takes away. */
  lemma RemoveLeading(p: string, x: string)
    requires |p| > 0
    requires !Contains(x, p)
    ensures Remove(p + x, p) == x
  {
    var s := p + x;
    assert s[0..|p|] == p;
    RemoveAtStart(s, p);
    assert s[|p|..] == x;
    RemoveAbsent(x, p);
    assert s[..0] + x == x;
  }

  /** The scan cuts an occurrence it starts on. */
  lemma RemoveAtStart(s: string, p: string)
    requires |p| > 0 && OccursAt(s, p, 0)
    ensures Replace(s, p, "") == s[..0] + Replace(s[|p|..], p, "")
  {
    assert s[..|p|] == s[0..|p|] == p;
    assert s[..0] == "";
  }

  /** A cut at `i - 1` in the rest, behind a kept first character, is a cut at `i`. */
  lemma KeepFirstThenCut(s: string, p: string, i: int, k: int)
    requires |p| > 0 && |s| > 0 && i == k + 1
    requires 0 <= k && k + |p| <= |s[1..]|
    requires Replace(s, p, "") == [s[0]] + Replace(s[1..], p, "")
    requires Replace(s[1..], p, "") == s[1..][..k] + Replace(s[1..][k + |p|..], p, "")
    ensures Replace(s, p, "") == s[..i] + Replace(s[i + |p|..], p, "")
  {
    var rest := Replace(s[i + |p|..], p, "");
    assert s[1..][k + |p|..] == s[i + |p|..];
    AppendAssoc([s[0]], s[1..][..k], rest);
    assert [s[0]] + s[1..][..k] == s[..i];
  }

  lemma AppendAssoc(a: string, b: string, c: string)
    ensures a + (b + c) == (a + b) + c
  {
  }

  /** The scan keeps a first character that does not start an occurrence. */
  lemma ReplacePastMismatch(s: string, p: string)
    requires |p| > 0 && |s| >= |p| && s[..|p|] != p
    ensures Replace(s, p, "") == [s[0]] + Replace(s[1..], p, "")
  {
  }

  /** A leftmost occurrence past the first character is not at the start,
      and is the leftmost one, one place earlier, in the rest. */
  lemma FirstOccurrenceShifts(s: string, p: string, i: int)
    requires |p| > 0 && i > 0
    requires FirstOccurrence(s, p, i)
    ensures |s| >= |p| && s[..|p|] != p
    ensures FirstOccurrence(s[1..], p, i - 1)
  {
    var t := s[1..];
    assert s[..|p|] != p by {
      assert !OccursAt(s, p, 0);
      assert s[0..|p|] == s[..|p|];
    }
    assert t[i - 1..i - 1 + |p|] == s[i..i + |p|];
    forall j | 0 <= j < i - 1 ensures !OccursAt(t, p, j) {
      assert t[j..j + |p|] == s[j + 1..j + 1 + |p|];
      assert !OccursAt(s, p, j + 1);
    }
  }

  lemma RemoveAtEveryFirst(s: string, p: string)
    requires |p| > 0
    ensures forall i :: FirstOccurrence(s, p, i) ==> Replace(s, p, "") == s[..i] + Replace(s[i + |p|..], p, "")
  {
    forall i | FirstOccurrence(s, p, i)
      ensures Replace(s, p, "") == s[..i] + Replace(s[i + |p|..], p, "")
    {
      RemoveAtFirst(s, p, i);
    }
  }

  /** Removing a pattern is the identity exactly when the pattern does not occur. */
  lemma RemoveIdentityIff(s: string, p: string)
    requires |p| > 0
    ensures Replace(s, p, "") == s <==> !Contains(s, p)
  {
    RemoveShrinks(s, p);
    if !Contains(s, p) {
      RemoveAbsent(s, p);
    }
  }

  lemma {:induction false} RemoveAbsent(s: string, p: string)
    requires |p| > 0
    requires !Contains(s, p)
    ensures Replace(s, p, "") == s
    decreases |s|
  {
    if |s| < |p| {
    } else if s[..|p|] == p {
      ContainsAt(s, p, 0);
    } else {
      var t := s[1..];
      if Contains(t, p) {
        var i :| 0 <= i <= |t| - |p| && OccursAt(t, p, i);
        assert s[i + 1..i + 1 + |p|] == t[i..i + |p|];
        ContainsAt(s, p, i + 1);
      }
      RemoveAbsent(t, p);
      assert s == [s[0]] + t;
    }
  }

  /** One pass of removal can leave the pattern behind: the pieces around a
      removed occurrence may join into a new one. */
  lemma RemovalCanLeavePattern()
    ensures Replace("memmemoo", "memo", "") == "memo"
    ensures Contains(Replace("memmemoo", "memo", ""), "memo")
  {
    var s := "memmemoo";
    assert s[..4][3] != "memo"[3];
    assert s[1..][..4][0] != "memo"[0];
    assert s[2..][..4][1] != "memo"[1];
    assert s[3..][..4] == "memo";
    assert Replace(s[7..], "memo", "") == "o";
    assert Replace(s[3..], "memo", "") == "o";
    assert Replace(s[2..], "memo", "") == "mo";
    assert Replace(s[1..], "memo", "") == "emo";
    ContainsAt("memo", "memo", 0);
  }

  /** The characters Python's `str.isspace()` accepts. */
  predicate IsSpace(c: char) {
    || c == ' ' || ('\t' <= c <= '\r') || ('\U{1C}' <= c <= '\U{1F}')
    || c == '\U{85}' || c == '\U{A0}' || c == '\U{1680}'
    || ('\U{2000}' <= c <= '\U{200A}') || c == '\U{2028}' || c == '\U{2029}'
    || c == '\U{202F}' || c == '\U{205F}' || c == '\U{3000}'
  }

  predicate AllSpace(s: string) {
    forall k :: 0 <= k < |s| ==> IsSpace(s[k])
  }

  /** The index of the first non-whitespace character at or after `i`, or `|s|`. */
  function SkipSpace(s: string, i: nat): (j: nat)
    requires i <= |s|
    ensures i <= j <= |s|
    ensures forall k :: i <= k < j ==> IsSpace(s[k])
    ensures j < |s| ==> !IsSpace(s[j])
    decreases |s| - i
  {
    if i < |s| && IsSpace(s[i]) then SkipSpace(s, i + 1) else i
  }

  /** The index just past the last non-whitespace character before `e`, or 0. */
  function BackSpace(s: string, e: nat): (j: nat)
    requires e <= |s|
    ensures j <= e
    ensures forall k :: j <= k < e ==> IsSpace(s[k])
    ensures j > 0 ==> !IsSpace(s[j - 1])
  {
    if e > 0 && IsSpace(s[e - 1]) then BackSpace(s, e - 1) else e
  }

  /** How many whitespace characters `s` starts with. */
  function LeadingSpace(s: string): (n: nat)
    ensures n <= |s|
    ensures forall k :: 0 <= k < n ==> IsSpace(s[k])
    ensures n < |s| ==> !IsSpace(s[n])
  {
    SkipSpace(s, 0)
  }

  /** Python's `str.strip()` with no arguments: the slice of `s` left after
      dropping leading and trailing whitespace. */
  function Strip(s: string): (r: string)
    ensures r == "" <==> AllSpace(s)
    ensures Stripped(r)
    ensures var i := LeadingSpace(s);
            && i + |r| <= |s| && s[i..i + |r|] == r
            && (forall k :: 0 <= k < i ==> IsSpace(s[k]))
            && (forall k :: i + |r| <= k < |s| ==> IsSpace(s[k]))
  {
    var i := LeadingSpace(s);
    var e := BackSpace(s, |s|);
    if e <= i then
      assert forall k :: 0 <= k < |s| ==> IsSpace(s[k]) by {
        forall k | 0 <= k < |s| ensures IsSpace(s[k]) {
          if k >= i {
            assert k >= e;
          }
        }
      }
      ""
    else
      assert s[i..e][0] == s[i] && s[i..e][e - i - 1] == s[e - 1];
      s[i..e]
  }

  /** Neither end is whitespace. */
  predicate Stripped(s: string) {
    s == "" || (!IsSpace(s[0]) && !IsSpace(s[|s| - 1]))
  }

  /** Stripping a string whose ends are not whitespace changes nothing. */
  lemma StrippedFixed(s: string)
    requires Stripped(s)
    ensures Strip(s) == s
  {
    if s != "" {
      assert LeadingSpace(s) == 0;
      assert BackSpace(s, |s|) == |s|;
      assert s[0..|s|] == s;
    }
  }

  /** One leading space in front of a stripped text is all `strip()` removes. */
  lemma StripAfterSpace(x: string)
    requires Stripped(x)
    ensures Strip(" " + x) == x
  {
    var s := " " + x;
    var r := Strip(s);
    if x == "" {
      assert AllSpace(s);
    } else {
      assert s[1] == x[0];
      assert LeadingSpace(s) == 1;
      assert !IsSpace(s[|s| - 1]);
      assert 1 + |r| == |s|;
      assert r == s[1..];
    }
  }

  /** Stripping a stripped string changes nothing. */
  lemma StripIdempotent(s: string)
    ensures Strip(Strip(s)) == Strip(s)
  {
    StrippedFixed(Strip(s));
  }

  /** The case mapping of `toLowerCase()` / `lower()` restricted to ASCII letters. */
  function LowerChar(c: char): char {
    if 'A' <= c <= 'Z' then (c as int + 32) as char else c
  }

  function AsciiLower(s: string): (r: string)
    ensures |r| == |s|
    ensures forall k :: 0 <= k < |s| ==> r[k] == LowerChar(s[k])
  {
    if s == "" then "" else [LowerChar(s[0])] + AsciiLower(s[1..])
  }

  /** Lower-casing twice is lower-casing once. */
  lemma AsciiLowerIdempotent(s: string)
    ensures AsciiLower(AsciiLower(s)) == AsciiLower(s)
  {
    var once := AsciiLower(s);
    var twice := AsciiLower(once);
    assert forall k :: 0 <= k < |s| ==> twice[k] == once[k];
  }

  /** Lower-casing keeps every occurrence, lower-cased, where it was. */
  lemma LowerKeepsOccurrence(s: string, p: string, i: int)
    requires OccursAt(s, p, i)
    ensures OccursAt(AsciiLower(s), AsciiLower(p), i)
  {
    var ls, lp := AsciiLower(s), AsciiLower(p);
    forall k | 0 <= k < |p| ensures ls[i..i + |p|][k] == lp[k] {
      assert s[i + k] == p[k];
    }
  }

  predicate IsDigit(c: char) {
    '0' <= c <= '9'
  }

  function DigitChar(d: nat): char
    requires d < 10
  {
    ('0' as int + d) as char
  }

  /** Decimal rendering of a natural number, as a template literal or f-string prints it. */
  function NatToString(n: nat): (r: string)
    ensures |r| >= 1
    ensures forall k :: 0 <= k < |r| ==> IsDigit(r[k])
    ensures |r| > 1 ==> r[0] != '0'
  {
    if n < 10 then [DigitChar(n)] else NatToString(n / 10) + [DigitChar(n % 10)]
  }

  /** Decimal rendering of an integer, with a leading minus sign when negative. */
  function IntToString(n: int): (r: string)
    ensures |r| >= 1
    ensures n >= 0 <==> r[0] != '-'
  {
    if n < 0 then "-" + NatToString(-n) else NatToString(n)
  }

  /** The value of a string of decimal digits. */
  function DigitsValue(s: string): nat
    requires forall k :: 0 <= k < |s| ==> IsDigit(s[k])
  {
    if s == "" then 0
    else
      assert IsDigit(s[|s| - 1]);
      10 * DigitsValue(s[..|s| - 1]) + (s[|s| - 1] as int - '0' as int)
  }

  /** Reading back the decimal rendering gives the number that was rendered. */
  lemma {:induction false} NatToStringRoundTrip(n: nat)
    ensures DigitsValue(NatToString(n)) == n
  {
    if n >= 10 {
      NatToStringRoundTrip(n / 10);
      var r := NatToString(n);
      assert r[..|r| - 1] == NatToString(n / 10);
    }
  }

  /** A decimal rendering contains no character outside `0`..`9`. */
  lemma NatToStringLacks(n: nat, c: char)
    requires !IsDigit(c)
    ensures c !in NatToString(n)
  {
  }
}
