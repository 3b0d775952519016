/** The regular expressions of visualizer.py, each as the pure string
    function that it computes on a single line (no line contains a
    newline, so `.` matches every character). */
module Patterns {
  import opened Wrappers
  import opened Strings

  // ---------------------------------------------------------------------
  // Comments

  /** `line.split('%')[0]`: the text before the first `%`, with no escape
      handling (a `\%` still starts a comment). */
  function StripComment(line: string): (r: string)
    ensures r <= line
    ensures '%' !in r
    ensures |r| < |line| ==> line[|r|] == '%'
  {
    var parts := Split(line, "%");
    CharOccurrence(parts[0], '%');
    assert |parts| > 1 ==> line[|parts[0]|..|parts[0]| + 1] == "%";
    parts[0]
  }

  // ---------------------------------------------------------------------
  // Markers matched by `re.match('.*' + literal, line)`

  /** The marker of hierarchy level `h`: a backslash followed by the name. */
  function LevelMarker(h: string): string {
    "\\" + h
  }

  function BeginMarker(t: string): string {
    "\\begin{" + t + "}"
  }

  function EndMarker(t: string): string {
    "\\end{" + t + "}"
  }

  const EndProofMarker: string := "\\end{proof}"
  const QedMarker: string := "\\qed"

  // ---------------------------------------------------------------------
  // `re.match(r'.*\\label\{(.*?)\}', line)`

  const LabelOpen: string := "\\label{"

  /** A `\label{` starts at `i` and a `}` follows it somewhere: the
      positions where the lazy group can complete a match. */
  predicate LabelAt(s: string, i: int) {
    OccursAt(s, LabelOpen, i) && Contains(s[i + |LabelOpen|..], "}")
  }

  /** The group captured at `i`: everything up to the first `}`. */
  function LabelCapture(s: string, i: int): (c: string)
    requires LabelAt(s, i)
    ensures '}' !in c
    ensures OccursAt(s, LabelOpen + c + "}", i)
  {
    var rest := s[i + |LabelOpen|..];
    var j := IndexOf(rest, "}").value;
    assert !Contains(rest[..j], "}") by {
      forall m | 0 <= m <= j
        ensures !OccursAt(rest[..j], "}", m)
      {
        if m < j {
          assert !OccursAt(rest, "}", m);
          assert rest[..j][m..m + 1] == rest[m..m + 1];
        }
      }
    }
    CharOccurrence(rest[..j], '}');
    assert s[i..i + |LabelOpen| + j + 1] == LabelOpen + rest[..j] + "}" by {
      assert rest[j..j + 1] == "}";
      assert s[i..i + |LabelOpen|] == LabelOpen;
      SliceOfSuffix(s, i + |LabelOpen|, 0, j + 1);
    }
    rest[..j]
  }

  /** The last label position below `n`. */
  function LastLabelBelow(s: string, n: nat): (r: Option<nat>)
    ensures r.Some? ==> r.value < n && LabelAt(s, r.value)
    ensures r.Some? ==> forall j :: r.value < j < n ==> !LabelAt(s, j)
    ensures r.None? ==> forall j :: 0 <= j < n ==> !LabelAt(s, j)
    decreases n
  {
    if n == 0 then None
    else if LabelAt(s, n - 1) then Some(n - 1)
    else LastLabelBelow(s, n - 1)
  }

  /** The greedy `.*` backtracks from the end of the line, so the match
      uses the LAST `\label{` that some `}` follows; the lazy group then
      stops at the first `}` after it. */
  function MatchLabel(s: string): (r: Option<string>)
    ensures r.None? <==> forall i :: 0 <= i <= |s| ==> !LabelAt(s, i)
    ensures r.Some? ==> exists i :: 0 <= i <= |s| && LabelAt(s, i) && r.value == LabelCapture(s, i)
                                 && forall j :: i < j <= |s| ==> !LabelAt(s, j)
  {
    match LastLabelBelow(s, |s| + 1)
    case None => None
    case Some(i) => Some(LabelCapture(s, i))
  }

  // ---------------------------------------------------------------------
  // `re.findall(r'\\ref\{(.*?)\}', line)`

  const RefOpen: string := "\\ref{"

  /** Non-overlapping matches, left to right. A `\ref{` with no `}` after
      it fails to match and the search moves on by one character. */
  function FindRefs(s: string): (refs: seq<string>)
    ensures forall k :: 0 <= k < |refs| ==> '}' !in refs[k]
    ensures |refs| > 0 ==> Contains(s, RefOpen)
    decreases |s|
  {
    if |s| < |RefOpen| then []
    else if s[..|RefOpen|] == RefOpen then
      assert OccursAt(s, RefOpen, 0);
      var rest := s[|RefOpen|..];
      match IndexOf(rest, "}")
      case Some(j) =>
        assert !Contains(rest[..j], "}") by {
          forall m | 0 <= m <= j
            ensures !OccursAt(rest[..j], "}", m)
          {
            if m < j {
              assert !OccursAt(rest, "}", m);
              assert rest[..j][m..m + 1] == rest[m..m + 1];
            }
          }
        }
        CharOccurrence(rest[..j], '}');
        [rest[..j]] + FindRefs(rest[j + 1..])
      case None =>
        FindRefs(s[1..])
    else
      var tail := FindRefs(s[1..]);
      ContainsInTail(s);
      tail
  }

  /** A `\ref{` after the first character is one of the whole line. */
  lemma ContainsInTail(s: string)
    requires |s| > 0
    ensures Contains(s[1..], RefOpen) ==> Contains(s, RefOpen)
  {
    if Contains(s[1..], RefOpen) {
      var i :| 0 <= i <= |s[1..]| && OccursAt(s[1..], RefOpen, i);
      assert s[1..][i..i + |RefOpen|] == s[i + 1..i + 1 + |RefOpen|];
      assert OccursAt(s, RefOpen, i + 1);
    }
  }

  /** How a list of references reads when each is written as `\ref{r}`. */
  function RefsText(refs: seq<string>): string {
    if |refs| == 0 then "" else RefOpen + refs[0] + "}" + RefsText(refs[1..])
  }

  /** A `\ref{r}` at the start of a line is found first, then the search
      resumes after its brace. */
  lemma FindRefsFirst(r: string, rest: string)
    requires '}' !in r
    ensures FindRefs(RefOpen + r + "}" + rest) == [r] + FindRefs(rest)
  {
    var s := RefOpen + r + "}" + rest;
    assert s[..|RefOpen|] == RefOpen;
    var tail := s[|RefOpen|..];
    assert tail == r + "}" + rest;
    FirstCharOccurrence(r, '}', rest);
    assert tail[..|r|] == r;
    assert tail[|r| + 1..] == rest;
  }

  /** Reading back references written as `\ref{..}` yields them again,
      in the same order. */
  lemma {:induction false} FindRefsRoundTrip(refs: seq<string>)
    requires forall k :: 0 <= k < |refs| ==> '}' !in refs[k]
    ensures FindRefs(RefsText(refs)) == refs
  {
    if |refs| > 0 {
      FindRefsFirst(refs[0], RefsText(refs[1..]));
      FindRefsRoundTrip(refs[1..]);
    }
  }

  // ---------------------------------------------------------------------
  // `re.match('\\\\newlabel\{([a-zA-Z:0-9=]+)\}', line)` on an aux line

  const NewLabelOpen: string := "\\newlabel{"

  predicate IsKeyChar(c: char) {
    'a' <= c <= 'z' || 'A' <= c <= 'Z' || '0' <= c <= '9' || c == ':' || c == '='
  }

  /** A string the group `[a-zA-Z:0-9=]+` matches in full. */
  predicate IsKey(k: string) {
    |k| > 0 && forall m :: 0 <= m < |k| ==> IsKeyChar(k[m])
  }

  predicate StartsWith(s: string, p: string) {
    |p| <= |s| && s[..|p|] == p
  }

  /** Length of the longest prefix of key characters. */
  function KeyRun(s: string): (n: nat)
    ensures n <= |s|
    ensures forall m :: 0 <= m < n ==> IsKeyChar(s[m])
    ensures n < |s| ==> !IsKeyChar(s[n])
  {
    if |s| == 0 || !IsKeyChar(s[0]) then 0 else 1 + KeyRun(s[1..])
  }

  /** The key a `\newlabel` line declares. The greedy key group cannot
      swallow the `}` that must follow it, so it is the whole run of key
      characters after `\newlabel{`. */
  function MatchNewLabel(line: string): (r: Option<string>)
    ensures r.Some? ==> IsKey(r.value) && StartsWith(line, NewLabelOpen + r.value + "}")
    ensures forall k :: IsKey(k) && StartsWith(line, NewLabelOpen + k + "}") ==> r == Some(k)
  {
    if StartsWith(line, NewLabelOpen) then
      var rest := line[|NewLabelOpen|..];
      var n := KeyRun(rest);
      KeyIsRun(line, rest, n);
      if 0 < n < |rest| && rest[n] == '}' then
        assert line[..|NewLabelOpen| + n + 1] == NewLabelOpen + rest[..n] + "}";
        Some(rest[..n])
      else
        None
    else
      None
  }

  /** A key that the pattern accepts is exactly the run of key characters
      after `\newlabel{`, and a `}` follows it. */
  lemma KeyIsRun(line: string, rest: string, n: nat)
    requires StartsWith(line, NewLabelOpen) && rest == line[|NewLabelOpen|..]
    requires n == KeyRun(rest)
    ensures forall k :: IsKey(k) && StartsWith(line, NewLabelOpen + k + "}") ==>
              k == rest[..n] && 0 < n < |rest| && rest[n] == '}'
  {
    forall k | IsKey(k) && StartsWith(line, NewLabelOpen + k + "}")
      ensures k == rest[..n] && 0 < n < |rest| && rest[n] == '}'
    {
      KeyFollowsOpen(line, rest, k);
      RunEndsAtBrace(rest, k);
    }
  }

  /** After `\newlabel{`, an accepted key and its `}` begin the rest. */
  lemma KeyFollowsOpen(line: string, rest: string, k: string)
    requires StartsWith(line, NewLabelOpen + k + "}") && rest == line[|NewLabelOpen|..]
    ensures |k| < |rest| && rest[..|k| + 1] == k + "}"
  {
    var p := NewLabelOpen + k + "}";
    assert rest[..|k| + 1] == p[|NewLabelOpen|..] by {
      assert line[..|p|] == p;
    }
    assert p[|NewLabelOpen|..] == k + "}";
  }

  lemma RunEndsAtBrace(rest: string, k: string)
    requires IsKey(k) && |k| < |rest| && rest[..|k| + 1] == k + "}"
    ensures KeyRun(rest) == |k| && k == rest[..|k|] && rest[|k|] == '}'
  {
    var n := KeyRun(rest);
    assert rest[|k|] == (k + "}")[|k|];
    assert forall m :: 0 <= m < |k| ==> rest[m] == (k + "}")[m];
    assert rest[..|k|] == (k + "}")[..|k|];
  }

  /** `line.split('}{')[-2]`: the second-to-last `}{`-separated segment;
      there is none (an `IndexError`) when `}{` does not occur. */
  function AuxValue(line: string): (r: Option<string>)
    ensures r.None? <==> !Contains(line, "}{")
    ensures r.Some? ==> !Contains(r.value, "}{")
    ensures r.Some? ==> exists j :: PieceBeforeLast(line, "}{", r.value, j)
  {
    var parts := Split(line, "}{");
    SplitPartsAvoidSeparator(line, "}{");
    if |parts| < 2 then None
    else
      var v := parts[|parts| - 2];
      SecondToLastPiece(line, v);
      Some(v)
  }

  lemma SecondToLastPiece(line: string, v: string)
    requires |Split(line, "}{")| >= 2 && v == Split(line, "}{")[|Split(line, "}{")| - 2]
    ensures exists j :: PieceBeforeLast(line, "}{", v, j)
  {
    var j := SplitPieceBeforeLast(line, "}{");
  }

  /** Any `}{`-free text between the last-but-one `}{` (or the start of
      the line) and the last `}{` is the value read. */
  lemma AuxValueExactly(line: string, v: string, j: int)
    requires PieceBeforeLast(line, "}{", v, j) && !Contains(v, "}{")
    ensures AuxValue(line) == Some(v)
  {
    assert Contains(line, "}{");
    var j' :| PieceBeforeLast(line, "}{", AuxValue(line).value, j');
    PieceBeforeLastUnique(line, v, j, AuxValue(line).value, j');
  }

  /** On LaTeX's usual two-field `\newlabel` line the value read keeps
      the brace that opens the printed number. */
  lemma AuxValueTwoFieldLine()
    ensures AuxValue("\\newlabel{a}{{1.2}{3}}") == Some("{1.2")
  {
    var line := "\\newlabel{a}{{1.2}{3}}";
    assert line[11..13] == "}{" && line[17..19] == "}{" && line[13..17] == "{1.2";
    assert line[19..] == "3}}";
    NoBraceJoint("3}}");
    SuffixNone(line, "}{", 19);
    NoBraceJoint("{1.2");
    AuxValueExactly(line, "{1.2", 17);
  }

  /** A text with no `}` directly followed by `{` does not contain `}{`. */
  lemma NoBraceJoint(t: string)
    requires forall i :: 0 <= i < |t| - 1 ==> t[i] != '}' || t[i + 1] != '{'
    ensures !Contains(t, "}{")
  {
    forall i | 0 <= i <= |t| ensures !OccursAt(t, "}{", i) {
      if i + 2 <= |t| {
        assert t[i..i + 2][0] == t[i] && t[i..i + 2][1] == t[i + 1];
      }
    }
  }
}
