/** Literal substring search, `str.split`, `str.join` and `str(int)`: the
    pieces of Python's string library the program relies on. Strings are
    `seq<char>`; a line is given without its terminator. */
module Strings {
  import opened Wrappers

  /** `p` occurs in `s` starting at index `i`. */
  predicate OccursAt(s: string, p: string, i: int) {
    0 <= i && i + |p| <= |s| && s[i..i + |p|] == p
  }

  /** `p` occurs somewhere in `s`. For a literal pattern this is what a
      `re.match` of `.*` followed by the pattern decides on a single line. */
  predicate Contains(s: string, p: string) {
    exists i :: 0 <= i <= |s| && OccursAt(s, p, i)
  }

  /** The first occurrence of `p` in `s` at or after `from`. */
  function IndexOfFrom(s: string, p: string, from: nat): (r: Option<nat>)
    ensures r.Some? ==> from <= r.value && OccursAt(s, p, r.value)
    ensures r.Some? ==> forall j :: from <= j < r.value ==> !OccursAt(s, p, j)
    ensures r.None? ==> forall j :: from <= j ==> !OccursAt(s, p, j)
    decreases |s| - from
  {
    if from + |p| > |s| then None
    else if s[from..from + |p|] == p then Some(from)
    else IndexOfFrom(s, p, from + 1)
  }

  /** The first occurrence of `p` in `s`, as `str.find` reports it. */
  function IndexOf(s: string, p: string): (r: Option<nat>)
    ensures r.Some? <==> Contains(s, p)
    ensures r.Some? ==> OccursAt(s, p, r.value)
    ensures r.Some? ==> forall j :: 0 <= j < r.value ==> !OccursAt(s, p, j)
  {
    IndexOfFrom(s, p, 0)
  }

  /** `s.split(sep)` for a non-empty separator: cut at the leftmost
      occurrence, then keep splitting what follows it. */
  function Split(s: string, sep: string): (parts: seq<string>)
    requires sep != []
    ensures |parts| >= 1
    ensures |parts| == 1 <==> !Contains(s, sep)
    ensures parts[0] <= s
    ensures |parts| > 1 ==> OccursAt(s, sep, |parts[0]|)
    ensures !Contains(parts[0], sep)
    decreases |s|
  {
    match IndexOf(s, sep)
    case None => [s]
    case Some(i) =>
      BeforeFirstOccurrence(s, sep, i);
      [s[..i]] + Split(s[i + |sep|..], sep)
  }

  /** Nothing before the first occurrence of `p` contains `p`. */
  lemma BeforeFirstOccurrence(s: string, p: string, i: nat)
    requires p != [] && i <= |s|
    requires forall j :: 0 <= j < i ==> !OccursAt(s, p, j)
    ensures !Contains(s[..i], p)
  {
    forall j | 0 <= j <= i
      ensures !OccursAt(s[..i], p, j)
    {
      if j + |p| <= i {
        assert !OccursAt(s, p, j);
        assert s[..i][j..j + |p|] == s[j..j + |p|];
      }
    }
  }

  /** No piece of a split contains the separator. */
  lemma {:induction false} SplitPartsAvoidSeparator(s: string, sep: string)
    requires sep != []
    ensures forall k :: 0 <= k < |Split(s, sep)| ==> !Contains(Split(s, sep)[k], sep)
    decreases |s|
  {
    match IndexOf(s, sep)
    case None =>
    case Some(i) =>
      var rest := s[i + |sep|..];
      var tail := Split(rest, sep);
      var parts := Split(s, sep);
      assert parts == [s[..i]] + tail;
      assert parts[1..] == tail;
      SplitPartsAvoidSeparator(rest, sep);
      AvoidTail(parts, sep);
  }

  lemma AvoidTail(parts: seq<string>, sep: string)
    requires |parts| >= 1 && !Contains(parts[0], sep)
    requires forall k :: 0 <= k < |parts[1..]| ==> !Contains(parts[1..][k], sep)
    ensures forall k :: 0 <= k < |parts| ==> !Contains(parts[k], sep)
  {
    forall k | 1 <= k < |parts|
      ensures !Contains(parts[k], sep)
    {
      assert parts[k] == parts[1..][k - 1];
    }
  }

  /** No occurrence of `sep` in `s` starts at or after `from`. */
  predicate NoneFrom(s: string, sep: string, from: int) {
    forall k :: from <= k <= |s| ==> !OccursAt(s, sep, k)
  }

  /** An occurrence in a suffix is one in the whole text, shifted. */
  lemma OccursInSuffix(s: string, sep: string, d: nat, k: int)
    requires d <= |s| && 0 <= k
    ensures OccursAt(s[d..], sep, k) <==> OccursAt(s, sep, k + d)
  {
    if k + |sep| <= |s| - d {
      assert s[d..][k..k + |sep|] == s[k + d..k + d + |sep|];
    }
  }

  /** No occurrence in a suffix from `from` on is none in the whole
      text from the shifted position on. */
  lemma NoneFromSuffix(s: string, sep: string, d: nat, from: nat)
    requires d <= |s| && NoneFrom(s[d..], sep, from)
    ensures NoneFrom(s, sep, from + d)
  {
    forall k | from + d <= k <= |s| ensures !OccursAt(s, sep, k) {
      OccursInSuffix(s, sep, d, k - d);
    }
  }

  /** A suffix without `sep` has no occurrence in the whole text. */
  lemma SuffixNone(s: string, sep: string, d: nat)
    requires d <= |s| && !Contains(s[d..], sep)
    ensures NoneFrom(s, sep, d)
  {
    forall k | d <= k <= |s| ensures !OccursAt(s, sep, k) {
      OccursInSuffix(s, sep, d, k - d);
    }
  }

  /** `v` is the text of `s` that ends at the occurrence of `sep` at `j`,
      which is the last one, and starts at the beginning of `s` or right
      after an earlier occurrence: the piece before the last. */
  predicate PieceBeforeLast(s: string, sep: string, v: string, j: int) {
    && OccursAt(s, sep, j)
    && NoneFrom(s, sep, j + |sep|)
    && |v| <= j && s[j - |v|..j] == v
    && (j == |v| || OccursAt(s, sep, j - |v| - |sep|))
  }

  /** `s.split(sep)[-2]` is the piece before the last occurrence. */
  lemma {:induction false} SplitPieceBeforeLast(s: string, sep: string) returns (j: int)
    requires sep != [] && |Split(s, sep)| >= 2
    ensures PieceBeforeLast(s, sep, Split(s, sep)[|Split(s, sep)| - 2], j)
    decreases |s|, 1
  {
    var i := IndexOf(s, sep).value;
    var rest := s[i + |sep|..];
    SplitAtFirst(s, sep, i);
    if |Split(rest, sep)| == 1 {
      j := SplitPieceBeforeLastFirst(s, sep, i, Split(s, sep), Split(rest, sep));
    } else {
      j := SplitPieceBeforeLastLater(s, sep, i, Split(s, sep), Split(rest, sep));
    }
  }

  /** With no occurrence after the first, at `i`, the piece before the
      last is the text before it. */
  lemma SplitPieceBeforeLastFirst(s: string, sep: string, i: nat, parts: seq<string>, tail: seq<string>)
    returns (j: int)
    requires sep != [] && OccursAt(s, sep, i)
    requires tail == Split(s[i + |sep|..], sep) && |tail| == 1 && parts == [s[..i]] + tail
    ensures |parts| >= 2 && PieceBeforeLast(s, sep, parts[|parts| - 2], j)
  {
    PieceBeforeLastOfCons(parts, s[..i], tail);
    j := FirstPiece(s, sep, i, s[..i]);
  }

  /** With more occurrences after the first, at `i`, the piece before the
      last is that of the text after it. */
  lemma SplitPieceBeforeLastLater(s: string, sep: string, i: nat, parts: seq<string>, tail: seq<string>)
    returns (j: int)
    requires sep != [] && OccursAt(s, sep, i)
    requires tail == Split(s[i + |sep|..], sep) && |tail| >= 2 && parts == [s[..i]] + tail
    ensures |parts| >= 2 && PieceBeforeLast(s, sep, parts[|parts| - 2], j)
    decreases |s|, 0
  {
    var j' := SplitPieceBeforeLast(s[i + |sep|..], sep);
    PieceBeforeLastOfCons(parts, s[..i], tail);
    j := LiftPiece(s, sep, i, tail[|tail| - 2], j');
  }

  /** The piece before the last of `[head] + tail`. */
  lemma PieceBeforeLastOfCons(parts: seq<string>, head: string, tail: seq<string>)
    requires parts == [head] + tail && |parts| >= 2
    ensures parts[|parts| - 2] == if |tail| == 1 then head else tail[|tail| - 2]
  {
  }

  /** A split cuts at the first occurrence and splits the rest. */
  lemma SplitAtFirst(s: string, sep: string, i: nat)
    requires sep != [] && IndexOf(s, sep) == Some(i)
    ensures Split(s, sep) == [s[..i]] + Split(s[i + |sep|..], sep)
  {
  }

  /** Before an occurrence with none after it lies the first piece. */
  lemma FirstPiece(s: string, sep: string, i: nat, v: string) returns (j: int)
    requires OccursAt(s, sep, i) && !Contains(s[i + |sep|..], sep) && v == s[..i]
    ensures PieceBeforeLast(s, sep, v, j)
  {
    SuffixNone(s, sep, i + |sep|);
    j := i;
  }

  /** A piece before the last occurrence in the text after an occurrence
      at `i` is one in the whole text too. */
  lemma LiftPiece(s: string, sep: string, i: nat, v: string, j': int) returns (j: int)
    requires OccursAt(s, sep, i) && PieceBeforeLast(s[i + |sep|..], sep, v, j')
    ensures PieceBeforeLast(s, sep, v, j)
  {
    var d := i + |sep|;
    j := j' + d;
    assert OccursAt(s, sep, j) by {
      OccursInSuffix(s, sep, d, j');
    }
    NoneFromSuffix(s, sep, d, j' + |sep|);
    assert s[j - |v|..j] == v by {
      SliceOfSuffix(s, d, j' - |v|, j');
    }
    assert j == |v| || OccursAt(s, sep, j - |v| - |sep|) by {
      if j' != |v| {
        OccursInSuffix(s, sep, d, j' - |v| - |sep|);
      }
    }
  }

  /** A slice of a suffix is the slice of the whole text shifted by the
      suffix's start. */
  lemma SliceOfSuffix(s: string, d: nat, a: nat, b: nat)
    requires d <= |s| && a <= b <= |s| - d
    ensures s[d..][a..b] == s[a + d..b + d]
  {
  }

  /** `}{` cannot overlap itself, so the piece before its last occurrence
      is determined by the text alone. */
  lemma PieceBeforeLastUnique(s: string, v: string, j: int, v': string, j': int)
    requires PieceBeforeLast(s, "}{", v, j) && !Contains(v, "}{")
    requires PieceBeforeLast(s, "}{", v', j') && !Contains(v', "}{")
    ensures v == v'
  {
    SameLastOccurrence(s, j, j');
    if |v| != |v'| {
      if |v| < |v'| {
        SameStartSegment(s, v, v', j);
      } else {
        SameStartSegment(s, v', v, j);
      }
    }
  }

  /** Two last occurrences of `}{` are one and the same. */
  lemma SameLastOccurrence(s: string, j: int, j': int)
    requires OccursAt(s, "}{", j) && NoneFrom(s, "}{", j + 2)
    requires OccursAt(s, "}{", j') && NoneFrom(s, "}{", j' + 2)
    ensures j == j'
  {
    if j < j' {
      NoOverlap(s, j, j');
    } else if j' < j {
      NoOverlap(s, j', j);
    }
  }

  /** `}{` cannot overlap itself: a later occurrence starts after the
      earlier one ends. */
  lemma NoOverlap(s: string, j: int, j': int)
    requires OccursAt(s, "}{", j) && OccursAt(s, "}{", j') && j < j'
    ensures j + 2 <= j'
  {
    assert s[j + 1] == s[j..j + 2][1] == '{';
    assert s[j'] == s[j'..j' + 2][0] == '}';
  }

  /** Two pieces ending at the same `}{`, both starting at the beginning
      or after a `}{`, cannot differ in length unless the longer holds
      a `}{`. */
  lemma SameStartSegment(s: string, v: string, v': string, j: int)
    requires |v| < |v'| <= j <= |s| && s[j - |v|..j] == v && s[j - |v'|..j] == v'
    requires j == |v| || OccursAt(s, "}{", j - |v| - 2)
    requires j == |v'| || OccursAt(s, "}{", j - |v'| - 2)
    ensures Contains(v', "}{")
  {
    var a := j - |v|;
    var a' := j - |v'|;
    assert OccursAt(s, "}{", a - 2);
    assert s[a - 2] == s[a - 2..a][0] == '}';
    assert a' < a - 1;
    {
      var x := a - 2 - a';
      assert v'[x] == s[a - 2] && v'[x + 1] == s[a - 1];
      assert s[a - 2..a] == [s[a - 2], s[a - 1]];
      assert v'[x..x + 2] == [v'[x], v'[x + 1]];
      assert OccursAt(v', "}{", x);
    }
  }

  /** `sep.join(parts)`. */
  function Join(parts: seq<string>, sep: string): string
    decreases |parts|
  {
    if |parts| == 0 then ""
    else if |parts| == 1 then parts[0]
    else parts[0] + sep + Join(parts[1..], sep)
  }

  /** Joining the pieces of a split with the same separator gives back
      the original string. */
  lemma {:induction false} JoinSplit(s: string, sep: string)
    requires sep != []
    ensures Join(Split(s, sep), sep) == s
    decreases |s|
  {
    match IndexOf(s, sep)
    case None =>
    case Some(i) =>
      var rest := s[i + |sep|..];
      var tail := Split(rest, sep);
      var parts := Split(s, sep);
      assert parts == [s[..i]] + tail;
      assert parts[1..] == tail;
      JoinSplit(rest, sep);
      assert Join(parts, sep) == s[..i] + sep + rest;
      AroundOccurrence(s, sep, i);
  }

  /** A string is what comes before an occurrence, the occurrence, and
      what follows it. */
  lemma AroundOccurrence(s: string, p: string, i: nat)
    requires OccursAt(s, p, i)
    ensures s == s[..i] + p + s[i + |p|..]
  {
    assert s == s[..i] + s[i..i + |p|] + s[i + |p|..];
  }

  /** A one-character pattern occurs exactly where that character does. */
  lemma CharOccurrence(s: string, c: char)
    ensures c in s <==> Contains(s, [c])
  {
    forall i | 0 <= i <= |s|
      ensures OccursAt(s, [c], i) <==> i < |s| && s[i] == c
    {
      if i < |s| {
        assert s[i..i + 1][0] == s[i];
      }
    }
    if c in s {
      var i :| 0 <= i < |s| && s[i] == c;
      assert OccursAt(s, [c], i);
    }
  }

  /** In `a + [c] + b` with `c` not in `a`, the first `c` is the one
      after `a`. */
  lemma FirstCharOccurrence(a: string, c: char, b: string)
    requires c !in a
    ensures IndexOf(a + [c] + b, [c]) == Some(|a|)
  {
    var s := a + [c] + b;
    assert s[|a|..|a| + 1] == [c];
    assert OccursAt(s, [c], |a|);
    assert Contains(s, [c]);
    forall j | 0 <= j < |a|
      ensures !OccursAt(s, [c], j)
    {
      assert s[j..j + 1] == [a[j]];
    }
  }

  /** Splitting at a one-character separator undoes joining with it, as
      long as no piece contains that character. */
  lemma {:induction false} SplitJoinChar(parts: seq<string>, c: char)
    requires |parts| >= 1
    requires forall k :: 0 <= k < |parts| ==> c !in parts[k]
    ensures Split(Join(parts, [c]), [c]) == parts
    decreases |parts|
  {
    var s := Join(parts, [c]);
    if |parts| == 1 {
      CharOccurrence(parts[0], c);
    } else {
      var rest := Join(parts[1..], [c]);
      assert s == parts[0] + [c] + rest;
      var n := |parts[0]|;
      FirstCharOccurrence(parts[0], c, rest);
      assert s[..n] == parts[0];
      assert s[n + 1..] == rest;
      SplitJoinChar(parts[1..], c);
    }
  }

  predicate IsDigit(c: char) {
    '0' <= c <= '9'
  }

  function DigitChar(d: nat): (c: char)
    requires d < 10
    ensures IsDigit(c)
  {
    (d + '0' as int) as char
  }

  /** Decimal notation of a natural number, most significant digit first. */
  function NatToString(n: nat): (r: string)
    ensures |r| >= 1
    ensures forall k :: 0 <= k < |r| ==> IsDigit(r[k])
    decreases n
  {
    if n < 10 then [DigitChar(n)] else NatToString(n / 10) + [DigitChar(n % 10)]
  }

  /** `str(i)` for a Python `int`: a minus sign for negatives, then the
      decimal digits of the magnitude. */
  function IntToString(i: int): (r: string)
    ensures |r| >= 1
    ensures forall k :: 0 <= k < |r| ==> IsDigit(r[k]) || (k == 0 && r[k] == '-')
  {
    if i < 0 then "-" + NatToString(-i) else NatToString(i)
  }

  function DigitValue(c: char): (d: nat)
    requires IsDigit(c)
    ensures d < 10 && DigitChar(d) == c
  {
    c as int - '0' as int
  }

  /** The value of a string of decimal digits, `int(s)` for such strings. */
  function ParseNat(s: string): nat
    requires forall k :: 0 <= k < |s| ==> IsDigit(s[k])
    decreases |s|
  {
    if |s| == 0 then 0
    else ParseNat(s[..|s| - 1]) * 10 + DigitValue(s[|s| - 1])
  }

  /** `int(s)` on the strings `str` produces. */
  function ParseInt(s: string): int
    requires forall k :: 0 <= k < |s| ==> IsDigit(s[k]) || (k == 0 && s[k] == '-')
  {
    if |s| > 0 && s[0] == '-' then -(ParseNat(s[1..]) as int) else ParseNat(s)
  }

  lemma {:induction false} ParseNatToString(n: nat)
    ensures ParseNat(NatToString(n)) == n
    decreases n
  {
    if n >= 10 {
      var s := NatToString(n);
      assert s[..|s| - 1] == NatToString(n / 10);
      ParseNatToString(n / 10);
    }
  }

  /** `int(str(i)) == i`: the decimal notation loses nothing. */
  lemma ParseIntToString(i: int)
    ensures ParseInt(IntToString(i)) == i
  {
    if i < 0 {
      ParseNatToString(-i);
      assert IntToString(i)[1..] == NatToString(-i);
    } else {
      ParseNatToString(i);
    }
  }

  /** Distinct integers have distinct notations. */
  lemma IntToStringInjective(i: int, j: int)
    requires IntToString(i) == IntToString(j)
    ensures i == j
  {
    ParseIntToString(i);
    ParseIntToString(j);
  }
}
