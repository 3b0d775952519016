/** The hierarchy counters of `collect_theorems`: one count per sectioning
    level, kept in a dictionary keyed by level name, plus the inner
    counter of theorems within the innermost level. */
module Counters {
  import opened Strings
  import opened Patterns

  predicate Distinct(s: seq<string>) {
    forall i, j :: 0 <= i < j < |s| ==> s[i] != s[j]
  }

  /** The names in first-occurrence order: the key order of a dictionary
      filled by iterating over `s` (a repeated name keeps its place). */
  function Dedup(s: seq<string>): (r: seq<string>)
    ensures |r| <= |s|
    decreases |s|
  {
    if |s| == 0 then []
    else
      var front := Dedup(s[..|s| - 1]);
      if s[|s| - 1] in front then front else front + [s[|s| - 1]]
  }

  /** The dictionary has exactly the listed names as keys, each once. */
  lemma {:induction false} DedupMembers(s: seq<string>)
    ensures forall x :: x in Dedup(s) <==> x in s
    ensures Distinct(Dedup(s))
    decreases |s|
  {
    if |s| > 0 {
      DedupMembers(s[..|s| - 1]);
      assert s == s[..|s| - 1] + [s[|s| - 1]];
    }
  }

  /** Without repeated names the dictionary order is the list order. */
  lemma {:induction false} DedupDistinct(s: seq<string>)
    requires Distinct(s)
    ensures Dedup(s) == s
    decreases |s|
  {
    if |s| > 0 {
      DedupDistinct(s[..|s| - 1]);
      assert s == s[..|s| - 1] + [s[|s| - 1]];
    }
  }

  /** The counter state: `hierarchy_counter` and `inner_counter`. */
  datatype Tracker = Tracker(counters: map<string, int>, inner: nat)

  /** Every level name has a counter. */
  predicate Covers(t: Tracker, hierarchy: seq<string>) {
    forall k :: 0 <= k < |hierarchy| ==> hierarchy[k] in t.counters
  }

  /** The counters before the first line: every level at 0 except the
      outermost, which starts one below the number of the first chapter
      so that its first marker brings it to that number. */
  function Init(hierarchy: seq<string>, first: int): (t: Tracker)
    ensures Covers(t, hierarchy)
    ensures t.counters.Keys == set h | h in hierarchy
    ensures t.inner == 0
    ensures |hierarchy| > 0 ==> t.counters[hierarchy[0]] == first - 1
    ensures forall k :: 0 < k < |hierarchy| && hierarchy[k] != hierarchy[0] ==> t.counters[hierarchy[k]] == 0
  {
    var zeros := map h | h in hierarchy :: 0;
    if |hierarchy| > 0 then Tracker(zeros[hierarchy[0] := first - 1], 0) else Tracker(zeros, 0)
  }

  /** The marker of level `i` was seen: that level counts up, the inner
      counter and every level listed after `i` drop to 0. */
  function Advance(t: Tracker, hierarchy: seq<string>, i: nat): (r: Tracker)
    requires i < |hierarchy| && Covers(t, hierarchy)
    ensures r.counters.Keys == t.counters.Keys
    ensures r.inner == 0
    ensures forall j :: i < j < |hierarchy| ==> r.counters[hierarchy[j]] == 0
    ensures hierarchy[i] !in hierarchy[i + 1..] ==>
              r.counters[hierarchy[i]] == t.counters[hierarchy[i]] + 1
    ensures forall h :: h in t.counters && h !in hierarchy[i..] ==> r.counters[h] == t.counters[h]
  {
    var h := hierarchy[i];
    var bumped := t.counters[h := t.counters[h] + 1];
    var deeper := hierarchy[i + 1..];
    assert forall j :: i < j < |hierarchy| ==> hierarchy[j] in deeper by {
      forall j | i < j < |hierarchy| ensures hierarchy[j] in deeper {
        assert deeper[j - i - 1] == hierarchy[j];
      }
    }
    Tracker(map k | k in bumped :: if k in deeper then 0 else bumped[k], 0)
  }

  /** Some level from `i` on has its marker on `line`. */
  predicate MarkedFrom(hierarchy: seq<string>, line: string, i: nat) {
    exists j :: i <= j < |hierarchy| && Contains(line, LevelMarker(hierarchy[j]))
  }

  /** Every level from `i` on, in list order, advances when its marker
      is on `line`; several levels can advance on one line. */
  function AdvanceFrom(t: Tracker, hierarchy: seq<string>, line: string, i: nat): (r: Tracker)
    requires Covers(t, hierarchy)
    ensures Covers(r, hierarchy)
    ensures r.counters.Keys == t.counters.Keys
    ensures !MarkedFrom(hierarchy, line, i) ==> r == t
    ensures MarkedFrom(hierarchy, line, i) ==> r.inner == 0
    decreases |hierarchy| - i
  {
    if i >= |hierarchy| then t
    else
      var next := if Contains(line, LevelMarker(hierarchy[i])) then Advance(t, hierarchy, i) else t;
      AdvanceFrom(next, hierarchy, line, i + 1)
  }

  /** Lines 67-73 for one line. */
  function AdvanceAll(t: Tracker, hierarchy: seq<string>, line: string): (r: Tracker)
    requires Covers(t, hierarchy)
    ensures Covers(r, hierarchy)
    ensures !MarkedFrom(hierarchy, line, 0) ==> r == t
    ensures MarkedFrom(hierarchy, line, 0) ==> r.inner == 0
  {
    AdvanceFrom(t, hierarchy, line, 0)
  }

  /** A line that carries the marker of level `i` and of no other level
      does exactly what that one marker does. */
  lemma AdvanceAllSingle(t: Tracker, hierarchy: seq<string>, line: string, i: nat)
    requires i < |hierarchy| && Covers(t, hierarchy)
    requires Contains(line, LevelMarker(hierarchy[i]))
    requires forall j :: 0 <= j < |hierarchy| && j != i ==> !Contains(line, LevelMarker(hierarchy[j]))
    ensures AdvanceAll(t, hierarchy, line) == Advance(t, hierarchy, i)
  {
    AdvanceFromUnmarked(t, hierarchy, line, 0, i);
    assert !MarkedFrom(hierarchy, line, i + 1);
  }

  /** Levels without their marker on the line are passed over. */
  lemma {:induction false} AdvanceFromUnmarked(t: Tracker, hierarchy: seq<string>, line: string, from: nat, i: nat)
    requires from <= i <= |hierarchy| && Covers(t, hierarchy)
    requires forall j :: from <= j < i ==> !Contains(line, LevelMarker(hierarchy[j]))
    ensures AdvanceFrom(t, hierarchy, line, from) == AdvanceFrom(t, hierarchy, line, i)
    decreases i - from
  {
    if from < i {
      AdvanceFromUnmarked(t, hierarchy, line, from + 1, i);
    }
  }

  /** A line with level markers, with distinct level names and `f` the
      first marked level: outer levels keep their counts, level `f` counts
      up, every deeper level ends at 1 if its own marker is on the line
      and at 0 otherwise (an earlier marker reset it first), and the
      inner counter is 0. */
  lemma AdvanceAllFirstMarked(t: Tracker, hierarchy: seq<string>, line: string, f: nat)
    requires Distinct(hierarchy) && Covers(t, hierarchy) && f < |hierarchy|
    requires Contains(line, LevelMarker(hierarchy[f]))
    requires forall j :: 0 <= j < f ==> !Contains(line, LevelMarker(hierarchy[j]))
    ensures forall j :: 0 <= j < f ==> AdvanceAll(t, hierarchy, line).counters[hierarchy[j]] == t.counters[hierarchy[j]]
    ensures AdvanceAll(t, hierarchy, line).counters[hierarchy[f]] == t.counters[hierarchy[f]] + 1
    ensures forall j :: f < j < |hierarchy| ==>
              AdvanceAll(t, hierarchy, line).counters[hierarchy[j]] ==
              (if Contains(line, LevelMarker(hierarchy[j])) then 1 else 0)
    ensures forall h :: h in t.counters && h !in hierarchy ==> AdvanceAll(t, hierarchy, line).counters[h] == t.counters[h]
    ensures AdvanceAll(t, hierarchy, line).inner == 0
  {
    AdvanceFromUnmarked(t, hierarchy, line, 0, f);
    var next := Advance(t, hierarchy, f);
    AdvanceDistinct(t, hierarchy, f);
    assert forall h :: h in t.counters && h !in hierarchy ==> h !in hierarchy[f..];
    AdvanceFromFreshLevels(next, hierarchy, line, f + 1);
  }

  /** From level `i` on, starting with every deeper level at 0, each
      level ends at 1 if its marker is on the line and at 0 otherwise;
      levels before `i` and names outside the list are untouched. */
  lemma {:induction false} AdvanceFromFreshLevels(t: Tracker, hierarchy: seq<string>, line: string, i: nat)
    requires Distinct(hierarchy) && Covers(t, hierarchy) && i <= |hierarchy|
    requires forall j :: i <= j < |hierarchy| ==> t.counters[hierarchy[j]] == 0
    ensures forall j :: 0 <= j < i ==> AdvanceFrom(t, hierarchy, line, i).counters[hierarchy[j]] == t.counters[hierarchy[j]]
    ensures forall j :: i <= j < |hierarchy| ==>
              AdvanceFrom(t, hierarchy, line, i).counters[hierarchy[j]] ==
              (if Contains(line, LevelMarker(hierarchy[j])) then 1 else 0)
    ensures forall h :: h in t.counters && h !in hierarchy ==> AdvanceFrom(t, hierarchy, line, i).counters[h] == t.counters[h]
    decreases |hierarchy| - i
  {
    if i < |hierarchy| {
      var next := if Contains(line, LevelMarker(hierarchy[i])) then Advance(t, hierarchy, i) else t;
      if Contains(line, LevelMarker(hierarchy[i])) {
        AdvanceDistinct(t, hierarchy, i);
        assert forall h :: h in t.counters && h !in hierarchy ==> h !in hierarchy[i..];
      }
      assert next.counters[hierarchy[i]] == (if Contains(line, LevelMarker(hierarchy[i])) then 1 else 0);
      AdvanceFromFreshLevels(next, hierarchy, line, i + 1);
      assert AdvanceFrom(t, hierarchy, line, i) == AdvanceFrom(next, hierarchy, line, i + 1);
    }
  }

  /** The counts of `names`, in that order. */
  function CountsOf(counters: map<string, int>, names: seq<string>): (r: seq<int>)
    requires forall k :: 0 <= k < |names| ==> names[k] in counters
    ensures |r| == |names|
    decreases |names|
  {
    if |names| == 0 then [] else [counters[names[0]]] + CountsOf(counters, names[1..])
  }

  lemma {:induction false} CountsOfAt(counters: map<string, int>, names: seq<string>)
    requires forall k :: 0 <= k < |names| ==> names[k] in counters
    ensures forall k :: 0 <= k < |names| ==> CountsOf(counters, names)[k] == counters[names[k]]
    decreases |names|
  {
    if |names| > 0 {
      CountsOfAt(counters, names[1..]);
    }
  }

  /** The components of a new theorem's number: the level counts in
      dictionary order, then the inner counter. */
  function Components(t: Tracker, hierarchy: seq<string>): (r: seq<int>)
    requires Covers(t, hierarchy)
    ensures |r| == |Dedup(hierarchy)| + 1
    ensures forall k :: 0 <= k < |Dedup(hierarchy)| ==>
              Dedup(hierarchy)[k] in t.counters && r[k] == t.counters[Dedup(hierarchy)[k]]
    ensures r[|r| - 1] == t.inner
  {
    var names := Dedup(hierarchy);
    DedupMembers(hierarchy);
    assert forall k :: 0 <= k < |names| ==> names[k] in t.counters by {
      forall k | 0 <= k < |names| ensures names[k] in t.counters {
        assert names[k] in hierarchy;
      }
    }
    CountsOfAt(t.counters, names);
    CountsOf(t.counters, names) + [t.inner]
  }

  /** `str` of each component. */
  function Strs(cs: seq<int>): (r: seq<string>)
    ensures |r| == |cs|
    decreases |cs|
  {
    if |cs| == 0 then [] else [IntToString(cs[0])] + Strs(cs[1..])
  }

  lemma {:induction false} StrsAt(cs: seq<int>)
    ensures forall k :: 0 <= k < |cs| ==> Strs(cs)[k] == IntToString(cs[k])
    decreases |cs|
  {
    if |cs| > 0 {
      StrsAt(cs[1..]);
    }
  }

  /** Line 80: the components joined by `.`. */
  function Number(t: Tracker, hierarchy: seq<string>): string
    requires Covers(t, hierarchy)
  {
    Join(Strs(Components(t, hierarchy)), ".")
  }

  /** `str` of an integer has no `.` in it. */
  lemma NoDotInIntString(i: int)
    ensures '.' !in IntToString(i)
  {
    var s := IntToString(i);
    assert forall k :: 0 <= k < |s| ==> s[k] != '.';
  }

  /** A number has one `.`-separated part per distinct level name plus
      one for the inner counter, and part `k` spells component `k`. */
  lemma NumberParts(t: Tracker, hierarchy: seq<string>)
    requires Covers(t, hierarchy)
    ensures Split(Number(t, hierarchy), ".") == Strs(Components(t, hierarchy))
    ensures |Split(Number(t, hierarchy), ".")| == |Dedup(hierarchy)| + 1
  {
    var parts := Strs(Components(t, hierarchy));
    StrsAt(Components(t, hierarchy));
    forall k | 0 <= k < |parts| ensures '.' !in parts[k] {
      NoDotInIntString(Components(t, hierarchy)[k]);
    }
    SplitJoinChar(parts, '.');
  }

  /** Two trackers give the same number only if all their components
      agree: the number string loses nothing. */
  lemma NumberInjective(t1: Tracker, t2: Tracker, hierarchy: seq<string>)
    requires Covers(t1, hierarchy) && Covers(t2, hierarchy)
    requires Number(t1, hierarchy) == Number(t2, hierarchy)
    ensures Components(t1, hierarchy) == Components(t2, hierarchy)
  {
    NumberParts(t1, hierarchy);
    NumberParts(t2, hierarchy);
    var c1 := Components(t1, hierarchy);
    var c2 := Components(t2, hierarchy);
    StrsAt(c1);
    StrsAt(c2);
    forall k | 0 <= k < |c1| ensures c1[k] == c2[k] {
      assert Strs(c1)[k] == Strs(c2)[k];
      IntToStringInjective(c1[k], c2[k]);
    }
  }

  /** With distinct names, level `i`'s marker increments level `i`,
      leaves every outer level as it was and resets every inner one. */
  lemma AdvanceDistinct(t: Tracker, hierarchy: seq<string>, i: nat)
    requires Distinct(hierarchy) && i < |hierarchy| && Covers(t, hierarchy)
    ensures Advance(t, hierarchy, i).counters[hierarchy[i]] == t.counters[hierarchy[i]] + 1
    ensures forall j :: 0 <= j < i ==> Advance(t, hierarchy, i).counters[hierarchy[j]] == t.counters[hierarchy[j]]
    ensures forall j :: i < j < |hierarchy| ==> Advance(t, hierarchy, i).counters[hierarchy[j]] == 0
    ensures Advance(t, hierarchy, i).inner == 0
  {
    var deeper := hierarchy[i + 1..];
    assert hierarchy[i] !in deeper by {
      forall m | 0 <= m < |deeper| ensures deeper[m] != hierarchy[i] {
        assert deeper[m] == hierarchy[i + 1 + m];
      }
    }
    var here := hierarchy[i..];
    forall j | 0 <= j < i ensures hierarchy[j] !in here {
      forall m | 0 <= m < |here| ensures here[m] != hierarchy[j] {
        assert here[m] == hierarchy[i + m];
      }
    }
  }
}
