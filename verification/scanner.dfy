/** `collect_theorems` (visualizer.py:45-114): one forward pass over the
    lines of the document, as a `Step` folded over the line sequence. */
module Scanner {
  import opened Strings
  import opened Patterns
  import opened Statements
  import opened Counters

  /** The loop's variables: the counters, the theorem list and the two
      flags `looking_for_label` and `looking_for_references`. */
  datatype ScanState = ScanState(
    tracker: Tracker,
    theorems: seq<Theorem>,
    awaitingLabel: bool,
    awaitingRefs: bool)

  /** The flags only ever point at an existing record, and a record
      still awaiting its label has none yet. */
  predicate Consistent(st: ScanState) {
    && ((st.awaitingLabel || st.awaitingRefs) ==> |st.theorems| > 0)
    && (st.awaitingLabel ==> st.theorems[|st.theorems| - 1].latexLabel == "")
  }

  predicate Valid(st: ScanState, hierarchy: seq<string>) {
    Covers(st.tracker, hierarchy) && Consistent(st)
  }

  /** Two records agree on everything the scan never changes after
      creating them. */
  predicate SameIdentity(a: Theorem, b: Theorem) {
    a.number == b.number && a.used == b.used && a.showLabel == b.showLabel
  }

  /** `b` is a later state of the same scan as `a`: nothing is removed,
      only `a`'s newest record may still change, and only in its label
      and references; its label only while `a` still awaits one. */
  predicate Extends(a: ScanState, b: ScanState) {
    && |a.theorems| <= |b.theorems|
    && (forall k :: 0 <= k < |a.theorems| - 1 ==> b.theorems[k] == a.theorems[k])
    && (forall k :: 0 <= k < |a.theorems| ==>
          SameIdentity(b.theorems[k], a.theorems[k]) && a.theorems[k].references <= b.theorems[k].references)
    && (!a.awaitingLabel ==> forall k :: 0 <= k < |a.theorems| ==> b.theorems[k].latexLabel == a.theorems[k].latexLabel)
    && (|b.theorems| == |a.theorems| && b.awaitingLabel ==> a.awaitingLabel)
  }

  lemma ExtendsTransitive(a: ScanState, b: ScanState, c: ScanState)
    requires Extends(a, b) && Extends(b, c)
    ensures Extends(a, c)
  {
    forall k | 0 <= k < |a.theorems|
      ensures a.theorems[k].references <= c.theorems[k].references
    {
      assert b.theorems[k].references <= c.theorems[k].references;
    }
  }

  /** The state before the first line (lines 46-58). */
  function Start(hierarchy: seq<string>, first: int): (st: ScanState)
    ensures Valid(st, hierarchy)
    ensures st.theorems == [] && !st.awaitingLabel && !st.awaitingRefs
  {
    ScanState(Init(hierarchy, first), [], false, false)
  }

  /** How many of `names` have their `\begin` marker on `line`: a name
      listed twice counts twice, a name begun twice on the line once. */
  function Opened(names: seq<string>, line: string): nat {
    if |names| == 0 then 0
    else (if Contains(line, BeginMarker(names[0])) then 1 else 0) + Opened(names[1..], line)
  }

  /** One theorem name on one line (lines 77-87): a `\begin` counts the
      inner counter up and appends a fresh record numbered from the
      counters; an `\end` then stops the label search. */
  function Environment(st: ScanState, hierarchy: seq<string>, name: string, line: string): (r: ScanState)
    requires Valid(st, hierarchy)
    ensures Valid(r, hierarchy)
    ensures r.tracker.counters == st.tracker.counters
    ensures Contains(line, BeginMarker(name)) ==>
              && r.tracker.inner == st.tracker.inner + 1
              && r.theorems == st.theorems + [Fresh(Number(r.tracker, hierarchy))]
              && r.awaitingRefs
    ensures !Contains(line, BeginMarker(name)) ==>
              r.tracker == st.tracker && r.theorems == st.theorems && r.awaitingRefs == st.awaitingRefs
    ensures r.awaitingLabel <==>
              !Contains(line, EndMarker(name)) && (st.awaitingLabel || Contains(line, BeginMarker(name)))
  {
    var begun :=
      if Contains(line, BeginMarker(name)) then
        var t := st.tracker.(inner := st.tracker.inner + 1);
        ScanState(t, st.theorems + [Fresh(Number(t, hierarchy))], true, true)
      else st;
    if Contains(line, EndMarker(name)) then begun.(awaitingLabel := false) else begun
  }

  /** All theorem names, in configuration order, on one line. The `n`-th
      record opened on the line carries inner count `inner + n + 1`. */
  function Environments(st: ScanState, hierarchy: seq<string>, names: seq<string>, line: string): (r: ScanState)
    requires Valid(st, hierarchy)
    ensures Valid(r, hierarchy)
    ensures r.tracker.counters == st.tracker.counters
    ensures r.tracker.inner == st.tracker.inner + Opened(names, line)
    ensures |r.theorems| == |st.theorems| + Opened(names, line)
    ensures r.theorems[..|st.theorems|] == st.theorems
    ensures forall k :: |st.theorems| <= k < |r.theorems| ==> r.theorems[k] == Fresh(r.theorems[k].number)
    ensures r.awaitingRefs == (st.awaitingRefs || Opened(names, line) > 0)
    ensures Opened(names, line) == 0 && r.awaitingLabel ==> st.awaitingLabel
    decreases |names|
  {
    if |names| == 0 then st
    else
      var mid := Environment(st, hierarchy, names[0], line);
      var r := Environments(mid, hierarchy, names[1..], line);
      assert forall n :: 0 <= n < |mid.theorems| ==> r.theorems[n] == mid.theorems[n] by {
        assert r.theorems[..|mid.theorems|] == mid.theorems;
      }
      r
  }

  /** Some name has its `\begin` on the line with no `\end` of it or of
      any name listed after it: the last such `\begin` switched the
      label search on and nothing switched it off again. */
  predicate OpenAfter(names: seq<string>, line: string) {
    exists k :: 0 <= k < |names| && Contains(line, BeginMarker(names[k])) &&
      forall k' :: k <= k' < |names| ==> !Contains(line, EndMarker(names[k']))
  }

  predicate AnyEnd(names: seq<string>, line: string) {
    exists k :: 0 <= k < |names| && Contains(line, EndMarker(names[k]))
  }

  /** The label search after the `\begin`/`\end` stage of a line that
      found it `on`: a `\begin` left open by later `\end`s, or an earlier
      search that no `\end` on the line stopped. */
  predicate SearchAfter(on: bool, names: seq<string>, line: string) {
    OpenAfter(names, line) || (on && !AnyEnd(names, line))
  }

  lemma AnyEndCons(names: seq<string>, line: string)
    requires |names| > 0
    ensures AnyEnd(names, line) <==> Contains(line, EndMarker(names[0])) || AnyEnd(names[1..], line)
  {
    if AnyEnd(names[1..], line) {
      var k :| 0 <= k < |names[1..]| && Contains(line, EndMarker(names[1..][k]));
      assert names[1..][k] == names[k + 1];
    }
    if AnyEnd(names, line) && !Contains(line, EndMarker(names[0])) {
      var k :| 0 <= k < |names| && Contains(line, EndMarker(names[k]));
      assert names[1..][k - 1] == names[k];
    }
  }

  lemma OpenAfterCons(names: seq<string>, line: string)
    requires |names| > 0
    ensures OpenAfter(names, line) <==>
              OpenAfter(names[1..], line) ||
              (Contains(line, BeginMarker(names[0])) && !Contains(line, EndMarker(names[0])) && !AnyEnd(names[1..], line))
  {
    var tail := names[1..];
    if OpenAfter(tail, line) {
      var k :| 0 <= k < |tail| && Contains(line, BeginMarker(tail[k])) &&
        forall k' :: k <= k' < |tail| ==> !Contains(line, EndMarker(tail[k']));
      assert names[k + 1] == tail[k];
      forall k' | k + 1 <= k' < |names| ensures !Contains(line, EndMarker(names[k'])) {
        assert names[k'] == tail[k' - 1];
      }
    }
    if Contains(line, BeginMarker(names[0])) && !Contains(line, EndMarker(names[0])) && !AnyEnd(tail, line) {
      forall k' | 0 <= k' < |names| ensures !Contains(line, EndMarker(names[k'])) {
        if k' > 0 {
          assert names[k'] == tail[k' - 1];
        }
      }
    }
    if OpenAfter(names, line) {
      var k :| 0 <= k < |names| && Contains(line, BeginMarker(names[k])) &&
        forall k' :: k <= k' < |names| ==> !Contains(line, EndMarker(names[k']));
      if k > 0 {
        assert tail[k - 1] == names[k];
        forall k' | k - 1 <= k' < |tail| ensures !Contains(line, EndMarker(tail[k'])) {
          assert tail[k'] == names[k' + 1];
        }
      } else {
        forall m | 0 <= m < |tail| ensures !Contains(line, EndMarker(tail[m])) {
          assert tail[m] == names[m + 1];
        }
      }
    }
  }

  /** The first name's `\begin` and `\end` act on the search first;
      the rest of the names then act on what they left. */
  lemma SearchAfterCons(on: bool, names: seq<string>, line: string)
    requires |names| > 0
    ensures SearchAfter(on, names, line) <==>
              SearchAfter(!Contains(line, EndMarker(names[0])) && (on || Contains(line, BeginMarker(names[0]))),
                          names[1..], line)
  {
    AnyEndCons(names, line);
    OpenAfterCons(names, line);
  }

  /** After the `\begin`/`\end` stage the label search is on exactly
      when `SearchAfter` says: a `\begin` on the line switches it on, a
      later-listed `\end` switches it off, in configuration order. */
  lemma {:induction false} EnvironmentsLabelSearch(
    st: ScanState, hierarchy: seq<string>, names: seq<string>, line: string)
    requires Valid(st, hierarchy)
    ensures Environments(st, hierarchy, names, line).awaitingLabel <==> SearchAfter(st.awaitingLabel, names, line)
    decreases |names|
  {
    if |names| > 0 {
      var mid := Environment(st, hierarchy, names[0], line);
      EnvironmentsLabelSearch(mid, hierarchy, names[1..], line);
      SearchAfterCons(st.awaitingLabel, names, line);
    }
  }

  /** Records from index `from` on are numbered from tracker `t`, with
      inner counts `t.inner + 1`, `t.inner + 2`, ... */
  predicate NumberedFrom(ts: seq<Theorem>, from: nat, t: Tracker, hierarchy: seq<string>)
    requires Covers(t, hierarchy)
  {
    forall k :: from <= k < |ts| ==> ts[k].number == Number(t.(inner := t.inner + (k - from) + 1), hierarchy)
  }

  /** The `n`-th record opened on a line carries inner count
      `inner + n + 1` and the level counts as they stood. */
  lemma {:induction false} EnvironmentsNumbers(
    st: ScanState, hierarchy: seq<string>, names: seq<string>, line: string)
    requires Valid(st, hierarchy)
    ensures NumberedFrom(Environments(st, hierarchy, names, line).theorems, |st.theorems|, st.tracker, hierarchy)
    decreases |names|
  {
    if |names| > 0 {
      var mid := Environment(st, hierarchy, names[0], line);
      var r := Environments(mid, hierarchy, names[1..], line);
      EnvironmentsNumbers(mid, hierarchy, names[1..], line);
      assert forall n :: 0 <= n < |mid.theorems| ==> r.theorems[n] == mid.theorems[n] by {
        assert r.theorems[..|mid.theorems|] == mid.theorems;
      }
      assert mid.tracker.inner - st.tracker.inner == |mid.theorems| - |st.theorems|;
      forall k | |st.theorems| <= k < |r.theorems|
        ensures r.theorems[k].number ==
                Number(st.tracker.(inner := st.tracker.inner + (k - |st.theorems|) + 1), hierarchy)
      {
        var t := st.tracker.(inner := st.tracker.inner + (k - |st.theorems|) + 1);
        if k < |mid.theorems| {
          assert Contains(line, BeginMarker(names[0]));
          assert mid.theorems[k] == Fresh(Number(mid.tracker, hierarchy));
          assert mid.tracker == t;
          assert r.theorems[k] == mid.theorems[k];
        } else {
          var t' := mid.tracker.(inner := mid.tracker.inner + (k - |mid.theorems|) + 1);
          assert r.theorems[k].number == Number(t', hierarchy);
          assert t' == t;
        }
      }
    }
  }

  /** Every name whose `\begin` is on the line has its `\end` there too. */
  predicate EndsFollowBegins(names: seq<string>, line: string) {
    forall k :: 0 <= k < |names| && Contains(line, BeginMarker(names[k])) ==>
      Contains(line, EndMarker(names[k]))
  }

  /** When every environment begun on a line also ends there, the line
      leaves the label search on only if it was on and no `\end` of any
      listed name occurs: an `\end` clears the flag before the label
      pattern is tried on that same line. */
  lemma {:induction false} EnvironmentsEndLabelSearch(
    st: ScanState, hierarchy: seq<string>, names: seq<string>, line: string)
    requires Valid(st, hierarchy)
    requires EndsFollowBegins(names, line)
    ensures Environments(st, hierarchy, names, line).awaitingLabel ==
            (st.awaitingLabel && !AnyEnd(names, line))
    decreases |names|
  {
    if |names| > 0 {
      var mid := Environment(st, hierarchy, names[0], line);
      assert EndsFollowBegins(names[1..], line) by {
        forall k | 0 <= k < |names[1..]| && Contains(line, BeginMarker(names[1..][k]))
          ensures Contains(line, EndMarker(names[1..][k]))
        {
          assert names[1..][k] == names[k + 1];
        }
      }
      EnvironmentsEndLabelSearch(mid, hierarchy, names[1..], line);
      AnyEndCons(names, line);
    }
  }

  /** Lines 90-95: while awaiting a label, the first line with a
      `\label{..}` gives the newest record its label and ends the search. */
  function CaptureLabel(st: ScanState, line: string): (r: ScanState)
    requires Consistent(st)
    ensures Consistent(r)
    ensures r.tracker == st.tracker && r.awaitingRefs == st.awaitingRefs
    ensures |r.theorems| == |st.theorems|
    ensures forall k :: 0 <= k < |st.theorems| - 1 ==> r.theorems[k] == st.theorems[k]
    ensures forall k :: 0 <= k < |st.theorems| ==>
              r.theorems[k] == st.theorems[k].(latexLabel := r.theorems[k].latexLabel)
    ensures !st.awaitingLabel || MatchLabel(line).None? ==> r == st
    ensures st.awaitingLabel && MatchLabel(line).Some? ==>
              !r.awaitingLabel && r.theorems[|r.theorems| - 1].latexLabel == MatchLabel(line).value
  {
    if st.awaitingLabel then
      match MatchLabel(line)
      case Some(c) =>
        var last := |st.theorems| - 1;
        st.(theorems := st.theorems[last := st.theorems[last].(latexLabel := c)], awaitingLabel := false)
      case None => st
    else st
  }

  /** Lines 98-102: while collecting, every `\ref{..}` on the line is
      appended, in order, to the newest record's references. */
  function CollectRefs(st: ScanState, line: string): (r: ScanState)
    requires Consistent(st)
    ensures Consistent(r)
    ensures r.tracker == st.tracker && r.awaitingLabel == st.awaitingLabel && r.awaitingRefs == st.awaitingRefs
    ensures |r.theorems| == |st.theorems|
    ensures forall k :: 0 <= k < |st.theorems| - 1 ==> r.theorems[k] == st.theorems[k]
    ensures !st.awaitingRefs ==> r == st
    ensures st.awaitingRefs ==>
              var last := |st.theorems| - 1;
              r.theorems[last] == st.theorems[last].(references := st.theorems[last].references + FindRefs(line))
  {
    if st.awaitingRefs then
      var last := |st.theorems| - 1;
      var t := st.theorems[last];
      st.(theorems := st.theorems[last := t.(references := t.references + FindRefs(line))])
    else st
  }

  /** Lines 105-112: `\end{proof}` or `\qed` ends reference collection,
      after the line's own references were collected. */
  function CloseProof(st: ScanState, line: string): (r: ScanState)
    ensures r.tracker == st.tracker && r.theorems == st.theorems && r.awaitingLabel == st.awaitingLabel
    ensures r.awaitingRefs <==> st.awaitingRefs && !Contains(line, EndProofMarker) && !Contains(line, QedMarker)
  {
    if Contains(line, EndProofMarker) || Contains(line, QedMarker) then st.(awaitingRefs := false) else st
  }

  /** The body of the loop at lines 62-112 for one raw line. */
  function Step(hierarchy: seq<string>, names: seq<string>, st: ScanState, raw: string): (r: ScanState)
    requires Valid(st, hierarchy)
    ensures Valid(r, hierarchy)
    ensures var line := StripComment(raw);
            && |r.theorems| == |st.theorems| + Opened(names, line)
            && r.tracker.counters == AdvanceAll(st.tracker, hierarchy, line).counters
            && r.tracker.inner == (if MarkedFrom(hierarchy, line, 0) then 0 else st.tracker.inner) + Opened(names, line)
  {
    var line := StripComment(raw);
    var counted := st.(tracker := AdvanceAll(st.tracker, hierarchy, line));
    var begun := Environments(counted, hierarchy, names, line);
    var labelled := CaptureLabel(begun, line);
    var collected := CollectRefs(labelled, line);
    CloseProof(collected, line)
  }

  /** The `\begin`/`\end` stage extends the state it starts from. */
  lemma EnvironmentsExtend(st: ScanState, hierarchy: seq<string>, names: seq<string>, line: string)
    requires Valid(st, hierarchy)
    ensures Extends(st, Environments(st, hierarchy, names, line))
  {
    var r := Environments(st, hierarchy, names, line);
    forall k | 0 <= k < |st.theorems|
      ensures r.theorems[k] == st.theorems[k]
    {
      assert r.theorems[..|st.theorems|][k] == r.theorems[k];
    }
  }

  lemma CaptureLabelExtends(st: ScanState, line: string)
    requires Consistent(st)
    ensures Extends(st, CaptureLabel(st, line))
  {
  }

  lemma CollectRefsExtends(st: ScanState, line: string)
    requires Consistent(st)
    ensures Extends(st, CollectRefs(st, line))
  {
    var r := CollectRefs(st, line);
    if st.awaitingRefs {
      var last := |st.theorems| - 1;
      assert st.theorems[last].references <= r.theorems[last].references;
    }
  }

  /** `Extends` looks only at the records and the label search. */
  lemma ExtendsSameRecords(a: ScanState, a': ScanState, b': ScanState, b: ScanState)
    requires Extends(a', b')
    requires a.theorems == a'.theorems && a.awaitingLabel == a'.awaitingLabel
    requires b.theorems == b'.theorems && b.awaitingLabel == b'.awaitingLabel
    ensures Extends(a, b)
  {
  }

  /** A line extends the scan (see `Extends`). */
  lemma StepExtends(hierarchy: seq<string>, names: seq<string>, st: ScanState, raw: string)
    requires Valid(st, hierarchy)
    ensures Extends(st, Step(hierarchy, names, st, raw))
  {
    var line := StripComment(raw);
    var counted := st.(tracker := AdvanceAll(st.tracker, hierarchy, line));
    var begun := Environments(counted, hierarchy, names, line);
    var labelled := CaptureLabel(begun, line);
    var collected := CollectRefs(labelled, line);
    var r := CloseProof(collected, line);
    assert r == Step(hierarchy, names, st, raw);
    EnvironmentsExtend(counted, hierarchy, names, line);
    CaptureLabelExtends(begun, line);
    CollectRefsExtends(labelled, line);
    ExtendsTransitive(counted, begun, labelled);
    ExtendsTransitive(counted, labelled, collected);
    ExtendsSameRecords(st, counted, collected, r);
  }

  /** The records a line opens are unused and show their labels; when it
      opens any, all earlier records stay exactly as they were (the label
      search and reference collection moved on to the new ones). */
  lemma StepOpensFresh(hierarchy: seq<string>, names: seq<string>, st: ScanState, raw: string)
    requires Valid(st, hierarchy)
    ensures Opened(names, StripComment(raw)) > 0 ==>
              Step(hierarchy, names, st, raw).theorems[..|st.theorems|] == st.theorems
    ensures forall k :: |st.theorems| <= k < |Step(hierarchy, names, st, raw).theorems| ==>
              !Step(hierarchy, names, st, raw).theorems[k].used && Step(hierarchy, names, st, raw).theorems[k].showLabel
  {
    var line := StripComment(raw);
    var counted := st.(tracker := AdvanceAll(st.tracker, hierarchy, line));
    var begun := Environments(counted, hierarchy, names, line);
    var labelled := CaptureLabel(begun, line);
    var collected := CollectRefs(labelled, line);
    var r := CloseProof(collected, line);
    assert r == Step(hierarchy, names, st, raw);
    CaptureLabelExtends(begun, line);
    CollectRefsExtends(labelled, line);
    ExtendsTransitive(begun, labelled, collected);
    if Opened(names, line) > 0 {
      forall k | 0 <= k < |st.theorems|
        ensures r.theorems[k] == st.theorems[k]
      {
        assert begun.theorems[..|st.theorems|][k] == begun.theorems[k];
      }
    }
    forall k | |st.theorems| <= k < |r.theorems|
      ensures !r.theorems[k].used && r.theorems[k].showLabel
    {
      assert begun.theorems[k] == Fresh(begun.theorems[k].number);
      assert SameIdentity(collected.theorems[k], begun.theorems[k]);
    }
  }

  /** The records a line opens are numbered from the counters AFTER that
      line's level markers were applied, with inner counts following on
      from the (possibly reset) inner counter. */
  lemma StepNumbers(hierarchy: seq<string>, names: seq<string>, st: ScanState, raw: string)
    requires Valid(st, hierarchy)
    ensures NumberedFrom(Step(hierarchy, names, st, raw).theorems, |st.theorems|,
                         AdvanceAll(st.tracker, hierarchy, StripComment(raw)), hierarchy)
  {
    var line := StripComment(raw);
    var counted := st.(tracker := AdvanceAll(st.tracker, hierarchy, line));
    var begun := Environments(counted, hierarchy, names, line);
    var labelled := CaptureLabel(begun, line);
    var collected := CollectRefs(labelled, line);
    var r := CloseProof(collected, line);
    assert r == Step(hierarchy, names, st, raw);
    EnvironmentsNumbers(counted, hierarchy, names, line);
    CaptureLabelExtends(begun, line);
    CollectRefsExtends(labelled, line);
    ExtendsTransitive(begun, labelled, collected);
    NumberedFromKept(begun.theorems, r.theorems, |st.theorems|, counted.tracker, hierarchy);
  }

  /** Where the two searches stand after a line. Reference collection
      is on iff it was on or the line opened a record, and the line holds
      neither `\end{proof}` nor `\qed`: these switch it off only after the
      line's own references were taken. The label search is on iff the
      `\begin`/`\end` stage left it on (`SearchAfter`) and the line holds
      no label: an `\end` switches it off before the label is tried. */
  lemma StepFlags(hierarchy: seq<string>, names: seq<string>, st: ScanState, raw: string)
    requires Valid(st, hierarchy)
    ensures var line := StripComment(raw);
            Step(hierarchy, names, st, raw).awaitingRefs <==>
              (st.awaitingRefs || Opened(names, line) > 0) &&
              !Contains(line, EndProofMarker) && !Contains(line, QedMarker)
    ensures var line := StripComment(raw);
            Step(hierarchy, names, st, raw).awaitingLabel <==>
              SearchAfter(st.awaitingLabel, names, line) && MatchLabel(line).None?
  {
    var line := StripComment(raw);
    var counted := st.(tracker := AdvanceAll(st.tracker, hierarchy, line));
    var begun := Environments(counted, hierarchy, names, line);
    var labelled := CaptureLabel(begun, line);
    var collected := CollectRefs(labelled, line);
    var r := CloseProof(collected, line);
    assert r == Step(hierarchy, names, st, raw);
    assert begun.awaitingRefs == (st.awaitingRefs || Opened(names, line) > 0);
    EnvironmentsLabelSearch(counted, hierarchy, names, line);
  }

  /** The label, reference and proof-end stages touch only the newest
      record: its label while the search is on, its references while
      collection is on. */
  lemma LateStagesNewest(begun: ScanState, line: string, r: ScanState)
    requires Consistent(begun) && |begun.theorems| > 0
    requires r == CloseProof(CollectRefs(CaptureLabel(begun, line), line), line)
    ensures |r.theorems| == |begun.theorems|
    ensures forall k :: 0 <= k < |r.theorems| - 1 ==> r.theorems[k] == begun.theorems[k]
    ensures var last := |r.theorems| - 1;
            r.theorems[last].latexLabel ==
              if begun.awaitingLabel && MatchLabel(line).Some? then MatchLabel(line).value
              else begun.theorems[last].latexLabel
    ensures var last := |r.theorems| - 1;
            r.theorems[last].references ==
              begun.theorems[last].references + (if begun.awaitingRefs then FindRefs(line) else [])
  {
    var labelled := CaptureLabel(begun, line);
    var collected := CollectRefs(labelled, line);
    assert r.theorems == collected.theorems;
  }

  /** What a line does to the newest record's label: the line's label
      when the search is still on after the `\begin`/`\end` stage;
      otherwise blank for a record opened on this line and as it was for
      an older one. */
  lemma StepNewestLabel(hierarchy: seq<string>, names: seq<string>, st: ScanState, raw: string)
    requires Valid(st, hierarchy)
    ensures var line := StripComment(raw);
            var r := Step(hierarchy, names, st, raw);
            var last := |r.theorems| - 1;
            |r.theorems| > 0 ==>
              r.theorems[last].latexLabel ==
                (if SearchAfter(st.awaitingLabel, names, line) && MatchLabel(line).Some? then MatchLabel(line).value
                 else if Opened(names, line) > 0 then ""
                 else st.theorems[last].latexLabel)
  {
    var line := StripComment(raw);
    var counted := st.(tracker := AdvanceAll(st.tracker, hierarchy, line));
    var begun := Environments(counted, hierarchy, names, line);
    EnvironmentsLabelSearch(counted, hierarchy, names, line);
    NewestAfterStages(st.theorems, st.awaitingRefs, begun, line, Opened(names, line),
                      SearchAfter(st.awaitingLabel, names, line), Step(hierarchy, names, st, raw));
  }

  /** What a line does to the newest record's references: those it had
      (none, for a record opened on this line) followed by the line's own
      while collection is on. */
  lemma StepNewestReferences(hierarchy: seq<string>, names: seq<string>, st: ScanState, raw: string)
    requires Valid(st, hierarchy)
    ensures var line := StripComment(raw);
            var r := Step(hierarchy, names, st, raw);
            var last := |r.theorems| - 1;
            |r.theorems| > 0 ==>
              r.theorems[last].references ==
                (if Opened(names, line) > 0 then [] else st.theorems[last].references) +
                (if st.awaitingRefs || Opened(names, line) > 0 then FindRefs(line) else [])
  {
    var line := StripComment(raw);
    var counted := st.(tracker := AdvanceAll(st.tracker, hierarchy, line));
    var begun := Environments(counted, hierarchy, names, line);
    NewestAfterStages(st.theorems, st.awaitingRefs, begun, line, Opened(names, line),
                      begun.awaitingLabel, Step(hierarchy, names, st, raw));
  }

  /** Records a line opens before its newest one stay blank: the label
      and the references of that line go to the newest record only. */
  lemma StepOpensBlank(hierarchy: seq<string>, names: seq<string>, st: ScanState, raw: string)
    requires Valid(st, hierarchy)
    ensures var r := Step(hierarchy, names, st, raw);
            forall k :: |st.theorems| <= k < |r.theorems| - 1 ==> r.theorems[k] == Fresh(r.theorems[k].number)
  {
    var line := StripComment(raw);
    var counted := st.(tracker := AdvanceAll(st.tracker, hierarchy, line));
    var begun := Environments(counted, hierarchy, names, line);
    if |begun.theorems| > 0 {
      LateStagesNewest(begun, line, Step(hierarchy, names, st, raw));
    }
  }

  /** `StepNewestLabel` and `StepNewestReferences` over the stage
      results as plain values. */
  lemma NewestAfterStages(
    before: seq<Theorem>, collecting: bool, begun: ScanState, line: string, n: nat, search: bool, r: ScanState)
    requires Consistent(begun)
    requires |begun.theorems| == |before| + n && begun.theorems[..|before|] == before
    requires forall k :: |before| <= k < |begun.theorems| ==> begun.theorems[k] == Fresh(begun.theorems[k].number)
    requires begun.awaitingLabel == search && begun.awaitingRefs == (collecting || n > 0)
    requires r == CloseProof(CollectRefs(CaptureLabel(begun, line), line), line)
    ensures var last := |r.theorems| - 1;
            |r.theorems| > 0 ==>
              && r.theorems[last].latexLabel ==
                 (if search && MatchLabel(line).Some? then MatchLabel(line).value
                  else if n > 0 then ""
                  else before[last].latexLabel)
              && r.theorems[last].references ==
                 (if n > 0 then [] else before[last].references) +
                 (if collecting || n > 0 then FindRefs(line) else [])
  {
    if |begun.theorems| > 0 {
      LateStagesNewest(begun, line, r);
      NewestOfLine(before, begun.theorems, n);
    }
  }

  /** The newest record after the `\begin`/`\end` stage is a new blank
      one if the line opened any, and the old newest one otherwise. */
  lemma NewestOfLine(before: seq<Theorem>, after: seq<Theorem>, n: nat)
    requires |after| == |before| + n > 0
    requires after[..|before|] == before
    requires forall k :: |before| <= k < |after| ==> after[k] == Fresh(after[k].number)
    ensures var last := |after| - 1;
            && after[last].latexLabel == (if n > 0 then "" else before[last].latexLabel)
            && after[last].references == (if n > 0 then [] else before[last].references)
  {
    var last := |after| - 1;
    if n == 0 {
      assert after[last] == after[..|before|][last];
    }
  }

  /** Numbering survives any change that keeps each record's identity. */
  lemma NumberedFromKept(ts: seq<Theorem>, ts': seq<Theorem>, from: nat, t: Tracker, hierarchy: seq<string>)
    requires Covers(t, hierarchy)
    requires |ts'| == |ts|
    requires forall k :: 0 <= k < |ts| ==> SameIdentity(ts'[k], ts[k])
    requires NumberedFrom(ts, from, t, hierarchy)
    ensures NumberedFrom(ts', from, t, hierarchy)
  {
  }

  /** `collect_theorems` on a document given as its lines. */
  function Scan(hierarchy: seq<string>, names: seq<string>, first: int, lines: seq<string>): (st: ScanState)
    ensures Valid(st, hierarchy)
    decreases |lines|
  {
    if |lines| == 0 then Start(hierarchy, first)
    else Step(hierarchy, names, Scan(hierarchy, names, first, lines[..|lines| - 1]), lines[|lines| - 1])
  }

  /** `Opened` summed over the comment-free lines: one per line and
      configured name whose `\begin` is on that line. */
  function Begins(names: seq<string>, lines: seq<string>): nat
    decreases |lines|
  {
    if |lines| == 0 then 0
    else Begins(names, lines[..|lines| - 1]) + Opened(names, StripComment(lines[|lines| - 1]))
  }

  /** The comment-free part of the line carries some level marker. */
  predicate LevelLine(hierarchy: seq<string>, raw: string) {
    MarkedFrom(hierarchy, StripComment(raw), 0)
  }

  /** The scan opens one record per line and configured name whose
      `\begin` is on that line. */
  lemma {:induction false} ScanCountsRecords(
    hierarchy: seq<string>, names: seq<string>, first: int, lines: seq<string>)
    ensures |Scan(hierarchy, names, first, lines).theorems| == Begins(names, lines)
    decreases |lines|
  {
    if |lines| > 0 {
      ScanCountsRecords(hierarchy, names, first, lines[..|lines| - 1]);
    }
  }

  /** The inner counter is `Begins` from the last line with a level
      marker on (that line's own included). */
  lemma {:induction false} ScanInnerSinceLevel(
    hierarchy: seq<string>, names: seq<string>, first: int, lines: seq<string>, m: nat)
    requires m < |lines| && LevelLine(hierarchy, lines[m])
    requires forall j :: m < j < |lines| ==> !LevelLine(hierarchy, lines[j])
    ensures Scan(hierarchy, names, first, lines).tracker.inner == Begins(names, lines[m..])
    decreases |lines|
  {
    var n := |lines| - 1;
    var prev := Scan(hierarchy, names, first, lines[..n]);
    var r := Scan(hierarchy, names, first, lines);
    StepInner(hierarchy, names, prev, lines[n], r);
    BeginsFrom(names, lines, m);
    var here := Opened(names, StripComment(lines[n]));
    if m < n {
      ScanInnerSinceLevel(hierarchy, names, first, lines[..n], m);
      assert !LevelLine(hierarchy, lines[n]);
      assert r.tracker.inner == prev.tracker.inner + here;
      assert Begins(names, lines[m..]) == Begins(names, lines[..n][m..]) + here;
    } else {
      assert r.tracker.inner == here;
      assert Begins(names, lines[m..]) == here;
    }
  }

  /** The inner counter after one more line, in terms of `LevelLine`. */
  lemma StepInner(hierarchy: seq<string>, names: seq<string>, st: ScanState, raw: string, r: ScanState)
    requires Valid(st, hierarchy) && r == Step(hierarchy, names, st, raw)
    ensures r.tracker.inner == (if LevelLine(hierarchy, raw) then 0 else st.tracker.inner) + Opened(names, StripComment(raw))
  {
  }

  /** `Begins` from line `m` on: that of the lines before the last one,
      then the last line's own. */
  lemma BeginsFrom(names: seq<string>, lines: seq<string>, m: nat)
    requires m < |lines|
    ensures var n := |lines| - 1;
            Begins(names, lines[m..]) ==
              (if m == n then 0 else Begins(names, lines[..n][m..])) + Opened(names, StripComment(lines[n]))
  {
    var n := |lines| - 1;
    assert lines[m..] == lines[..n][m..] + [lines[n]];
    BeginsSnoc(names, lines[..n][m..], lines[n]);
    if m == n {
      assert lines[..n][m..] == [];
    }
  }

  lemma BeginsSnoc(names: seq<string>, lines: seq<string>, raw: string)
    ensures Begins(names, lines + [raw]) == Begins(names, lines) + Opened(names, StripComment(raw))
  {
    assert (lines + [raw])[..|lines|] == lines;
  }

  /** Before any level marker, the inner counter counts every `\begin`. */
  lemma {:induction false} ScanInnerNoLevel(
    hierarchy: seq<string>, names: seq<string>, first: int, lines: seq<string>)
    requires forall j :: 0 <= j < |lines| ==> !LevelLine(hierarchy, lines[j])
    ensures Scan(hierarchy, names, first, lines).tracker.inner == Begins(names, lines)
    decreases |lines|
  {
    if |lines| > 0 {
      var n := |lines| - 1;
      ScanInnerNoLevel(hierarchy, names, first, lines[..n]);
      assert !LevelLine(hierarchy, lines[n]);
    }
  }

  /** Every record is unused, shows its label, and has one `.`-separated
      number part per distinct level name plus one. */
  predicate AllFresh(ts: seq<Theorem>, hierarchy: seq<string>) {
    forall k :: 0 <= k < |ts| ==>
      && !ts[k].used && ts[k].showLabel
      && |Split(ts[k].number, ".")| == |Dedup(hierarchy)| + 1
  }

  /** What the scan hands on: records never used, all showing their
      label, all numbered with |levels| + 1 components. */
  lemma {:induction false} ScanRecordsFresh(
    hierarchy: seq<string>, names: seq<string>, first: int, lines: seq<string>)
    ensures AllFresh(Scan(hierarchy, names, first, lines).theorems, hierarchy)
    decreases |lines|
  {
    if |lines| > 0 {
      var prev := Scan(hierarchy, names, first, lines[..|lines| - 1]);
      var r := Step(hierarchy, names, prev, lines[|lines| - 1]);
      assert Scan(hierarchy, names, first, lines) == r;
      ScanRecordsFresh(hierarchy, names, first, lines[..|lines| - 1]);
      StepExtends(hierarchy, names, prev, lines[|lines| - 1]);
      StepOpensFresh(hierarchy, names, prev, lines[|lines| - 1]);
      StepNumberShape(hierarchy, names, prev, lines[|lines| - 1]);
      AllFreshExtended(prev.theorems, r.theorems, hierarchy);
    }
  }

  lemma AllFreshExtended(ts: seq<Theorem>, ts': seq<Theorem>, hierarchy: seq<string>)
    requires AllFresh(ts, hierarchy) && |ts| <= |ts'|
    requires forall k :: 0 <= k < |ts| ==> SameIdentity(ts'[k], ts[k])
    requires forall k :: |ts| <= k < |ts'| ==> !ts'[k].used && ts'[k].showLabel
    requires forall k :: |ts| <= k < |ts'| ==> |Split(ts'[k].number, ".")| == |Dedup(hierarchy)| + 1
    ensures AllFresh(ts', hierarchy)
  {
  }

  /** Each record a line opens has |levels| + 1 number parts. */
  lemma StepNumberShape(hierarchy: seq<string>, names: seq<string>, st: ScanState, raw: string)
    requires Valid(st, hierarchy)
    ensures forall k :: |st.theorems| <= k < |Step(hierarchy, names, st, raw).theorems| ==>
              |Split(Step(hierarchy, names, st, raw).theorems[k].number, ".")| == |Dedup(hierarchy)| + 1
  {
    StepNumbers(hierarchy, names, st, raw);
    NumberedShape(Step(hierarchy, names, st, raw).theorems, |st.theorems|,
                  AdvanceAll(st.tracker, hierarchy, StripComment(raw)), hierarchy);
  }

  /** Records numbered from a tracker have |levels| + 1 number parts. */
  lemma NumberedShape(ts: seq<Theorem>, from: nat, t: Tracker, hierarchy: seq<string>)
    requires Covers(t, hierarchy) && NumberedFrom(ts, from, t, hierarchy)
    ensures forall k :: from <= k < |ts| ==> |Split(ts[k].number, ".")| == |Dedup(hierarchy)| + 1
  {
    forall k | from <= k < |ts|
      ensures |Split(ts[k].number, ".")| == |Dedup(hierarchy)| + 1
    {
      var t' := t.(inner := t.inner + (k - from) + 1);
      assert ts[k].number == Number(t', hierarchy);
      NumberParts(t', hierarchy);
    }
  }

  /** Scanning more lines only extends the state of a prefix: earlier
      records stay, only the newest can still gain references or (while
      its search is on) a label. */
  lemma {:induction false} ScanPrefixFrozen(
    hierarchy: seq<string>, names: seq<string>, first: int, lines: seq<string>, m: nat)
    requires m <= |lines|
    ensures Extends(Scan(hierarchy, names, first, lines[..m]), Scan(hierarchy, names, first, lines))
    decreases |lines| - m
  {
    if m == |lines| {
      assert lines[..m] == lines;
    } else {
      var a := Scan(hierarchy, names, first, lines[..m]);
      assert lines[..m + 1][..m] == lines[..m];
      var a' := Scan(hierarchy, names, first, lines[..m + 1]);
      assert a' == Step(hierarchy, names, a, lines[m]);
      StepExtends(hierarchy, names, a, lines[m]);
      ScanPrefixFrozen(hierarchy, names, first, lines, m + 1);
      ExtendsTransitive(a, a', Scan(hierarchy, names, first, lines));
    }
  }

  /** `str` of the inner counter is the whole number when there are no
      levels. */
  lemma FlatNumber(t: Tracker)
    ensures Number(t, []) == IntToString(t.inner)
  {
    assert Components(t, []) == [t.inner];
  }

  /** Without hierarchy levels the inner counter never resets: the
      records are numbered 1, 2, 3, ... in document order. */
  lemma {:induction false} ScanFlatNumbering(names: seq<string>, first: int, lines: seq<string>)
    ensures Scan([], names, first, lines).tracker.inner == |Scan([], names, first, lines).theorems|
    ensures forall k :: 0 <= k < |Scan([], names, first, lines).theorems| ==>
              Scan([], names, first, lines).theorems[k].number == IntToString(k + 1)
    decreases |lines|
  {
    if |lines| > 0 {
      var prev := Scan([], names, first, lines[..|lines| - 1]);
      ScanFlatNumbering(names, first, lines[..|lines| - 1]);
      StepExtends([], names, prev, lines[|lines| - 1]);
      StepFlatNumbers(names, prev, lines[|lines| - 1]);
    }
  }

  /** Without levels, a line's records continue the count where the
      inner counter stood. */
  lemma StepFlatNumbers(names: seq<string>, st: ScanState, raw: string)
    requires Valid(st, []) && st.tracker.inner == |st.theorems|
    ensures Step([], names, st, raw).tracker.inner == |Step([], names, st, raw).theorems|
    ensures forall k :: |st.theorems| <= k < |Step([], names, st, raw).theorems| ==>
              Step([], names, st, raw).theorems[k].number == IntToString(k + 1)
  {
    assert AdvanceAll(st.tracker, [], StripComment(raw)) == st.tracker by {
      assert !MarkedFrom([], StripComment(raw), 0);
    }
    StepNumbers([], names, st, raw);
    FlatNumbersFrom(Step([], names, st, raw).theorems, |st.theorems|, st.tracker);
  }

  /** Records numbered flatly from a count that matches their position
      show their 1-based positions. */
  lemma FlatNumbersFrom(ts: seq<Theorem>, from: nat, t: Tracker)
    requires Covers(t, []) && NumberedFrom(ts, from, t, []) && t.inner == from
    ensures forall k :: from <= k < |ts| ==> ts[k].number == IntToString(k + 1)
  {
    forall k | from <= k < |ts|
      ensures ts[k].number == IntToString(k + 1)
    {
      FlatNumber(t.(inner := t.inner + (k - from) + 1));
    }
  }

  /** `collect_theorems` (lines 45-114): the records of the whole
      document, none used yet, all showing their labels, each numbered
      with one component per distinct level plus the inner count. */
  function CollectTheorems(lines: seq<string>, hierarchy: seq<string>, names: seq<string>, first: int): (ts: seq<Theorem>)
    ensures AllFresh(ts, hierarchy)
  {
    ScanRecordsFresh(hierarchy, names, first, lines);
    Scan(hierarchy, names, first, lines).theorems
  }
}
