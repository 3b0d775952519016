/** `build_graph` of visualizer.py (lines 116-149): records without a
    label get a generated one, every admitted reference becomes an edge
    from the cited label to the citing record and marks both ends used,
    and every used record becomes a node. The Graphviz object is modelled
    by what it is given: a node table (a later node statement for the same
    name replaces the text of an earlier one) and a set of edges (the graph
    is strict, so repeated edges collapse). */
module Graph {
  import opened Strings
  import opened Statements

  /** The label lines 119-121 give a record that has none: its number, an
      underscore, and the decimal hash of its number. */
  function SyntheticLabel(number: string, hash: string -> int): string {
    number + "_" + IntToString(hash(number))
  }

  /** Lines 118-121: fill in missing labels, and hide generated ones. */
  function Synthesize(ts: seq<Theorem>, hash: string -> int): (r: seq<Theorem>)
    ensures |r| == |ts|
    ensures forall k :: 0 <= k < |ts| && ts[k].latexLabel != "" ==> r[k] == ts[k]
    ensures forall k :: 0 <= k < |ts| && ts[k].latexLabel == "" ==>
              r[k] == ts[k].(latexLabel := SyntheticLabel(ts[k].number, hash), showLabel := false)
    decreases |ts|
  {
    if |ts| == 0 then []
    else
      var t := ts[0];
      var t' := if t.latexLabel == "" then t.(latexLabel := SyntheticLabel(t.number, hash), showLabel := false) else t;
      var rest := Synthesize(ts[1..], hash);
      assert forall k :: 1 <= k < |ts| ==> ts[k] == ts[1..][k - 1];
      [t'] + rest
  }

  /** After synthesis every record has a non-empty label. */
  lemma SynthesizedLabelled(ts: seq<Theorem>, hash: string -> int)
    ensures forall k :: 0 <= k < |ts| ==> Synthesize(ts, hash)[k].latexLabel != ""
  {
    forall k | 0 <= k < |ts|
      ensures Synthesize(ts, hash)[k].latexLabel != ""
    {
      if ts[k].latexLabel == "" {
        assert |SyntheticLabel(ts[k].number, hash)| > 0;
      }
    }
  }

  /** Synthesis does nothing the second time. */
  lemma SynthesizeIdempotent(ts: seq<Theorem>, hash: string -> int)
    ensures Synthesize(Synthesize(ts, hash), hash) == Synthesize(ts, hash)
  {
    SynthesizedLabelled(ts, hash);
  }

  /** Distinct numbers get distinct synthetic labels: `str` of the hash
      holds no `_`, so the number ends at the label's last `_`. */
  lemma SyntheticLabelInjective(n1: string, n2: string, hash: string -> int)
    requires SyntheticLabel(n1, hash) == SyntheticLabel(n2, hash)
    ensures n1 == n2
  {
    var s := SyntheticLabel(n1, hash);
    var a1, a2 := IntToString(hash(n1)), IntToString(hash(n2));
    if |n1| <= |n2| {
      CutAtLastUnderscore(n1, a1, n2, a2);
    } else {
      CutAtLastUnderscore(n2, a2, n1, a1);
    }
    assert s[..|n1|] == n1 && s[..|n2|] == n2;
  }

  /** Two ways of writing a string as `n + "_" + a`, with `a` free of
      `_`, cut it at the same place. */
  lemma CutAtLastUnderscore(n1: string, a1: string, n2: string, a2: string)
    requires '_' !in a1 && n1 + "_" + a1 == n2 + "_" + a2 && |n1| <= |n2|
    ensures |n1| == |n2|
  {
    assert (n2 + "_" + a2)[|n2|] == '_';
  }

  /** Some record carries label `l`. */
  predicate HasLabel(ts: seq<Theorem>, l: string) {
    exists j :: 0 <= j < |ts| && ts[j].latexLabel == l
  }

  /** No record before `j` carries `j`'s label. */
  predicate FirstWithLabel(ts: seq<Theorem>, j: nat)
    requires j < |ts|
  {
    forall k :: 0 <= k < j ==> ts[k].latexLabel != ts[j].latexLabel
  }

  /** `node_exists` (lines 131-135). */
  function NodeExists(ts: seq<Theorem>, l: string): (b: bool)
    ensures b <==> HasLabel(ts, l)
    decreases |ts|
  {
    if |ts| == 0 then false
    else if ts[0].latexLabel == l then true
    else
      var b := NodeExists(ts[1..], l);
      assert HasLabel(ts, l) ==> HasLabel(ts[1..], l) by {
        if HasLabel(ts, l) {
          var j :| 0 <= j < |ts| && ts[j].latexLabel == l;
          assert ts[1..][j - 1] == ts[j];
        }
      }
      assert HasLabel(ts[1..], l) ==> HasLabel(ts, l) by {
        if HasLabel(ts[1..], l) {
          var j :| 0 <= j < |ts[1..]| && ts[1..][j].latexLabel == l;
          assert ts[j + 1] == ts[1..][j];
        }
      }
      b
  }

  /** `mark_used` (lines 125-129): the first record labelled `l`, if
      any, becomes used. */
  function MarkUsed(ts: seq<Theorem>, l: string): (r: seq<Theorem>)
    ensures |r| == |ts|
    ensures forall j :: 0 <= j < |ts| ==>
              r[j] == (if ts[j].latexLabel == l && FirstWithLabel(ts, j) then ts[j].(used := true) else ts[j])
    decreases |ts|
  {
    if |ts| == 0 then []
    else if ts[0].latexLabel == l then [ts[0].(used := true)] + ts[1..]
    else
      var rest := MarkUsed(ts[1..], l);
      forall j | 1 <= j < |ts|
        ensures ts[j].latexLabel == l ==> (FirstWithLabel(ts[1..], j - 1) <==> FirstWithLabel(ts, j))
        ensures ts[1..][j - 1] == ts[j]
      {
        assert ts[1..][j - 1] == ts[j];
        if ts[j].latexLabel == l {
          if FirstWithLabel(ts[1..], j - 1) {
            forall k | 0 <= k < j
              ensures ts[k].latexLabel != ts[j].latexLabel
            {
              if k > 0 {
                assert ts[k] == ts[1..][k - 1];
              }
            }
          }
          if FirstWithLabel(ts, j) {
            forall k | 0 <= k < j - 1
              ensures ts[1..][k].latexLabel != ts[1..][j - 1].latexLabel
            {
              assert ts[1..][k] == ts[k + 1];
            }
          }
        }
      }
      [ts[0]] + rest
  }

  /** A reference the loop at lines 138-139 acts on: any reference, or with
      `existingOnly` one whose label some record carries. */
  predicate Admitted(ts: seq<Theorem>, r: string, existingOnly: bool) {
    !existingOnly || HasLabel(ts, r)
  }

  /** `(i, r)` for each reference `r` of record `i`, in the order the
      nested loops at lines 137-138 visit them. */
  function Citations(ts: seq<Theorem>): seq<(nat, string)> {
    CitationsFrom(ts, 0)
  }

  function CitationsFrom(ts: seq<Theorem>, i: nat): (cs: seq<(nat, string)>)
    ensures forall c :: c in cs <==> i <= c.0 < |ts| && c.1 in ts[c.0].references
    decreases |ts| - i
  {
    if i >= |ts| then [] else Pairs(i, ts[i].references) + CitationsFrom(ts, i + 1)
  }

  function Pairs(i: nat, refs: seq<string>): (cs: seq<(nat, string)>)
    ensures forall c :: c in cs <==> c.0 == i && c.1 in refs
    decreases |refs|
  {
    if |refs| == 0 then [] else [(i, refs[0])] + Pairs(i, refs[1..])
  }

  /** The records while the loop runs, and the edges added so far. */
  datatype Pass = Pass(theorems: seq<Theorem>, edges: set<(string, string)>)

  /** Lines 139-142 for reference `c.1` of record `c.0`. */
  function Cite(p: Pass, c: (nat, string), existingOnly: bool): (q: Pass)
    requires c.0 < |p.theorems|
    ensures |q.theorems| == |p.theorems|
  {
    var (i, r) := c;
    if !existingOnly || NodeExists(p.theorems, r) then
      var marked := MarkUsed(p.theorems, r);
      Pass(marked[i := marked[i].(used := true)], p.edges + {(r, p.theorems[i].latexLabel)})
    else p
  }

  /** The loop at lines 137-142 over the citations still to visit. */
  function Link(p: Pass, cs: seq<(nat, string)>, existingOnly: bool): (q: Pass)
    requires forall c :: c in cs ==> c.0 < |p.theorems|
    ensures |q.theorems| == |p.theorems|
    decreases |cs|
  {
    if |cs| == 0 then p
    else Link(Cite(p, cs[0], existingOnly), cs[1..], existingOnly)
  }

  /** `ts'` is `ts` with only `used` flags possibly changed. */
  predicate SameButUsed(ts: seq<Theorem>, ts': seq<Theorem>) {
    |ts'| == |ts| && forall j :: 0 <= j < |ts| ==> ts'[j] == ts[j].(used := ts'[j].used)
  }

  /** Citation `c` makes record `j` used: `j` is the citing record, or
      the first record carrying the cited label. */
  predicate Marks(ts: seq<Theorem>, c: (nat, string), j: nat, existingOnly: bool)
    requires j < |ts|
  {
    Admitted(ts, c.1, existingOnly) && (c.0 == j || (ts[j].latexLabel == c.1 && FirstWithLabel(ts, j)))
  }

  /** The edge of an admitted citation: cited label to citing label. */
  predicate EdgeOf(ts: seq<Theorem>, cs: seq<(nat, string)>, e: (string, string), existingOnly: bool) {
    exists c :: c in cs && c.0 < |ts| && Admitted(ts, c.1, existingOnly) && e == (c.1, ts[c.0].latexLabel)
  }

  /** One citation, stated against the labels of `ts`, which the loop
      never changes. */
  lemma CiteEffect(ts: seq<Theorem>, p: Pass, c: (nat, string), existingOnly: bool)
    requires SameButUsed(ts, p.theorems) && c.0 < |ts|
    ensures SameButUsed(ts, Cite(p, c, existingOnly).theorems)
    ensures Cite(p, c, existingOnly).edges ==
              p.edges + (if Admitted(ts, c.1, existingOnly) then {(c.1, ts[c.0].latexLabel)} else {})
    ensures forall j :: 0 <= j < |ts| ==>
              (Cite(p, c, existingOnly).theorems[j].used <==> p.theorems[j].used || Marks(ts, c, j, existingOnly))
  {
    var q := Cite(p, c, existingOnly);
    assert HasLabel(p.theorems, c.1) <==> HasLabel(ts, c.1) by {
      if HasLabel(p.theorems, c.1) {
        var j :| 0 <= j < |p.theorems| && p.theorems[j].latexLabel == c.1;
        assert ts[j].latexLabel == c.1;
      }
      if HasLabel(ts, c.1) {
        var j :| 0 <= j < |ts| && ts[j].latexLabel == c.1;
        assert p.theorems[j].latexLabel == c.1;
      }
    }
    forall j | 0 <= j < |ts|
      ensures FirstWithLabel(p.theorems, j) <==> FirstWithLabel(ts, j)
    {
      if FirstWithLabel(p.theorems, j) {
        forall k | 0 <= k < j
          ensures ts[k].latexLabel != ts[j].latexLabel
        {
          assert p.theorems[k].latexLabel != p.theorems[j].latexLabel;
        }
      }
      if FirstWithLabel(ts, j) {
        forall k | 0 <= k < j
          ensures p.theorems[k].latexLabel != p.theorems[j].latexLabel
        {
          assert ts[k].latexLabel != ts[j].latexLabel;
        }
      }
    }
  }

  /** The whole loop: the edges are those of the admitted citations, and
      a record ends up used when it was, or some visited citation marks
      it. */
  lemma {:induction false} LinkEffect(ts: seq<Theorem>, p: Pass, cs: seq<(nat, string)>, existingOnly: bool)
    requires SameButUsed(ts, p.theorems)
    requires forall c :: c in cs ==> c.0 < |ts|
    ensures SameButUsed(ts, Link(p, cs, existingOnly).theorems)
    ensures forall e :: e in Link(p, cs, existingOnly).edges <==> e in p.edges || EdgeOf(ts, cs, e, existingOnly)
    ensures forall j :: 0 <= j < |ts| ==>
              (Link(p, cs, existingOnly).theorems[j].used <==>
                 p.theorems[j].used || exists c :: c in cs && Marks(ts, c, j, existingOnly))
    decreases |cs|
  {
    if |cs| > 0 {
      var p1 := Cite(p, cs[0], existingOnly);
      var q := Link(p1, cs[1..], existingOnly);
      assert q == Link(p, cs, existingOnly);
      CiteEffect(ts, p, cs[0], existingOnly);
      LinkEffect(ts, p1, cs[1..], existingOnly);
      assert forall c :: c in cs <==> c == cs[0] || c in cs[1..];
      forall e
        ensures e in q.edges <==> e in p.edges || EdgeOf(ts, cs, e, existingOnly)
      {
        if EdgeOf(ts, cs, e, existingOnly) && e !in p1.edges {
          var c :| c in cs && c.0 < |ts| && Admitted(ts, c.1, existingOnly) && e == (c.1, ts[c.0].latexLabel);
          assert c in cs[1..];
        }
        if EdgeOf(ts, cs[1..], e, existingOnly) {
          var c :| c in cs[1..] && c.0 < |ts| && Admitted(ts, c.1, existingOnly) && e == (c.1, ts[c.0].latexLabel);
          assert c in cs;
        }
      }
      forall j | 0 <= j < |ts|
        ensures q.theorems[j].used <==> p.theorems[j].used || exists c :: c in cs && Marks(ts, c, j, existingOnly)
      {
        if exists c :: c in cs && Marks(ts, c, j, existingOnly) {
          var c :| c in cs && Marks(ts, c, j, existingOnly);
          if c != cs[0] {
            assert c in cs[1..];
          }
        }
        if exists c :: c in cs[1..] && Marks(ts, c, j, existingOnly) {
          var c :| c in cs[1..] && Marks(ts, c, j, existingOnly);
          assert c in cs;
        }
      }
    }
  }

  /** Lines 144-147 over the records still to visit: each used record
      sets the node named by its label. */
  function Nodes(ts: seq<Theorem>, showLabels: bool): (nodes: map<string, string>)
    decreases |ts|
  {
    if |ts| == 0 then map[]
    else
      var earlier := Nodes(ts[..|ts| - 1], showLabels);
      var t := ts[|ts| - 1];
      if t.used then earlier[t.latexLabel := NodeText(t, showLabels)] else earlier
  }

  /** Line 146: the record's number, then ` = ` and its label when both
      the record and the option show labels. */
  function NodeText(t: Theorem, showLabels: bool): string {
    t.number + (if t.showLabel && showLabels then " = " + t.latexLabel else "")
  }

  /** The nodes are named by exactly the labels of the used records. */
  lemma {:induction false} NodesKeys(ts: seq<Theorem>, showLabels: bool, l: string)
    ensures l in Nodes(ts, showLabels) <==> exists j :: 0 <= j < |ts| && ts[j].used && ts[j].latexLabel == l
    decreases |ts|
  {
    if |ts| > 0 {
      var init := ts[..|ts| - 1];
      NodesKeys(init, showLabels, l);
      if exists j :: 0 <= j < |ts| && ts[j].used && ts[j].latexLabel == l {
        var j :| 0 <= j < |ts| && ts[j].used && ts[j].latexLabel == l;
        if j < |init| {
          assert init[j] == ts[j];
        }
      }
      if exists j :: 0 <= j < |init| && init[j].used && init[j].latexLabel == l {
        var j :| 0 <= j < |init| && init[j].used && init[j].latexLabel == l;
        assert ts[j] == init[j];
      }
    }
  }

  /** A node's text comes from the LAST used record with that label. */
  lemma {:induction false} NodesLastWins(ts: seq<Theorem>, showLabels: bool, j: nat)
    requires j < |ts| && ts[j].used
    requires forall k :: j < k < |ts| ==> !(ts[k].used && ts[k].latexLabel == ts[j].latexLabel)
    ensures ts[j].latexLabel in Nodes(ts, showLabels)
    ensures Nodes(ts, showLabels)[ts[j].latexLabel] == NodeText(ts[j], showLabels)
    decreases |ts|
  {
    if j < |ts| - 1 {
      var init := ts[..|ts| - 1];
      assert init[j] == ts[j];
      assert forall k :: j < k < |init| ==> init[k] == ts[k];
      NodesLastWins(init, showLabels, j);
    }
  }

  /** The reference definition of the edges: cited label to citing
      label, for every admitted reference of every record. */
  predicate IsEdge(ts: seq<Theorem>, e: (string, string), existingOnly: bool) {
    exists i :: 0 <= i < |ts| && e.0 in ts[i].references && Admitted(ts, e.0, existingOnly) && e.1 == ts[i].latexLabel
  }

  /** The reference definition of the records that end up used: those
      already used, those citing an admitted reference, and the first
      record carrying a label that some record cites (and is admitted). */
  predicate Relevant(ts: seq<Theorem>, j: nat, existingOnly: bool)
    requires j < |ts|
  {
    || ts[j].used
    || (exists r :: r in ts[j].references && Admitted(ts, r, existingOnly))
    || (FirstWithLabel(ts, j) && Admitted(ts, ts[j].latexLabel, existingOnly) &&
        exists i :: 0 <= i < |ts| && ts[j].latexLabel in ts[i].references)
  }

  /** Some relevant record carries label `l`. */
  predicate IsNode(ts: seq<Theorem>, l: string, existingOnly: bool) {
    exists j :: 0 <= j < |ts| && ts[j].latexLabel == l && Relevant(ts, j, existingOnly)
  }

  /** The citations visited are the admitted references, so the edges
      collected are exactly those of the reference definition. */
  lemma CitationEdges(ts: seq<Theorem>, e: (string, string), existingOnly: bool)
    ensures EdgeOf(ts, Citations(ts), e, existingOnly) <==> IsEdge(ts, e, existingOnly)
  {
    var cs := Citations(ts);
    if IsEdge(ts, e, existingOnly) {
      var i :| 0 <= i < |ts| && e.0 in ts[i].references && Admitted(ts, e.0, existingOnly) && e.1 == ts[i].latexLabel;
      assert (i, e.0) in cs;
    }
  }

  /** A record is marked by some visited citation, or was used, exactly
      when it is relevant. */
  lemma CitationMarks(ts: seq<Theorem>, j: nat, existingOnly: bool)
    requires j < |ts|
    ensures (ts[j].used || exists c :: c in Citations(ts) && Marks(ts, c, j, existingOnly)) <==> Relevant(ts, j, existingOnly)
  {
    var cs := Citations(ts);
    if exists r :: r in ts[j].references && Admitted(ts, r, existingOnly) {
      var r :| r in ts[j].references && Admitted(ts, r, existingOnly);
      assert Marks(ts, (j, r), j, existingOnly) && (j, r) in cs;
    }
    if FirstWithLabel(ts, j) && Admitted(ts, ts[j].latexLabel, existingOnly) &&
       exists i :: 0 <= i < |ts| && ts[j].latexLabel in ts[i].references {
      var i :| 0 <= i < |ts| && ts[j].latexLabel in ts[i].references;
      var c := (i, ts[j].latexLabel);
      assert Marks(ts, c, j, existingOnly) && c in cs;
    }
  }

  /** Every label some record carries has a first record carrying it. */
  lemma {:induction false} FirstCarrier(ts: seq<Theorem>, j: nat)
    requires j < |ts|
    ensures exists k :: 0 <= k <= j && ts[k].latexLabel == ts[j].latexLabel && FirstWithLabel(ts, k)
    decreases j
  {
    if !FirstWithLabel(ts, j) {
      var k :| 0 <= k < j && ts[k].latexLabel == ts[j].latexLabel;
      FirstCarrier(ts, k);
    }
  }

  /** The loop at lines 137-142 over all citations, from no edges. */
  function LinkAll(named: seq<Theorem>, existingOnly: bool): (p: Pass)
    ensures |p.theorems| == |named|
  {
    Link(Pass(named, {}), Citations(named), existingOnly)
  }

  /** The loop's outcome against the reference definitions: only `used`
      flags change, they become those of the relevant records, and the
      edges are those of `IsEdge`. */
  lemma LinkAllEffect(named: seq<Theorem>, existingOnly: bool)
    ensures SameButUsed(named, LinkAll(named, existingOnly).theorems)
    ensures forall k :: 0 <= k < |named| ==>
              (LinkAll(named, existingOnly).theorems[k].used <==> Relevant(named, k, existingOnly))
    ensures forall e :: e in LinkAll(named, existingOnly).edges <==> IsEdge(named, e, existingOnly)
  {
    var linked := LinkAll(named, existingOnly);
    LinkEffect(named, Pass(named, {}), Citations(named), existingOnly);
    forall e
      ensures e in linked.edges <==> IsEdge(named, e, existingOnly)
    {
      CitationEdges(named, e, existingOnly);
    }
    forall k | 0 <= k < |named|
      ensures linked.theorems[k].used <==> Relevant(named, k, existingOnly)
    {
      CitationMarks(named, k, existingOnly);
    }
  }

  /** The nodes are named by the labels of the relevant records. */
  lemma LinkedNodes(named: seq<Theorem>, linked: seq<Theorem>, showLabels: bool, existingOnly: bool)
    requires SameButUsed(named, linked)
    requires forall k :: 0 <= k < |named| ==> (linked[k].used <==> Relevant(named, k, existingOnly))
    ensures forall l :: l in Nodes(linked, showLabels) <==> IsNode(named, l, existingOnly)
  {
    forall l
      ensures l in Nodes(linked, showLabels) <==> IsNode(named, l, existingOnly)
    {
      NodesKeys(linked, showLabels, l);
      if IsNode(named, l, existingOnly) {
        var j :| 0 <= j < |named| && named[j].latexLabel == l && Relevant(named, j, existingOnly);
        assert linked[j].used && linked[j].latexLabel == l;
      }
      if exists j :: 0 <= j < |linked| && linked[j].used && linked[j].latexLabel == l {
        var j :| 0 <= j < |linked| && linked[j].used && linked[j].latexLabel == l;
        assert named[j].latexLabel == l;
      }
    }
  }

  /** What `build_graph` hands to Graphviz. */
  datatype DependencyGraph = DependencyGraph(nodes: map<string, string>, edges: set<(string, string)>)

  /** `build_graph` (lines 116-149) with Python's string hash as a
      parameter. Edges and node names follow the reference definitions
      above, taken over the records once their labels are filled in. */
  function BuildGraph(ts: seq<Theorem>, hash: string -> int, showLabels: bool, existingOnly: bool): (g: DependencyGraph)
    ensures forall e :: e in g.edges <==> IsEdge(Synthesize(ts, hash), e, existingOnly)
    ensures forall l :: l in g.nodes <==> IsNode(Synthesize(ts, hash), l, existingOnly)
  {
    var named := Synthesize(ts, hash);
    var linked := LinkAll(named, existingOnly);
    LinkAllEffect(named, existingOnly);
    LinkedNodes(named, linked.theorems, showLabels, existingOnly);
    DependencyGraph(Nodes(linked.theorems, showLabels), linked.edges)
  }

  /** A node's text is that of the last relevant record with its label;
      a record whose label was generated shows only its number. */
  lemma BuildGraphNodeText(ts: seq<Theorem>, hash: string -> int, showLabels: bool, existingOnly: bool,
                           named: seq<Theorem>, j: nat)
    requires named == Synthesize(ts, hash)
    requires j < |named| && Relevant(named, j, existingOnly)
    requires forall k :: j < k < |named| ==> !(Relevant(named, k, existingOnly) && named[k].latexLabel == named[j].latexLabel)
    ensures named[j].latexLabel in BuildGraph(ts, hash, showLabels, existingOnly).nodes
    ensures BuildGraph(ts, hash, showLabels, existingOnly).nodes[named[j].latexLabel] == NodeText(named[j], showLabels)
    ensures ts[j].latexLabel == "" ==> BuildGraph(ts, hash, showLabels, existingOnly).nodes[named[j].latexLabel] == ts[j].number
  {
    var linked := LinkAll(named, existingOnly);
    LinkAllEffect(named, existingOnly);
    assert BuildGraph(ts, hash, showLabels, existingOnly).nodes == Nodes(linked.theorems, showLabels);
    LinkedNodeText(named, linked.theorems, showLabels, existingOnly, j);
  }

  lemma LinkedNodeText(named: seq<Theorem>, linked: seq<Theorem>, showLabels: bool, existingOnly: bool, j: nat)
    requires SameButUsed(named, linked)
    requires forall k :: 0 <= k < |named| ==> (linked[k].used <==> Relevant(named, k, existingOnly))
    requires j < |named| && Relevant(named, j, existingOnly)
    requires forall k :: j < k < |named| ==>
               !(Relevant(named, k, existingOnly) && named[k].latexLabel == named[j].latexLabel)
    ensures named[j].latexLabel in Nodes(linked, showLabels)
    ensures Nodes(linked, showLabels)[named[j].latexLabel] == NodeText(named[j], showLabels)
  {
    NodesLastWins(linked, showLabels, j);
    assert NodeText(linked[j], showLabels) == NodeText(named[j], showLabels);
  }

  /** Synthesis leaves the `used` flags alone. */
  lemma SynthesizeKeepsUse(ts: seq<Theorem>, hash: string -> int)
    ensures forall k :: 0 <= k < |ts| ==> Synthesize(ts, hash)[k].used == ts[k].used
  {
  }

  /** On records fresh from the scan (none used yet), every node is an
      end of some edge: a record that cites nothing admitted and that no
      admitted reference points at is left out of the drawing. */
  lemma NodesAreEndpoints(ts: seq<Theorem>, hash: string -> int, showLabels: bool, existingOnly: bool)
    requires forall k :: 0 <= k < |ts| ==> !ts[k].used
    ensures forall l :: l in BuildGraph(ts, hash, showLabels, existingOnly).nodes ==>
              exists e :: e in BuildGraph(ts, hash, showLabels, existingOnly).edges && (e.0 == l || e.1 == l)
  {
    var named := Synthesize(ts, hash);
    var g := BuildGraph(ts, hash, showLabels, existingOnly);
    SynthesizeKeepsUse(ts, hash);
    forall l | l in g.nodes
      ensures exists e :: e in g.edges && (e.0 == l || e.1 == l)
    {
      var j :| 0 <= j < |named| && named[j].latexLabel == l && Relevant(named, j, existingOnly);
      var e := RelevantEdge(named, j, existingOnly);
      assert e in g.edges;
    }
  }

  /** An edge at a relevant record that was not used to begin with. */
  lemma RelevantEdge(ts: seq<Theorem>, j: nat, existingOnly: bool) returns (e: (string, string))
    requires j < |ts| && !ts[j].used && Relevant(ts, j, existingOnly)
    ensures IsEdge(ts, e, existingOnly) && (e.0 == ts[j].latexLabel || e.1 == ts[j].latexLabel)
  {
    if r :| r in ts[j].references && Admitted(ts, r, existingOnly) {
      e := (r, ts[j].latexLabel);
    } else {
      var i :| 0 <= i < |ts| && ts[j].latexLabel in ts[i].references;
      e := (ts[j].latexLabel, ts[i].latexLabel);
    }
  }

  /** With `existingOnly` (the default), both ends of every edge given
      to `edge` are names given to `node`. */
  lemma EndpointsAreNodes(ts: seq<Theorem>, hash: string -> int, showLabels: bool)
    ensures forall e :: e in BuildGraph(ts, hash, showLabels, true).edges ==>
              e.0 in BuildGraph(ts, hash, showLabels, true).nodes && e.1 in BuildGraph(ts, hash, showLabels, true).nodes
  {
    var named := Synthesize(ts, hash);
    var g := BuildGraph(ts, hash, showLabels, true);
    forall e | e in g.edges
      ensures e.0 in g.nodes && e.1 in g.nodes
    {
      var i :| 0 <= i < |named| && e.0 in named[i].references && Admitted(named, e.0, true) && e.1 == named[i].latexLabel;
      assert Relevant(named, i, true);
      assert IsNode(named, e.1, true);
      var j :| 0 <= j < |named| && named[j].latexLabel == e.0;
      FirstCarrier(named, j);
      var k :| 0 <= k <= j && named[k].latexLabel == e.0 && FirstWithLabel(named, k);
      assert Relevant(named, k, true);
      assert IsNode(named, e.0, true);
    }
  }
}
