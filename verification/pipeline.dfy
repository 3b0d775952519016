/** The three stages `main` runs on a document (visualizer.py lines
    191-193): scan the LaTeX lines, translate labels when an aux file
    exists, and build the graph. */
module Pipeline {
  import opened Wrappers
  import opened Statements
  import Scanner
  import Translation
  import Graph

  /** The document's graph, or the exception the program stops with. */
  function Visualize(
    lines: seq<string>, aux: Option<seq<string>>,
    hierarchy: seq<string>, names: seq<string>, first: int,
    hash: string -> int, showLabels: bool, existingOnly: bool): (r: Result<Graph.DependencyGraph>)
    ensures aux.None? ==> r.Success?
    ensures r.Failure? ==>
              || (r.error.IndexError? && Translation.Malformed(r.error.line))
              || (r.error.KeyError? && Translation.ParseAux(aux.value).Success? &&
                  r.error.key !in Translation.ParseAux(aux.value).value)
    ensures var ts := Scanner.CollectTheorems(lines, hierarchy, names, first);
            r.Success? <==>
              || aux.None?
              || (&& (forall i :: 0 <= i < |aux.value| ==> !Translation.Malformed(aux.value[i]))
                  && Translation.ParseAux(aux.value).Success?
                  && forall k :: 0 <= k < |ts| ==> Translation.Translatable(Translation.ParseAux(aux.value).value, ts[k]))
  {
    AuxReadable(aux);
    var ts := Scanner.CollectTheorems(lines, hierarchy, names, first);
    match Translation.PossibleTranslation(aux, ts)
    case Failure(e) =>
      assert e.IndexError? ==> Translation.Malformed(e.line) by {
        if e.IndexError? {
          FailureIsMalformed(aux.value);
        }
      }
      Failure(e)
    case Success(translated) => Success(Graph.BuildGraph(translated, hash, showLabels, existingOnly))
  }

  /** An aux file is read without error iff none of its lines is a
      malformed `\newlabel` line. */
  lemma AuxReadable(aux: Option<seq<string>>)
    ensures aux.Some? ==>
              (Translation.ParseAux(aux.value).Success? <==>
               forall i :: 0 <= i < |aux.value| ==> !Translation.Malformed(aux.value[i]))
  {
    if aux.Some? {
      Translation.ParseAuxSucceeds(aux.value);
    }
  }

  /** A failed aux read names a malformed line. */
  lemma FailureIsMalformed(lines: seq<string>)
    requires Translation.ParseAux(lines).Failure?
    ensures Translation.Malformed(Translation.ParseAux(lines).error.line)
  {
    Translation.ParseAuxSucceeds(lines);
    var i :| 0 <= i < |lines| && Translation.Malformed(lines[i]);
    FirstMalformed(lines, i);
  }

  /** Some malformed line is the first one. */
  lemma {:induction false} FirstMalformed(lines: seq<string>, i: nat)
    requires i < |lines| && Translation.Malformed(lines[i])
    ensures Translation.ParseAux(lines).Failure?
    ensures Translation.Malformed(Translation.ParseAux(lines).error.line)
    decreases i
  {
    if j :| 0 <= j < i && Translation.Malformed(lines[j]) {
      FirstMalformed(lines, j);
    } else {
      Translation.ParseAuxFailsAtFirst(lines, i);
    }
  }

  /** Translation rewrites labels and references only. */
  lemma TranslationKeepsUse(aux: Option<seq<string>>, ts: seq<Theorem>)
    requires Translation.PossibleTranslation(aux, ts).Success?
    ensures |Translation.PossibleTranslation(aux, ts).value| == |ts|
    ensures forall k :: 0 <= k < |ts| ==> Translation.PossibleTranslation(aux, ts).value[k].used == ts[k].used
  {
  }

  lemma AllUnused(ts: seq<Theorem>, ts': seq<Theorem>)
    requires forall k :: 0 <= k < |ts| ==> !ts[k].used
    requires |ts'| == |ts| && forall k :: 0 <= k < |ts| ==> ts'[k].used == ts[k].used
    ensures forall k :: 0 <= k < |ts'| ==> !ts'[k].used
  {
  }

  /** Every node of the drawing is an end of one of its edges: a
      statement that cites nothing admitted and that nothing admitted
      cites does not appear. */
  lemma VisualizeNodesAreEndpoints(
    lines: seq<string>, aux: Option<seq<string>>,
    hierarchy: seq<string>, names: seq<string>, first: int,
    hash: string -> int, showLabels: bool, existingOnly: bool)
    requires Visualize(lines, aux, hierarchy, names, first, hash, showLabels, existingOnly).Success?
    ensures var g := Visualize(lines, aux, hierarchy, names, first, hash, showLabels, existingOnly).value;
            forall l :: l in g.nodes ==> exists e :: e in g.edges && (e.0 == l || e.1 == l)
  {
    var ts := Scanner.CollectTheorems(lines, hierarchy, names, first);
    var translated := Translation.PossibleTranslation(aux, ts).value;
    TranslationKeepsUse(aux, ts);
    assert Visualize(lines, aux, hierarchy, names, first, hash, showLabels, existingOnly).value ==
           Graph.BuildGraph(translated, hash, showLabels, existingOnly);
    AllUnused(ts, translated);
    Graph.NodesAreEndpoints(translated, hash, showLabels, existingOnly);
  }

  /** With the default of drawing only references to statements of the
      document, both ends of every edge are drawn nodes. */
  lemma VisualizeEndpointsAreNodes(
    lines: seq<string>, aux: Option<seq<string>>,
    hierarchy: seq<string>, names: seq<string>, first: int,
    hash: string -> int, showLabels: bool)
    requires Visualize(lines, aux, hierarchy, names, first, hash, showLabels, true).Success?
    ensures var g := Visualize(lines, aux, hierarchy, names, first, hash, showLabels, true).value;
            forall e :: e in g.edges ==> e.0 in g.nodes && e.1 in g.nodes
  {
    var ts := Scanner.CollectTheorems(lines, hierarchy, names, first);
    var translated := Translation.PossibleTranslation(aux, ts).value;
    Graph.EndpointsAreNodes(translated, hash, showLabels);
  }
}
