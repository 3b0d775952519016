/** The optional label translation of visualizer.py (lines 21-43): each
    `\newlabel` line of the LaTeX aux file maps its key to the line's
    second-to-last `}{`-separated segment, and every labelled record then
    carries that segment in place of its label and references. */
module Translation {
  import opened Wrappers
  import opened Patterns
  import opened Statements

  /** `line` is a `\newlabel` line for key `k`. */
  predicate Declares(line: string, k: string) {
    MatchNewLabel(line) == Some(k)
  }

  /** A `\newlabel` line with no `}{`, whose second-to-last segment does
      not exist. */
  predicate Malformed(line: string) {
    MatchNewLabel(line).Some? && AuxValue(line).None?
  }

  /** `collect_label_translation` on the aux file given as its lines
      (lines 21-31): lines are read in order, a line that is no
      `\newlabel` line is skipped, and a later line for a key overwrites
      an earlier one. The first malformed line raises. */
  function ParseAux(lines: seq<string>): (r: Result<map<string, string>>)
    ensures r.Failure? ==> r.error.IndexError?
    decreases |lines|
  {
    if |lines| == 0 then Success(map[])
    else
      match ParseAux(lines[..|lines| - 1])
      case Failure(e) => Failure(e)
      case Success(m) =>
        var line := lines[|lines| - 1];
        match MatchNewLabel(line)
        case None => Success(m)
        case Some(k) =>
          match AuxValue(line)
          case None => Failure(IndexError(line))
          case Some(v) => Success(m[k := v])
  }

  /** Reading the aux file succeeds exactly when no `\newlabel` line is
      malformed. */
  lemma {:induction false} ParseAuxSucceeds(lines: seq<string>)
    ensures ParseAux(lines).Success? <==> forall i :: 0 <= i < |lines| ==> !Malformed(lines[i])
    decreases |lines|
  {
    if |lines| > 0 {
      var init := lines[..|lines| - 1];
      ParseAuxSucceeds(init);
      assert forall i :: 0 <= i < |init| ==> init[i] == lines[i];
    }
  }

  /** The error reported is the first malformed line. */
  lemma {:induction false} ParseAuxFailsAtFirst(lines: seq<string>, i: nat)
    requires i < |lines| && Malformed(lines[i])
    requires forall j :: 0 <= j < i ==> !Malformed(lines[j])
    ensures ParseAux(lines) == Failure(IndexError(lines[i]))
    decreases |lines|
  {
    var init := lines[..|lines| - 1];
    assert forall j :: 0 <= j < |init| ==> init[j] == lines[j];
    if i == |lines| - 1 {
      ParseAuxSucceeds(init);
    } else {
      ParseAuxFailsAtFirst(init, i);
    }
  }

  /** The table's keys are exactly the keys some `\newlabel` line
      declares. */
  lemma ParseAuxKeys(lines: seq<string>)
    requires ParseAux(lines).Success?
    ensures forall k :: k in ParseAux(lines).value <==> exists i :: 0 <= i < |lines| && Declares(lines[i], k)
  {
    forall k
      ensures k in ParseAux(lines).value <==> exists i :: 0 <= i < |lines| && Declares(lines[i], k)
    {
      ParseAuxKey(lines, k);
    }
  }

  lemma {:induction false} ParseAuxKey(lines: seq<string>, k: string)
    requires ParseAux(lines).Success?
    ensures k in ParseAux(lines).value <==> exists i :: 0 <= i < |lines| && Declares(lines[i], k)
    decreases |lines|
  {
    if |lines| > 0 {
      var init := lines[..|lines| - 1];
      var last := lines[|lines| - 1];
      ParseAuxKey(init, k);
      var m0 := ParseAux(init).value;
      assert k in ParseAux(lines).value <==> k in m0 || Declares(last, k);
      DeclaredInPrefix(lines, init, k);
    }
  }

  /** Some line declares `k` iff an earlier one does or the last does. */
  lemma DeclaredInPrefix(lines: seq<string>, init: seq<string>, k: string)
    requires |lines| > 0 && init == lines[..|lines| - 1]
    ensures (exists i :: 0 <= i < |lines| && Declares(lines[i], k)) <==>
            (exists i :: 0 <= i < |init| && Declares(init[i], k)) || Declares(lines[|lines| - 1], k)
  {
    if exists i :: 0 <= i < |lines| && Declares(lines[i], k) {
      var i :| 0 <= i < |lines| && Declares(lines[i], k);
      if i < |init| {
        assert Declares(init[i], k);
      }
    }
    if exists i :: 0 <= i < |init| && Declares(init[i], k) {
      var i :| 0 <= i < |init| && Declares(init[i], k);
      assert Declares(lines[i], k);
    }
  }

  /** A key maps to the value of the LAST line declaring it. */
  lemma {:induction false} ParseAuxLastWins(lines: seq<string>, i: nat, k: string)
    requires ParseAux(lines).Success?
    requires i < |lines| && Declares(lines[i], k)
    requires forall j :: i < j < |lines| ==> !Declares(lines[j], k)
    ensures AuxValue(lines[i]).Some?
    ensures k in ParseAux(lines).value && ParseAux(lines).value[k] == AuxValue(lines[i]).value
    decreases |lines|
  {
    var init := lines[..|lines| - 1];
    if i < |lines| - 1 {
      assert init[i] == lines[i];
      assert forall j :: i < j < |init| ==> init[j] == lines[j];
      ParseAuxLastWins(init, i, k);
    }
  }

  /** `[label_trans[i] for i in refs]`: the first reference missing from
      the table raises `KeyError`. */
  function TranslateRefs(m: map<string, string>, refs: seq<string>): (r: Result<seq<string>>)
    ensures r.Success? <==> forall i :: 0 <= i < |refs| ==> refs[i] in m
    ensures r.Success? ==> |r.value| == |refs| && forall i :: 0 <= i < |refs| ==> r.value[i] == m[refs[i]]
    ensures r.Failure? ==> exists i :: 0 <= i < |refs| && r.error == KeyError(refs[i]) && refs[i] !in m
    decreases |refs|
  {
    if |refs| == 0 then Success([])
    else if refs[0] !in m then Failure(KeyError(refs[0]))
    else
      match TranslateRefs(m, refs[1..])
      case Failure(e) =>
        ghost var i :| 0 <= i < |refs[1..]| && e == KeyError(refs[1..][i]) && refs[1..][i] !in m;
        assert refs[i + 1] == refs[1..][i];
        Failure(e)
      case Success(rest) =>
        assert forall i :: 1 <= i < |refs| ==> refs[i] == refs[1..][i - 1];
        Success([m[refs[0]]] + rest)
  }

  /** The reference reported missing is the first one that is. */
  lemma {:induction false} TranslateRefsFirstMissing(m: map<string, string>, refs: seq<string>, i: nat)
    requires i < |refs| && refs[i] !in m
    requires forall j :: 0 <= j < i ==> refs[j] in m
    ensures TranslateRefs(m, refs) == Failure(KeyError(refs[i]))
    decreases |refs|
  {
    if i > 0 {
      assert forall j :: 0 <= j < i - 1 ==> refs[1..][j] == refs[j + 1];
      TranslateRefsFirstMissing(m, refs[1..], i - 1);
    }
  }

  /** A record the translation can rewrite: unlabelled, or labelled with
      its label and all its references in the table. */
  predicate Translatable(m: map<string, string>, t: Theorem) {
    t.latexLabel == "" || (t.latexLabel in m && forall i :: 0 <= i < |t.references| ==> t.references[i] in m)
  }

  /** `t'` is `t` translated: an unlabelled record is left exactly as it
      was (its references stay untranslated too); a labelled one has its
      label and each reference replaced by the table's entry, and nothing
      else changes. */
  predicate Translated(m: map<string, string>, t: Theorem, t': Theorem) {
    if t.latexLabel == "" then t' == t
    else
      && t.latexLabel in m
      && t'.latexLabel == m[t.latexLabel]
      && t'.number == t.number && t'.used == t.used && t'.showLabel == t.showLabel
      && |t'.references| == |t.references|
      && forall i :: 0 <= i < |t.references| ==> t.references[i] in m && t'.references[i] == m[t.references[i]]
  }

  /** One iteration of the loop at lines 38-43: the label is looked up
      first, then the references in order. */
  function TranslateOne(m: map<string, string>, t: Theorem): (r: Result<Theorem>)
    ensures r.Success? <==> Translatable(m, t)
    ensures r.Success? ==> Translated(m, t, r.value)
    ensures t.latexLabel != "" && t.latexLabel !in m ==> r == Failure(KeyError(t.latexLabel))
    ensures r.Failure? ==> r.error.KeyError? && r.error.key !in m
  {
    if t.latexLabel == "" then Success(t)
    else if t.latexLabel !in m then Failure(KeyError(t.latexLabel))
    else
      match TranslateRefs(m, t.references)
      case Failure(e) => Failure(e)
      case Success(refs) => Success(t.(latexLabel := m[t.latexLabel], references := refs))
  }

  /** The loop at lines 38-43 over all records; the first record that
      cannot be translated raises. */
  function TranslateAll(m: map<string, string>, ts: seq<Theorem>): (r: Result<seq<Theorem>>)
    ensures r.Success? <==> forall k :: 0 <= k < |ts| ==> Translatable(m, ts[k])
    ensures r.Success? ==> |r.value| == |ts| && forall k :: 0 <= k < |ts| ==> Translated(m, ts[k], r.value[k])
    ensures r.Failure? ==> r.error.KeyError? && r.error.key !in m
    decreases |ts|
  {
    if |ts| == 0 then Success([])
    else
      match TranslateOne(m, ts[0])
      case Failure(e) => Failure(e)
      case Success(t) =>
        match TranslateAll(m, ts[1..])
        case Failure(e) =>
          ghost var k :| 0 <= k < |ts[1..]| && !Translatable(m, ts[1..][k]);
          assert ts[k + 1] == ts[1..][k];
          Failure(e)
        case Success(rest) =>
          assert forall k :: 1 <= k < |ts| ==> ts[k] == ts[1..][k - 1];
          Success([t] + rest)
  }

  /** The error raised is the one of the first record that cannot be
      translated. */
  lemma {:induction false} TranslateAllFirstFailure(m: map<string, string>, ts: seq<Theorem>, k: nat)
    requires k < |ts| && !Translatable(m, ts[k])
    requires forall j :: 0 <= j < k ==> Translatable(m, ts[j])
    ensures TranslateAll(m, ts).Failure? && TranslateOne(m, ts[k]).Failure?
    ensures TranslateAll(m, ts).error == TranslateOne(m, ts[k]).error
    decreases |ts|
  {
    if k > 0 {
      assert forall j :: 0 <= j < k - 1 ==> ts[1..][j] == ts[j + 1];
      TranslateAllFirstFailure(m, ts[1..], k - 1);
    }
  }

  /** A table mapping every key to itself changes nothing. */
  lemma TranslateIdentity(m: map<string, string>, ts: seq<Theorem>)
    requires forall k :: k in m ==> m[k] == k
    requires forall k :: 0 <= k < |ts| ==> Translatable(m, ts[k])
    ensures TranslateAll(m, ts) == Success(ts)
  {
    var r := TranslateAll(m, ts).value;
    forall k | 0 <= k < |ts|
      ensures r[k] == ts[k]
    {
      if ts[k].latexLabel != "" {
        var refs := ts[k].references;
        assert forall i :: 0 <= i < |refs| ==> r[k].references[i] == m[refs[i]] == refs[i];
        assert r[k].references == refs;
        assert r[k].latexLabel == m[ts[k].latexLabel] == ts[k].latexLabel;
      }
    }
    assert r == ts;
  }

  /** `possible_translation` (lines 33-43) with the aux file given as its
      lines when it exists: without one the records are kept; otherwise
      the table is read in full before any record is touched. */
  function PossibleTranslation(aux: Option<seq<string>>, ts: seq<Theorem>): (r: Result<seq<Theorem>>)
    ensures aux.None? ==> r == Success(ts)
    ensures aux.Some? && ParseAux(aux.value).Failure? ==> r.Failure? && r.error.IndexError?
    ensures aux.Some? && ParseAux(aux.value).Success? ==> r == TranslateAll(ParseAux(aux.value).value, ts)
  {
    match aux
    case None => Success(ts)
    case Some(lines) =>
      match ParseAux(lines)
      case Failure(e) => Failure(e)
      case Success(m) => TranslateAll(m, ts)
  }
}
