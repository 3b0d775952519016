# paper_visualizer in Dafny

`visualizer.py` reads a LaTeX document line by line. It finds the
theorem-like environments (theorems, lemmas, ... as configured) and numbers
them the way the document's sectioning counters do. It records each one's
`\label` and the `\ref`s in its proof. Optionally it replaces each label by
the second-to-last `}{`-separated segment of that label's `\newlabel` line in
the LaTeX `.aux` file. Finally it draws the
dependency graph: an edge from each cited statement to the citing one, and
a node for every statement that takes part in some edge.

This project models that pipeline as pure functions over immutable data
and proves what each stage guarantees:

| file | module | stage |
|---|---|---|
| `wrappers.dfy` | `Wrappers` | `Option`, `Result`, and the two exceptions the program can raise (`KeyError`, `IndexError`) |
| `strings.dfy` | `Strings` | substring search, `str.split`, `str.join`, `str(int)` |
| `patterns.dfy` | `Patterns` | each regular expression as the string function it computes on one line |
| `statements.dfy` | `Statements` | the theorem record |
| `counters.dfy` | `Counters` | the sectioning counters and the number string |
| `scanner.dfy` | `Scanner` | `collect_theorems` as a `Step` folded over the lines |
| `translation.dfy` | `Translation` | `collect_label_translation` and `possible_translation` |
| `graph.dfy` | `Graph` | `build_graph` |
| `pipeline.dfy` | `Pipeline` | the three stages as `main` chains them |

Modelling choices:
- A document or aux file is a `seq<string>` of lines without their
  terminators. No pattern can match a newline, so dropping it changes no
  match and no `split`.
- `re.match('.*' + literal, line)` is substring containment.
- The `\label` pattern uses the last `\label{` on the line that some `}`
  follows, because the leading `.*` is greedy. Its lazy group stops at the
  first `}` after it.
- `findall` of `\ref{...}` yields non-overlapping matches, left to right.
- The counters are a map keyed by level name, exactly like the dictionary
  in the source. A level name listed twice therefore has one counter. The
  number lists the counters in dictionary key order (`Counters.Dedup`).
  Lemmas about level positions assume distinct names.
- Python's `hash` of a string varies between runs, so it is a parameter
  `hash: string -> int`.
- Failures are `Result` values naming the exception Python would raise.
  Python's `IndexError` carries no payload; the line kept in the model's
  `IndexError` is its own record of where the error was raised.

## Model

| member | source | states |
|---|---|---|
| Strings.Split | visualizer.py:64 | `split` yields at least one piece; exactly one when the separator does not occur; the first piece is the text before the first occurrence and contains no separator |
| Strings.JoinSplit | visualizer.py:64 | joining the pieces of a split with the separator gives the line back |
| Strings.SplitPartsAvoidSeparator | visualizer.py:29 | no piece of a split contains the separator |
| Strings.SplitPieceBeforeLast | visualizer.py:29 | the second-to-last piece of a split is the text between the last-but-one separator (or the start) and the last separator |
| Strings.PieceBeforeLastUnique | visualizer.py:29 | since `}{` cannot overlap itself, at most one `}{`-free text sits before its last occurrence that way |
| Strings.ParseIntToString | visualizer.py:80 | `str` of a counter reads back as that counter, so the printed number loses nothing |
| Patterns.StripComment | visualizer.py:64 | the comment-free line is a prefix of the line, contains no `%`, and is followed by a `%` whenever it is shorter |
| Patterns.MatchLabel | visualizer.py:91-94 | the `\label` pattern fails iff no `\label{` on the line has a `}` after it; otherwise the group is the text up to the first `}` after the last such `\label{` |
| Patterns.FindRefs | visualizer.py:99-102 | every collected reference is free of `}`, and a line without `\ref{` yields none |
| Patterns.FindRefsRoundTrip | visualizer.py:99-102 | references written as `\ref{r}` one after another are found again, all of them and in order |
| Patterns.MatchNewLabel | visualizer.py:25-28 | a line yields key `k` iff it starts with `\newlabel{k}` and `k` is a non-empty run of letters, digits, `:` and `=` |
| Patterns.AuxValue | visualizer.py:29 | the value exists iff the line contains `}{`; it holds no `}{` and is the text that ends at the last `}{` and starts at the line's start or right after the `}{` before it |
| Patterns.AuxValueExactly | visualizer.py:29 | conversely, any `}{`-free text placed that way is the value read, so the value is determined by the line alone |
| Patterns.AuxValueTwoFieldLine | visualizer.py:29 | on LaTeX's usual line `\newlabel{a}{{1.2}{3}}` the value read is `{1.2`, brace included |
| Counters.Init | visualizer.py:46-53 | there is one counter per level name and each starts at 0, except that the outermost starts at the first chapter's number minus one; the inner counter is 0 |
| Counters.Advance | visualizer.py:67-73 | a level marker keeps the key set, zeroes the inner counter and every level listed after it, increments its own level unless a later listing resets it, and leaves levels outside the rest of the list alone |
| Counters.AdvanceDistinct | visualizer.py:67-73 | with distinct level names, a marker increments its level, leaves every outer level unchanged and resets every inner one |
| Counters.AdvanceAll | visualizer.py:66-73 | a line with no level marker leaves the counters as they were; a line with one zeroes the inner counter |
| Counters.AdvanceAllSingle | visualizer.py:66-73 | a line carrying the marker of level `i` and of no other level does exactly what that one marker does (`Counters.Advance`) |
| Counters.AdvanceAllFirstMarked | visualizer.py:66-73 | with distinct level names and `f` the first level whose marker is on the line: levels before `f` keep their counts, `f` counts up by one, every deeper level ends at 1 if its own marker is on the line and at 0 otherwise, and the inner counter is 0 |
| Counters.DedupMembers | visualizer.py:46-48 | the counter dictionary's keys are exactly the listed level names, each once |
| Counters.DedupDistinct | visualizer.py:46-48 | with distinct names, the dictionary's key order is the list order |
| Counters.Components | visualizer.py:80 | a number has one component per distinct level, in dictionary order, each that level's count, then a last one, the inner counter |
| Counters.NumberParts | visualizer.py:80 | splitting a number at `.` gives back `str` of each component, one part per distinct level plus one |
| Counters.NumberInjective | visualizer.py:80 | equal number strings come only from equal counter components |
| Scanner.Start | visualizer.py:46-58 | scanning starts with no records and with both searches off |
| Scanner.Environment | visualizer.py:76-87 | a `\begin` adds one to the inner counter and appends exactly one fresh record, numbered from the counters after that increment; otherwise nothing but the label search changes; afterwards the search is on iff the line holds no `\end` of the name and the search was on or a `\begin` occurred; the level counters never change |
| Scanner.Environments | visualizer.py:76-87 | one record is appended per configured name whose `\begin` is on the line; earlier records are untouched; the inner counter grows by the number of records opened; reference collection is on iff it was on or some record was opened |
| Scanner.EnvironmentsNumbers | visualizer.py:79-80 | the n-th record opened on a line carries the inner count as it stood plus n + 1 |
| Scanner.EnvironmentsEndLabelSearch | visualizer.py:85-95 | if every environment begun on the line also ends on it, the label search stays on only if it was on and no `\end` of a listed name occurs |
| Scanner.EnvironmentsLabelSearch | visualizer.py:76-87 | the label search is on after the `\begin`/`\end` stage iff some listed name has its `\begin` on the line and no `\end` of it or of a later-listed name follows in the loop, or the search was on and the line holds no listed `\end` at all |
| Scanner.CaptureLabel | visualizer.py:90-95 | only while the search is on, and only when the line holds a label, does the newest record get that label; the search then ends; nothing else changes |
| Scanner.CollectRefs | visualizer.py:98-102 | while collecting, the newest record's references grow by the line's references, in order; no other record changes |
| Scanner.CloseProof | visualizer.py:104-112 | `\end{proof}` or `\qed` turns collection off; records and the label search are unaffected |
| Scanner.Step | visualizer.py:62-112 | one line keeps the state consistent and appends one record per configured environment name whose `\begin{name}` occurs on its comment-free text (a name listed twice counts twice, a name begun twice on the line once); the level counters become those its level markers produce; the inner counter restarts from 0 when a level marker occurs, then grows by that same count |
| Scanner.StepFlags | visualizer.py:76-112 | reference collection is on after a line iff it was on or the line opened a record, and the line holds neither `\end{proof}` nor `\qed`; the label search is on iff the `\begin`/`\end` stage left it on and the line holds no `\label{..}` |
| Scanner.StepNewestLabel | visualizer.py:76-95 | the newest record's label becomes the line's label when the search is on after the `\begin`/`\end` stage, else stays blank for a record opened on the line and unchanged for an older one |
| Scanner.StepNewestReferences | visualizer.py:76-102 | the newest record's references are its old ones (none if it was opened on the line) followed by the line's `\ref`s while collection is on |
| Scanner.StepOpensBlank | visualizer.py:76-102 | records a line opens before its newest one get no label and no references |
| Scanner.StepExtends | visualizer.py:62-112 | a line never drops a record, never changes a record's number, use or label visibility, only extends references, and changes a label only while its search is on |
| Scanner.StepOpensFresh | visualizer.py:76-83 | records opened by a line are unused and show their labels; when a line opens any record, all earlier records stay exactly as they were |
| Scanner.StepNumbers | visualizer.py:66-83 | records opened by a line are numbered from the counters after that line's level markers were applied |
| Scanner.StepNumberShape | visualizer.py:80 | each record opened by a line has one `.`-separated number part per distinct level plus one |
| Scanner.Scan | visualizer.py:61-114 | folding `Step` over the lines keeps the scan state consistent |
| Scanner.ScanRecordsFresh | visualizer.py:45-114 | after the scan every record is unused, shows its label, and has one number part per distinct level plus one |
| Scanner.ScanPrefixFrozen | visualizer.py:62-112 | the state after any prefix of the lines is extended by the rest: only the newest record can still gain references, or a label while its search is on |
| Scanner.ScanCountsRecords | visualizer.py:76-83 | the scan holds one record per pair of a line and a configured environment name whose `\begin{name}` occurs on that line's comment-free text, a name listed twice counting twice |
| Scanner.ScanInnerSinceLevel | visualizer.py:66-80 | after the scan, the inner counter is the number of such line-and-name pairs (`Scanner.Begins`) from the last line with a level marker on, that line included |
| Scanner.ScanInnerNoLevel | visualizer.py:66-80 | with no level marker on any line, the inner counter is the number of such line-and-name pairs over the whole document |
| Scanner.ScanFlatNumbering | visualizer.py:46-83 | with no levels the inner counter never resets, and the records are numbered 1, 2, 3, ... in document order |
| Scanner.StepFlatNumbers | visualizer.py:76-80 | with no levels, a line's records continue the count where the previous line stopped |
| Scanner.CollectTheorems | visualizer.py:45-114 | the scanned records are unused, show their labels, and carry well-shaped numbers |
| Translation.ParseAux | visualizer.py:21-31 | reading the aux file either yields a table or fails with an `IndexError` |
| Translation.ParseAuxSucceeds | visualizer.py:24-30 | reading succeeds iff no `\newlabel` line lacks a `}{` |
| Translation.ParseAuxFailsAtFirst | visualizer.py:24-30 | a failure reports the first malformed `\newlabel` line |
| Translation.ParseAuxKeys | visualizer.py:25-30 | the table's keys are exactly the keys the `\newlabel` lines declare |
| Translation.ParseAuxLastWins | visualizer.py:28-30 | a key maps to the value on the last line declaring it |
| Translation.TranslateRefs | visualizer.py:43 | references translate iff all are in the table; the result then has the same length and order, each entry looked up; a failure names a missing reference |
| Translation.TranslateRefsFirstMissing | visualizer.py:43 | the `KeyError` names the first missing reference |
| Translation.TranslateOne | visualizer.py:38-43 | an unlabelled record is left exactly as it was, references included; a labelled one translates iff its label and references are all in the table; a missing label is reported before any reference |
| Translation.TranslateAll | visualizer.py:38-43 | translation succeeds iff every record is translatable, and then rewrites each record's label and references and nothing else |
| Translation.TranslateAllFirstFailure | visualizer.py:38-43 | the error raised is that of the first record that cannot be translated |
| Translation.TranslateIdentity | visualizer.py:38-43 | a table mapping every key to itself leaves the records unchanged |
| Translation.PossibleTranslation | visualizer.py:33-43 | without an aux file the records are kept; a malformed aux file fails with `IndexError` before any record is touched; otherwise the result is the table's translation |
| Graph.Synthesize | visualizer.py:118-121 | an unlabelled record gets the label number, `_`, and the hash of the number, and stops showing its label; labelled records are unchanged |
| Graph.SynthesizedLabelled | visualizer.py:118-121 | after synthesis no label is empty |
| Graph.SynthesizeIdempotent | visualizer.py:118-121 | synthesizing a second time changes nothing |
| Graph.SyntheticLabelInjective | visualizer.py:120 | different numbers never get the same generated label, whatever the hash |
| Graph.NodeExists | visualizer.py:131-135 | the search reports true iff some record carries the label |
| Graph.MarkUsed | visualizer.py:125-129 | only the first record carrying the label becomes used; all others are unchanged |
| Graph.CiteEffect | visualizer.py:139-142 | an admitted reference adds its edge and marks the citing record and the first record with the cited label; labels never change |
| Graph.LinkEffect | visualizer.py:137-142 | after the loop, the edges are exactly those of the admitted citations visited, and a record is used iff it was already used or some visited citation marks it |
| Graph.LinkAllEffect | visualizer.py:137-142 | the loop's edges and `used` flags agree with the reference definitions `IsEdge` and `Relevant` |
| Graph.NodesKeys | visualizer.py:144-147 | the nodes are named by exactly the labels of the used records |
| Graph.NodesLastWins | visualizer.py:144-147 | a node's text comes from the last used record with that label |
| Graph.BuildGraph | visualizer.py:116-149 | an edge `(r, l)` exists iff a record labelled `l` cites `r` and `r` is admitted; a node exists iff a relevant record carries its name |
| Graph.BuildGraphNodeText | visualizer.py:144-147 | a node's text is the number of its last relevant record, followed by ` = label` only when both switches show labels; a generated label shows only the number |
| Graph.NodesAreEndpoints | visualizer.py:137-147 | for freshly scanned records, every node is an end of some edge, so an isolated statement gets no node |
| Graph.EndpointsAreNodes | visualizer.py:137-147 | when only references to existing statements are drawn, both ends of every edge are nodes |
| Pipeline.Visualize | visualizer.py:191-193 | the pipeline succeeds iff there is no aux file, or no `\newlabel` line of the aux file lacks a `}{` and every labelled record's label and references are all in the table; a failure is an `IndexError` naming a malformed aux line or a `KeyError` naming a key absent from the table |
| Pipeline.VisualizeNodesAreEndpoints | visualizer.py:191-193 | every node of the final graph is an end of one of its edges |
| Pipeline.VisualizeEndpointsAreNodes | visualizer.py:191-193 | with the default switch, both ends of every edge of the final graph are nodes |

## Left out

- `main` (visualizer.py:151-198) is not modelled. It handles command-line parsing, reading the configuration file and `G.render`, which is all plumbing. The pipeline takes the configuration values as parameters.
- File access is not modelled: `open` of the document and of the aux file (lines 23 and 61), the aux file name `replace('tex', 'aux')` (line 34) and `os.path.exists` (line 35). The lines arrive as sequences, and a missing aux file is `None`.
- The Graphviz `Digraph` and its rendering belong to a foreign library. The graph is modelled as the names and texts given to `node` and the name pairs given to `edge`: a node table and an edge set. `Graph.EndpointsAreNodes` and `Graph.NodesAreEndpoints` relate these two modelled sets and say nothing about the rendered picture.
- How Graphviz reads an edge endpoint is not modelled. The graphviz package reads an edge end `a:b` as node `a` at port `b`, while `node` takes the whole name. A label such as `thm:main` is therefore drawn as a node named `thm:main`, but edges to it attach to a node `thm`.
- The implicit nodes Graphviz draws for an edge end with no node statement are not modelled.
- How the translated text relates to the number LaTeX prints is not modelled. The translation takes the second-to-last `}{`-separated segment of a `\newlabel` line, whatever the aux file's layout. On LaTeX's usual line `\newlabel{a}{{1.2}{3}}` that segment is `{1.2`, leading brace included. On a hyperref line such as `\newlabel{a}{{1.2}{3}{}{theorem.1.2}{}}` it is the anchor `theorem.1.2`.
- The value of Python's `hash` is a parameter, because it changes from run to run.
- Only the behaviour of the specific regular expressions in the source is modelled, not general regular-expression semantics.
- The unused `import random` (line 18) is not modelled.
- The source mutates records in place. When a `KeyError` interrupts translation, earlier records have already been rewritten. The program stops at that point, so the model returns the error alone.
- Patterns.FindRefs: its contract states only that references contain no `}` and come from a line holding `\ref{`. What it finds in arbitrary text, including a `\ref{` with no closing brace, is fixed by its definition. Only well-formed `\ref{..}` text is characterised, by `Patterns.FindRefsRoundTrip`.
- Scanner.StepNumberShape: the count of number parts is one per distinct level name plus one. For a hierarchy listed without repetition this is `|hierarchy| + 1` (`Counters.DedupDistinct`).
