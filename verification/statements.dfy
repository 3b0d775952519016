/** The theorem record of visualizer.py: one per recognised
    `\begin{..}` of a theorem-like environment. */
module Statements {

  /** The dictionary `{'number', 'latex_label', 'references', 'used',
      'show_label'}` of the source, field for field. */
  datatype Theorem = Theorem(
    number: string,
    latexLabel: string,
    references: seq<string>,
    used: bool,
    showLabel: bool)

  /** A record as it is appended when its `\begin` is seen. */
  function Fresh(number: string): (t: Theorem)
    ensures t.number == number && t.latexLabel == "" && t.references == []
    ensures !t.used && t.showLabel
  {
    Theorem(number, "", [], false, true)
  }
}
