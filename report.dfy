/** What a rule does with one node: nothing, a report with its fix, or a runtime failure. */
module Report {
  import opened Strings
  import opened Ast

  /** One `{ from, to }` pair: the text at `to` moves into the slot at `from`. */
  datatype DiffRange = DiffRange(from: Range, to: Range)

  /**
    * A fix. `Splice(range, pairs)` replaces `range` with the text that
    * `FixUtils.getFixedText` builds from the pairs; `Replace(range, text)` replaces
    * `range` with `text`.
    */
  datatype TextEdit =
    | Splice(range: Range, diffRanges: seq<DiffRange>)
    | Replace(range: Range, text: String)

  /**
    * `NoReport`: the handler returns quietly. `Report(edit)`: it calls `context.report`
    * with this fix. `TypeError`: it throws reading a property of `null`.
    */
  datatype Outcome = NoReport | Report(edit: TextEdit) | TypeError
}
