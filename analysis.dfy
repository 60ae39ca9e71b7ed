// The per-file analysis that the fix pipeline consumes. It is produced by the
// stylesheet extractor and usage classifier (analyzeFile.js), which is not part
// of this model: these datatypes only describe the shape of its result.
module Analysis {

  /** A 1-indexed line and a column, as the parser reports them. */
  datatype Position = Position(line: int, column: int)

  /** The source span of a syntax node. */
  datatype Location = Location(start: Position, end: Position)

  /** A reported style key: an unused declaration or a missing access. */
  datatype Entry = Entry(key: string, loc: Location, code: string)

  /** The two kinds of reference the classifier cannot resolve statically. */
  datatype WarningKind = Reference | Computed

  datatype Warning = Warning(kind: WarningKind, loc: Location, code: string)

  /** What the classifier found for one stylesheet declaration. */
  datatype Sheet = Sheet(warnings: seq<Warning>, missing: seq<Entry>, unused: seq<Entry>)

  /** The whole analysis of one file: its stylesheets and its source lines. */
  datatype FileAnalysis = FileAnalysis(sheets: seq<Sheet>, lines: seq<string>)
}
