# stylecleanup fix pipeline, modelled in Dafny

stylecleanup reports the style keys that a file's `StyleSheet.create({...})`
declarations define but never use. Its `fix` and `fix-force` commands also
delete the source lines of those keys. This project models the two sequential
parts of that pipeline that decide and perform the deletion:

- **the line-range deletor** (`removeUnused.js`, module `RemoveUnused` in
  `remove_unused.dfy`). Every unused entry marks the 0-based indices
  `start.line - 1 .. end.line - 1` in a dictionary. Then the lines whose index
  was not marked are kept. `RemoveUnusedLines` keeps the source's shape: a
  `map<int, bool>` filled by a loop over the entries with an inner counting
  loop, then a filtering loop. It is proved equal to the specification
  `Kept(lines, Marked(unused))`. The lemmas show what that specification
  means. A line is kept iff no entry's span covers its index. Kept lines keep
  their order. Only the union of the spans matters. The output length is
  exact. Empty, inverted and out-of-file spans remove nothing.
- **the fix/skip selection policy** (`processFile` in `processFile.js`, module
  `ProcessFile` in `process_file.dfy`). `ProcessFile` runs the same loop over
  the sheets as the source, with the same early exits. It is proved against
  two specification functions. `ToRemove` gives the keys pushed onto
  `toRemove`. `SkippedCount` gives the `skipped` counter. The method returns the
  `{removed, skipped}` record and the write it performs, if any. The lemmas
  compare `fix` with `fix-force` and show that a sheet with a warning never
  contributes under `fix`.

The per-file analysis (`analyzeFile.js`) is an input. Module `Analysis`
(`analysis.dfy`) gives only the shape of its result: sheets with `warnings`,
`missing` and `unused` lists, and the file's lines.

The command is a three-way datatype. In the source it is a string, and
`processFile` treats every string other than `'check'` and `'fix'` like
`'fix-force'`. The CLI in `index.js` only passes those three.

## Model

| member | source | states |
|---|---|---|
| RemoveUnused.RemoveUnusedLines | removeUnused.js:2-10 | the dictionary-and-filter loops return exactly the lines whose index no entry marked, in order (`Kept(lines, Marked(unused))`) |
| RemoveUnused.Covers | removeUnused.js:5 | an entry marks the 0-based index i iff the 1-indexed line i + 1 is one of its lines `start.line..end.line`; an inverted span marks nothing |
| RemoveUnused.Span | removeUnused.js:5-7 | the indices one entry's counting loop sets are exactly those it covers |
| RemoveUnused.Marked | removeUnused.js:3-8 | after all entries, an index is a key of the dictionary iff some entry covers it |
| RemoveUnused.MarkedOnlyEntries | removeUnused.js:3-8 | the marks depend only on which entries occur, not on their order or repetition |
| RemoveUnused.MarkedAppend | removeUnused.js:3-8 | the marks of two entry lists are the set union of their marks, so overlaps count once |
| RemoveUnused.Kept | removeUnused.js:9 | filtering never makes the line list longer |
| RemoveUnused.KeptIndices | removeUnused.js:9 | the kept indices are strictly ascending, lie inside the file, and are exactly the unmarked indices |
| RemoveUnused.KeptSelects | removeUnused.js:9 | the k-th output line is the input line at the k-th kept index, so the output is a subsequence |
| RemoveUnused.KeptAgree | removeUnused.js:9 | marks at indices outside the file have no effect on the output |
| RemoveUnused.KeptAll | removeUnused.js:9 | with no index of the file marked, the output equals the input |
| RemoveUnused.KeptLength | removeUnused.js:9 | the output is shorter than the input by the number of marked indices inside the file |
| RemoveUnused.KeptBlock | removeUnused.js:9 | marking one block `[lo, hi)` yields `lines[..lo] + lines[hi..]` |
| RemoveUnused.Removal | removeUnused.js:4-9 | input line i is in the output iff no unused entry covers i, and kept lines appear in their original order |
| RemoveUnused.RemoveNothing | removeUnused.js:2-10 | with no unused entries the lines come back unchanged |
| RemoveUnused.RemoveOneSpan | removeUnused.js:5-9 | one entry on lines a..b of an N-line file leaves `lines[..a-1] + lines[b..]`, which has N-(b-a+1) lines, with old line a-1 followed directly by old line b+1 |
| RemoveUnused.RemoveDependsOnUnion | removeUnused.js:3-8 | two entry lists that cover the same indices of the file give the same output |
| RemoveUnused.RemoveCoveredEntry | removeUnused.js:3-8 | adding an entry whose span is already covered (a duplicate, an overlap) removes nothing more |
| RemoveUnused.RemoveEmptyOrOutsideEntry | removeUnused.js:5-9 | an entry with `end.line < start.line`, or one starting past the last line, removes nothing |
| RemoveUnused.RemoveLength | removeUnused.js:5-9 | the output length is the input length minus the number of distinct covered indices inside the file |
| ProcessFile.ProcessFile | processFile.js:54-97 | no sheets or `check`: `{removed: 0, skipped: []}` and no write. Otherwise `removed` is the number of eligible keys, `skipped` is `[{file, count}]` exactly when some key was withheld, and the file is written, once, with the deletor's output joined by newlines, exactly when some key is eligible |
| ProcessFile.Withheld | processFile.js:73-77 | only `fix` withholds a sheet, and only one with a warning; under `fix` a sheet with a warning is withheld iff it has unused keys |
| ProcessFile.Eligible | processFile.js:72-79 | under `fix-force` a sheet's keys are handed over iff it has unused keys; under `fix` iff it has unused keys and no warning |
| ProcessFile.ToRemove | processFile.js:68-80 | the keys pushed onto `toRemove` stay empty, so no file is written, iff no sheet is eligible |
| ProcessFile.SkippedCount | processFile.js:69-77 | the `skipped` counter stays 0 under `fix-force` |
| ProcessFile.AccountsForAll | processFile.js:68-80 | every unused key of every sheet is either pushed onto `toRemove` or counted in `skipped`, so `skipped` never exceeds the number of unused keys |
| ProcessFile.AccumulateAppend | processFile.js:71-80 | the loop over two sheet lists in a row gives the concatenated `toRemove` and the summed skipped count, so `toRemove` keeps sheet order |
| ProcessFile.ToRemoveMembers | processFile.js:71-80 | a key is handed to the deletor iff it is an unused key of a sheet with unused keys that is not withheld |
| ProcessFile.DropSheet | processFile.js:72-79 | a sheet with no unused keys, or withheld under `fix`, adds nothing to `toRemove` |
| ProcessFile.DropSheetSkipped | processFile.js:72-77 | such a sheet adds its `unused.length` to the skipped count iff it is withheld, and nothing otherwise |
| ProcessFile.FixLeavesWarnedSheet | processFile.js:73-77 | under `fix`, a sheet with a warning contributes nothing to `toRemove` and adds its `unused.length` to the skipped count |
| ProcessFile.FixForceRemovesAll | processFile.js:71-80 | `fix-force` hands over every sheet's unused keys, in sheet order, whatever the warnings, and skips none |
| ProcessFile.FixSkipsOnlyWarned | processFile.js:73-79 | `fix` skips nothing iff no sheet with unused keys has a warning, and then it removes exactly what `fix-force` removes |
| ProcessFile.FixRemovesAtMostFixForce | processFile.js:73-79 | `fix` removes at most as many keys as `fix-force`, and as many exactly when no sheet with unused keys has a warning |
| ProcessFile.DeletesOnlyEligibleLines | processFile.js:71-91 | a line of the file is deleted iff an unused key of an eligible sheet covers it, so under `fix` a line covered only by withheld keys survives |
| ProcessFile.FixForceDeletesUnusedLines | processFile.js:71-91 | under `fix-force` a line of the file is deleted iff some sheet's unused key covers it |
| ProcessFile.FixDeletesSharedLine | processFile.js:73-91 | a withheld key on the same line as an eligible key of another sheet loses its line under `fix` |
| ProcessFile.WithheldKeys | processFile.js:73-77 | the keys `fix` withholds, as many as the skipped count |
| ProcessFile.GuardedFixKeepsWithheldLines | processFile.js:73-91 | with the guarded marks a line is deleted iff an eligible key covers it and no withheld key does, and where no line is shared the result equals the deletion as written |
| ProcessFile.JoinLines | processFile.js:92 | `join('\n')`: no lines give `""`; otherwise the text starts with the first line, followed by a newline when more lines come |
| ProcessFile.SplitJoinLines | processFile.js:92 | the written text, split at newlines, gives back the kept lines, provided there is at least one line and no line contains a newline |

## Findings

| source | as written | input that shows it | evidently intended | confidence | as-written member | corrected member |
|---|---|---|---|---|---|---|
| processFile.js:73-91 | under `fix`, a sheet with a warning has its unused keys withheld, but deletion works on whole lines, so a withheld key loses its line when an eligible key of another sheet is declared on the same line | `const a = StyleSheet.create({x: {}}), b = StyleSheet.create({y: {}})` on line 1, with a non-member reference to `a`: `x` is withheld, `y` is removed, and line 1 with `x` goes | a sheet with a warning keeps all of its unused keys' lines under `fix` | medium, not executed | ProcessFile.FixDeletesSharedLine | ProcessFile.GuardedFixKeepsWithheldLines |

`GuardedMarks` subtracts the withheld keys' lines from the eligible keys' lines.
`ProcessFile` still deletes as written, because it models the source.
`DeletesOnlyEligibleLines` states exactly which lines the written behaviour keeps.

## Left out

- `analyzeFile.js` (parsing, stylesheet extraction, reference classification) is not part of this model. Its `{sheets, lines}` result is a parameter of `ProcessFile`. So the properties that need it are not modelled: the unused/used key partition, reference exhaustiveness, and running `fix-force` twice being idempotent.
- Console output and colouring (`pos`, `showWarning`, `showCode`, `showMissing`, `showUnused`, `showSheet`, and the `console.log` calls in `processFile`): they only print. This includes the `check` branch's test of whether anything should be shown.
- The exception `showWarning` throws for an unknown warning type: it only guards printing. The warning kind is a closed datatype here.
- `fs.writeFileSync`: it is replaced by the returned `Option<Write>`, which names the file and the full text written. Write failures are not modelled.
- `index.js`: argument parsing, the usage message, glob expansion and the `node_modules` filter, `resolveHome`, and the summary totals over all files. Its `processFile` is a copy of the one modelled.
- The entry field `code`, and the columns of a location, are carried but unused: they only feed the printing.
- Re-reading the written file is not part of the source. `SplitLines` is `String.prototype.split('\n')` stated here as the reader of the written text. The lemma does not cover an empty line list: `[].join('\n')` is `""`, and that splits back to `[""]`.
