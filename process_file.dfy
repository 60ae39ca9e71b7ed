// The fix/skip selection policy of processFile.js: one pass over the file's
// stylesheets decides which unused keys go to the line-range deletor and how
// many are skipped, then at most one write of the fixed lines follows.
module ProcessFile {
  import opened Analysis
  import opened RemoveUnused

  /** The three commands; any command other than check and fix behaves like fix-force. */
  datatype Command = Check | Fix | FixForce

  datatype Option<T> = None | Some(value: T)

  /** One `{file, count}` record of skipped keys. */
  datatype Skip = Skip(file: string, count: nat)

  /** The `{removed, skipped}` record that processFile returns. */
  datatype Outcome = Outcome(removed: nat, skipped: seq<Skip>)

  /** The one write processFile may perform: the whole new text of `file`. */
  datatype Write = Write(file: string, text: string)

  /**
   * In fix mode, a sheet with unused keys and a warning has its keys withheld:
   * only fix withholds, only a sheet with a warning, and under fix such a sheet
   * is withheld iff it has unused keys.
   */
  predicate Withheld(cmd: Command, sheet: Sheet): (b: bool)
    ensures b ==> cmd == Fix && |sheet.warnings| > 0
    ensures cmd == Fix && |sheet.warnings| > 0 ==> (b <==> |sheet.unused| > 0)
  {
    |sheet.unused| > 0 && |sheet.warnings| > 0 && cmd == Fix
  }

  /**
   * The sheet's unused keys are handed to the deletor: under fix-force every
   * sheet with unused keys, under fix only those without a warning.
   */
  predicate Eligible(cmd: Command, sheet: Sheet): (b: bool)
    ensures b ==> |sheet.unused| > 0
    ensures cmd == FixForce ==> (b <==> |sheet.unused| > 0)
    ensures cmd == Fix ==> (b <==> |sheet.unused| > 0 && |sheet.warnings| == 0)
  {
    |sheet.unused| > 0 && !Withheld(cmd, sheet)
  }

  /**
   * The keys the loop pushes onto `toRemove`, sheet after sheet. It stays
   * empty, and so the file is not written, iff no sheet is eligible.
   */
  function ToRemove(cmd: Command, sheets: seq<Sheet>): (r: seq<Entry>)
    requires cmd != Check
    ensures r == [] <==> forall k :: 0 <= k < |sheets| ==> !Eligible(cmd, sheets[k])
  {
    if sheets == [] then []
    else
      var last := sheets[|sheets| - 1];
      ToRemove(cmd, sheets[..|sheets| - 1]) + (if Eligible(cmd, last) then last.unused else [])
  }

  /** The loop's `skipped` counter: the number of withheld keys, none under fix-force. */
  function SkippedCount(cmd: Command, sheets: seq<Sheet>): (r: nat)
    requires cmd != Check
    ensures cmd == FixForce ==> r == 0
  {
    if sheets == [] then 0
    else
      var last := sheets[|sheets| - 1];
      SkippedCount(cmd, sheets[..|sheets| - 1]) + (if Withheld(cmd, last) then |last.unused| else 0)
  }

  /** Every unused key of every sheet, in sheet order. */
  function AllUnused(sheets: seq<Sheet>): seq<Entry>
  {
    if sheets == [] then [] else AllUnused(sheets[..|sheets| - 1]) + sheets[|sheets| - 1].unused
  }

  /**
   * `lines.join('\n')`: no lines give the empty text; otherwise the text starts
   * with the first line, followed by a newline when more lines come.
   */
  function JoinLines(lines: seq<string>): (r: string)
    ensures |lines| == 0 ==> r == ""
    ensures |lines| >= 1 ==> |lines[0]| <= |r| && r[..|lines[0]|] == lines[0]
    ensures |lines| >= 2 ==> |lines[0]| < |r| && r[|lines[0]|] == '\n'
  {
    if |lines| == 0 then ""
    else if |lines| == 1 then lines[0]
    else lines[0] + "\n" + JoinLines(lines[1..])
  }

  /**
   * processFile, with the analysis passed in and the file write returned.
   * No sheets, or the check command: nothing removed, nothing skipped, no write.
   * Otherwise the withheld keys are reported as skipped, and the lines of the
   * eligible keys are deleted in one write exactly when there are any.
   */
  method ProcessFile(file: string, cmd: Command, analysis: FileAnalysis) returns (result: Outcome, write: Option<Write>)
    ensures |analysis.sheets| == 0 || cmd == Check ==> result == Outcome(0, []) && write == None
    ensures |analysis.sheets| > 0 && cmd != Check ==>
      var toRemove, skipped := ToRemove(cmd, analysis.sheets), SkippedCount(cmd, analysis.sheets);
      && result.removed == |toRemove|
      && result.skipped == (if skipped > 0 then [Skip(file, skipped)] else [])
      && write == (if |toRemove| > 0
                   then Some(Write(file, JoinLines(Kept(analysis.lines, Marked(toRemove)))))
                   else None)
  {
    var sheets, lines := analysis.sheets, analysis.lines;
    if |sheets| == 0 {
      return Outcome(0, []), None;
    }
    if cmd == Check {
      return Outcome(0, []), None;
    }

    var toRemove: seq<Entry> := [];
    var skipped: nat := 0;
    for k := 0 to |sheets|
      invariant toRemove == ToRemove(cmd, sheets[..k])
      invariant skipped == SkippedCount(cmd, sheets[..k])
    {
      var sheet := sheets[k];
      assert sheets[..k + 1][..k] == sheets[..k];
      if |sheet.unused| == 0 {
        continue;
      }
      if |sheet.warnings| > 0 {
        if cmd == Fix {
          skipped := skipped + |sheet.unused|;
          continue;
        }
      }
      toRemove := toRemove + sheet.unused;
    }
    assert sheets[..|sheets|] == sheets;

    if skipped == 0 && |toRemove| == 0 {
      return Outcome(0, []), None;
    }

    write := None;
    if |toRemove| > 0 {
      var fixed := RemoveUnusedLines(lines, toRemove);
      write := Some(Write(file, JoinLines(fixed)));
    }
    result := Outcome(|toRemove|, if skipped > 0 then [Skip(file, skipped)] else []);
  }

  // ---------------------------------------------------------------------------
  // The accumulation, sheet by sheet.

  /** Every unused key is either handed to the deletor or counted as skipped. */
  lemma {:induction false} AccountsForAll(cmd: Command, sheets: seq<Sheet>)
    requires cmd != Check
    ensures |ToRemove(cmd, sheets)| + SkippedCount(cmd, sheets) == |AllUnused(sheets)|
    decreases |sheets|
  {
    if sheets != [] {
      AccountsForAll(cmd, sheets[..|sheets| - 1]);
    }
  }

  /** The loop over a list of sheets is the loop over its parts, one after the other. */
  lemma {:induction false} AccumulateAppend(cmd: Command, s1: seq<Sheet>, s2: seq<Sheet>)
    requires cmd != Check
    ensures ToRemove(cmd, s1 + s2) == ToRemove(cmd, s1) + ToRemove(cmd, s2)
    ensures SkippedCount(cmd, s1 + s2) == SkippedCount(cmd, s1) + SkippedCount(cmd, s2)
    decreases |s2|
  {
    if s2 != [] {
      var n := |s2| - 1;
      assert (s1 + s2)[..|s1 + s2| - 1] == s1 + s2[..n];
      AccumulateAppend(cmd, s1, s2[..n]);
    } else {
      assert s1 + s2 == s1;
    }
  }

  /** A key is handed to the deletor iff it is an unused key of an eligible sheet. */
  lemma {:induction false} ToRemoveMembers(cmd: Command, sheets: seq<Sheet>, x: Entry)
    requires cmd != Check
    ensures x in ToRemove(cmd, sheets) <==>
            exists k :: 0 <= k < |sheets| && Eligible(cmd, sheets[k]) && x in sheets[k].unused
    decreases |sheets|
  {
    if sheets != [] {
      var n := |sheets| - 1;
      var front := sheets[..n];
      ToRemoveMembers(cmd, front, x);
      if x in ToRemove(cmd, front) {
        var k :| 0 <= k < |front| && Eligible(cmd, front[k]) && x in front[k].unused;
        assert sheets[k] == front[k];
      }
      if exists k :: 0 <= k < |sheets| && Eligible(cmd, sheets[k]) && x in sheets[k].unused {
        var k :| 0 <= k < |sheets| && Eligible(cmd, sheets[k]) && x in sheets[k].unused;
        if k < n {
          assert front[k] == sheets[k];
        }
      }
    }
  }

  /**
   * A sheet that is not eligible (no unused keys, or withheld under fix)
   * contributes nothing to `toRemove`.
   */
  lemma DropSheet(cmd: Command, sheets: seq<Sheet>, j: nat)
    requires cmd != Check
    requires j < |sheets| && !Eligible(cmd, sheets[j])
    ensures ToRemove(cmd, sheets) == ToRemove(cmd, sheets[..j] + sheets[j + 1..])
  {
    var front, one, rest := sheets[..j], [sheets[j]], sheets[j + 1..];
    assert ToRemove(cmd, sheets) == ToRemove(cmd, front) + ToRemove(cmd, one + rest) by {
      assert sheets == front + (one + rest);
      AccumulateAppend(cmd, front, one + rest);
    }
    assert ToRemove(cmd, one + rest) == ToRemove(cmd, rest) by {
      AccumulateAppend(cmd, one, rest);
      assert one[..0] == [];
    }
    AccumulateAppend(cmd, front, rest);
  }

  /** A sheet that is not eligible adds its number of unused keys to the skipped count iff it is withheld. */
  lemma DropSheetSkipped(cmd: Command, sheets: seq<Sheet>, j: nat)
    requires cmd != Check
    requires j < |sheets| && !Eligible(cmd, sheets[j])
    ensures SkippedCount(cmd, sheets) ==
            SkippedCount(cmd, sheets[..j] + sheets[j + 1..]) +
            (if Withheld(cmd, sheets[j]) then |sheets[j].unused| else 0)
  {
    var front, one, rest := sheets[..j], [sheets[j]], sheets[j + 1..];
    assert SkippedCount(cmd, sheets) == SkippedCount(cmd, front) + SkippedCount(cmd, one + rest) by {
      assert sheets == front + (one + rest);
      AccumulateAppend(cmd, front, one + rest);
    }
    assert SkippedCount(cmd, one + rest) ==
           SkippedCount(cmd, rest) + (if Withheld(cmd, sheets[j]) then |sheets[j].unused| else 0) by {
      AccumulateAppend(cmd, one, rest);
      assert one[..0] == [];
    }
    AccumulateAppend(cmd, front, rest);
  }

  // ---------------------------------------------------------------------------
  // fix against fix-force.

  /** fix-force hands every unused key over, in sheet order, and skips none. */
  lemma {:induction false} FixForceRemovesAll(sheets: seq<Sheet>)
    ensures ToRemove(FixForce, sheets) == AllUnused(sheets)
    ensures SkippedCount(FixForce, sheets) == 0
    decreases |sheets|
  {
    if sheets != [] {
      FixForceRemovesAll(sheets[..|sheets| - 1]);
    }
  }

  /** No sheet with unused keys has a warning. */
  ghost predicate NoWarnedUnused(sheets: seq<Sheet>) {
    forall k :: 0 <= k < |sheets| && |sheets[k].unused| > 0 ==> |sheets[k].warnings| == 0
  }

  /** fix skips nothing, and removes what fix-force removes, iff no sheet with unused keys has a warning. */
  lemma {:induction false} FixSkipsOnlyWarned(sheets: seq<Sheet>)
    ensures SkippedCount(Fix, sheets) == 0 <==> NoWarnedUnused(sheets)
    ensures NoWarnedUnused(sheets) ==> ToRemove(Fix, sheets) == ToRemove(FixForce, sheets)
    decreases |sheets|
  {
    if sheets != [] {
      var n := |sheets| - 1;
      var front := sheets[..n];
      FixSkipsOnlyWarned(front);
      if NoWarnedUnused(sheets) {
        forall k | 0 <= k < |front| && |front[k].unused| > 0 ensures |front[k].warnings| == 0 {
          assert front[k] == sheets[k];
        }
      }
      if !NoWarnedUnused(sheets) && NoWarnedUnused(front) {
        var k :| 0 <= k < |sheets| && |sheets[k].unused| > 0 && |sheets[k].warnings| != 0;
      }
      if NoWarnedUnused(front) && !Withheld(Fix, sheets[n]) {
        forall k | 0 <= k < |sheets| && |sheets[k].unused| > 0 ensures |sheets[k].warnings| == 0 {
          if k < n {
            assert front[k] == sheets[k];
          }
        }
      }
    }
  }

  /**
   * fix never removes more keys than fix-force, and removes as many exactly
   * when no sheet with unused keys has a warning.
   */
  lemma {:induction false} FixRemovesAtMostFixForce(sheets: seq<Sheet>)
    ensures |ToRemove(Fix, sheets)| <= |ToRemove(FixForce, sheets)|
    ensures |ToRemove(Fix, sheets)| == |ToRemove(FixForce, sheets)| <==> NoWarnedUnused(sheets)
  {
    AccountsForAll(Fix, sheets);
    AccountsForAll(FixForce, sheets);
    FixForceRemovesAll(sheets);
    FixSkipsOnlyWarned(sheets);
  }

  // ---------------------------------------------------------------------------
  // Which lines each command deletes.

  /** Some unused key of an eligible sheet covers index `i`. */
  ghost predicate CoveredByEligible(cmd: Command, sheets: seq<Sheet>, i: int) {
    exists k, e :: 0 <= k < |sheets| && Eligible(cmd, sheets[k]) && e in sheets[k].unused && Covers(e, i)
  }

  /**
   * A line of the file is deleted iff an unused key of an eligible sheet covers
   * it: under fix a line that only withheld keys cover survives.
   */
  lemma DeletesOnlyEligibleLines(cmd: Command, lines: seq<string>, sheets: seq<Sheet>)
    requires cmd != Check
    ensures forall i :: 0 <= i < |lines| ==>
      (i in KeptIndices(|lines|, Marked(ToRemove(cmd, sheets))) <==> !CoveredByEligible(cmd, sheets, i))
  {
    var t := ToRemove(cmd, sheets);
    forall i | 0 <= i < |lines|
      ensures i in KeptIndices(|lines|, Marked(t)) <==> !CoveredByEligible(cmd, sheets, i)
    {
      assert Covered(t, i) ==> CoveredByEligible(cmd, sheets, i) by {
        if Covered(t, i) {
          var m :| 0 <= m < |t| && Covers(t[m], i);
          ToRemoveMembers(cmd, sheets, t[m]);
          var k :| 0 <= k < |sheets| && Eligible(cmd, sheets[k]) && t[m] in sheets[k].unused;
        }
      }
      assert CoveredByEligible(cmd, sheets, i) ==> Covered(t, i) by {
        if CoveredByEligible(cmd, sheets, i) {
          var k, e :| 0 <= k < |sheets| && Eligible(cmd, sheets[k]) && e in sheets[k].unused && Covers(e, i);
          ToRemoveMembers(cmd, sheets, e);
          var m :| 0 <= m < |t| && t[m] == e;
          assert Covers(t[m], i);
        }
      }
    }
  }

  /** Under fix-force a line of the file is deleted iff some sheet's unused key covers it. */
  lemma FixForceDeletesUnusedLines(lines: seq<string>, sheets: seq<Sheet>)
    ensures forall i :: 0 <= i < |lines| ==>
      (i in KeptIndices(|lines|, Marked(ToRemove(FixForce, sheets))) <==> !Covered(AllUnused(sheets), i))
  {
    FixForceRemovesAll(sheets);
  }

  /**
   * Deletion works on whole lines, so under fix a withheld key loses its line
   * when an eligible key of another sheet is declared on the same line.
   */
  lemma FixDeletesSharedLine()
    ensures
      var x := Entry("x", Location(Position(1, 29), Position(1, 34)), "x: {}");
      var y := Entry("y", Location(Position(1, 61), Position(1, 66)), "y: {}");
      var warned := Sheet([Warning(Reference, Location(Position(2, 2), Position(2, 3)), "f(a)")], [], [x]);
      var clean := Sheet([], [], [y]);
      var sheets := [warned, clean];
      var lines := ["const a = StyleSheet.create({x: {}}), b = StyleSheet.create({y: {}})", "f(a)"];
      && Withheld(Fix, warned) && Covers(x, 0)
      && ToRemove(Fix, sheets) == [y]
      && Kept(lines, Marked(ToRemove(Fix, sheets))) == [lines[1]]
  {
    var x := Entry("x", Location(Position(1, 29), Position(1, 34)), "x: {}");
    var y := Entry("y", Location(Position(1, 61), Position(1, 66)), "y: {}");
    var warned := Sheet([Warning(Reference, Location(Position(2, 2), Position(2, 3)), "f(a)")], [], [x]);
    var clean := Sheet([], [], [y]);
    var sheets := [warned, clean];
    var lines := ["const a = StyleSheet.create({x: {}}), b = StyleSheet.create({y: {}})", "f(a)"];
    assert ToRemove(Fix, [warned]) == [] by {
      assert [warned][..0] == [];
    }
    assert ToRemove(Fix, sheets) == [y] by {
      assert sheets[..1] == [warned];
    }
    assert 0 in Marked([y]) && 1 !in Marked([y]) by {
      assert Covers(y, 0) && !Covers(y, 1);
    }
    assert lines[..1][..0] == [];
  }

  /** The unused keys fix withholds, sheet after sheet. */
  function WithheldKeys(sheets: seq<Sheet>): (r: seq<Entry>)
    ensures |r| == SkippedCount(Fix, sheets)
  {
    if sheets == [] then []
    else
      var last := sheets[|sheets| - 1];
      WithheldKeys(sheets[..|sheets| - 1]) + (if Withheld(Fix, last) then last.unused else [])
  }

  /** The marks fix should use: the eligible keys' lines, sparing every line a withheld key is on. */
  function GuardedMarks(sheets: seq<Sheet>): set<int>
  {
    Marked(ToRemove(Fix, sheets)) - Marked(WithheldKeys(sheets))
  }

  /**
   * With the guarded marks, a line is deleted iff an eligible key covers it and
   * no withheld key does, so every withheld key keeps its lines; where no line
   * is shared, the guarded deletion is the deletion as written.
   */
  lemma GuardedFixKeepsWithheldLines(lines: seq<string>, sheets: seq<Sheet>)
    ensures forall i :: 0 <= i < |lines| ==>
      (i in KeptIndices(|lines|, GuardedMarks(sheets)) <==>
       !CoveredByEligible(Fix, sheets, i) || Covered(WithheldKeys(sheets), i))
    ensures (forall i :: 0 <= i < |lines| ==> !(Covered(WithheldKeys(sheets), i) && Covered(ToRemove(Fix, sheets), i))) ==>
      Kept(lines, GuardedMarks(sheets)) == Kept(lines, Marked(ToRemove(Fix, sheets)))
  {
    var eligible, withheld := Marked(ToRemove(Fix, sheets)), Marked(WithheldKeys(sheets));
    forall i | 0 <= i < |lines|
      ensures i in KeptIndices(|lines|, GuardedMarks(sheets)) <==>
              !CoveredByEligible(Fix, sheets, i) || Covered(WithheldKeys(sheets), i)
    {
      assert i !in eligible <==> !CoveredByEligible(Fix, sheets, i) by {
        DeletesOnlyEligibleLines(Fix, lines, sheets);
      }
    }
    if forall i :: 0 <= i < |lines| ==> !(Covered(WithheldKeys(sheets), i) && Covered(ToRemove(Fix, sheets), i)) {
      KeptAgree(lines, GuardedMarks(sheets), eligible);
    }
  }

  // ---------------------------------------------------------------------------
  // The write.

  /** `text.split('\n')`. */
  function SplitLines(text: string): (r: seq<string>)
    ensures |r| >= 1
    decreases |text|
  {
    if '\n' !in text then [text]
    else
      var i := FirstNewline(text);
      [text[..i]] + SplitLines(text[i + 1..])
  }

  /** The index of the first newline of `text`. */
  function FirstNewline(text: string): (i: nat)
    requires '\n' in text
    ensures i < |text| && text[i] == '\n' && '\n' !in text[..i]
  {
    if text[0] == '\n' then 0 else 1 + FirstNewline(text[1..])
  }

  /**
   * The written text, split at newlines, gives back exactly the lines that were
   * joined, as long as there is at least one line and none contains a newline.
   */
  lemma {:induction false} SplitJoinLines(lines: seq<string>)
    requires |lines| > 0
    requires forall k :: 0 <= k < |lines| ==> '\n' !in lines[k]
    ensures SplitLines(JoinLines(lines)) == lines
    decreases |lines|
  {
    if |lines| > 1 {
      var text := JoinLines(lines);
      var rest := JoinLines(lines[1..]);
      assert text == lines[0] + "\n" + rest;
      assert FirstNewline(text) == |lines[0]|;
      assert text[|lines[0]| + 1..] == rest;
      SplitJoinLines(lines[1..]);
    }
  }

  /**
   * Under fix, a sheet with a warning changes neither the keys handed to the
   * deletor nor the write: the file comes out as if that sheet had no unused keys.
   */
  lemma FixLeavesWarnedSheet(sheets: seq<Sheet>, j: nat)
    requires j < |sheets| && |sheets[j].warnings| > 0
    ensures ToRemove(Fix, sheets) == ToRemove(Fix, sheets[..j] + sheets[j + 1..])
    ensures SkippedCount(Fix, sheets) == SkippedCount(Fix, sheets[..j] + sheets[j + 1..]) + |sheets[j].unused|
  {
    DropSheet(Fix, sheets, j);
    DropSheetSkipped(Fix, sheets, j);
  }
}
