// The line-range deletor of removeUnused.js: every unused style entry marks
// the 0-based line indices start.line - 1 .. end.line - 1 of its declaration,
// and the lines whose index was marked are dropped.
module RemoveUnused {
  import opened Analysis

  /**
   * Entry `u` marks index `i`: the marking loop runs from start.line - 1 while
   * below end.line, so the 0-based index i is marked iff the 1-indexed line
   * i + 1 is one of the entry's lines; an inverted span marks nothing.
   */
  predicate Covers(u: Entry, i: int): (b: bool)
    ensures b <==> u.loc.start.line <= i + 1 <= u.loc.end.line
    ensures b ==> u.loc.start.line <= u.loc.end.line
  {
    u.loc.start.line - 1 <= i < u.loc.end.line
  }

  /** Some entry of `unused` covers index `i`. */
  ghost predicate Covered(unused: seq<Entry>, i: int) {
    exists k :: 0 <= k < |unused| && Covers(unused[k], i)
  }

  /** Covering by a list is covering by its front or by its last entry. */
  lemma CoveredSnoc(unused: seq<Entry>)
    requires unused != []
    ensures forall i :: Covered(unused, i) <==>
      Covered(unused[..|unused| - 1], i) || Covers(unused[|unused| - 1], i)
  {
    var n := |unused| - 1;
    var front := unused[..n];
    forall i
      ensures Covered(unused, i) <==> Covered(front, i) || Covers(unused[n], i)
    {
      if Covered(front, i) {
        var k :| 0 <= k < |front| && Covers(front[k], i);
        assert Covers(unused[k], i);
      }
      if Covered(unused, i) {
        var k :| 0 <= k < |unused| && Covers(unused[k], i);
        if k < n {
          assert Covers(front[k], i);
        }
      }
      if Covers(unused[n], i) {
        assert Covered(unused, i);
      }
    }
  }

  /**
   * The indices one entry marks. (The bounds make the set finite; `Covers`
   * gives the comprehension its trigger.)
   */
  function Span(u: Entry): (s: set<int>)
    ensures forall i :: i in s <==> Covers(u, i)
  {
    set i | u.loc.start.line - 1 <= i < u.loc.end.line && Covers(u, i)
  }

  /**
   * The keys of the index dictionary once every entry has been processed:
   * an index is marked exactly when some entry's span covers it.
   */
  function Marked(unused: seq<Entry>): (m: set<int>)
    ensures forall i :: i in m <==> Covered(unused, i)
  {
    if unused == [] then {}
    else
      CoveredSnoc(unused);
      Marked(unused[..|unused| - 1]) + Span(unused[|unused| - 1])
  }

  /** Processing one more entry adds its span to the dictionary's keys. */
  lemma MarkedPrefix(unused: seq<Entry>, k: nat)
    requires k < |unused|
    ensures Marked(unused[..k + 1]) == Marked(unused[..k]) + Span(unused[k])
  {
    assert unused[..k + 1][..k] == unused[..k];
  }

  /** The lines whose index is not in `marked`, in their original order. */
  function Kept(lines: seq<string>, marked: set<int>): (r: seq<string>)
    ensures |r| <= |lines|
  {
    if lines == [] then []
    else
      var n := |lines| - 1;
      Kept(lines[..n], marked) + (if n in marked then [] else [lines[n]])
  }

  /** The indices below `n` that are not in `marked`, ascending. */
  function KeptIndices(n: nat, marked: set<int>): (ix: seq<int>)
    ensures forall k :: 0 <= k < |ix| ==> 0 <= ix[k] < n
    ensures forall k, l :: 0 <= k < l < |ix| ==> ix[k] < ix[l]
    ensures forall i :: 0 <= i < n ==> (i in ix <==> i !in marked)
  {
    if n == 0 then []
    else KeptIndices(n - 1, marked) + (if n - 1 in marked then [] else [n - 1])
  }

  /** The indices below `n` that are in `marked`. */
  function MarkedBelow(n: nat, marked: set<int>): set<int>
  {
    set i | 0 <= i < n && i in marked
  }

  /**
   * removeUnused: fills the index dictionary span by span, then filters the lines.
   * The result is exactly the lines that no span marked.
   */
  method RemoveUnusedLines(lines: seq<string>, unused: seq<Entry>) returns (fixed: seq<string>)
    ensures fixed == Kept(lines, Marked(unused))
  {
    var toRemove: map<int, bool> := map[];
    var k := 0;
    while k < |unused|
      invariant 0 <= k <= |unused|
      invariant toRemove.Keys == Marked(unused[..k])
      invariant forall i :: i in toRemove ==> toRemove[i]
    {
      var u := unused[k];
      ghost var keysBefore := toRemove.Keys;
      var i := u.loc.start.line - 1;
      while i < u.loc.end.line
        invariant u.loc.start.line - 1 <= i
        invariant i <= u.loc.end.line || i == u.loc.start.line - 1
        invariant forall j :: j in toRemove <==> j in keysBefore || u.loc.start.line - 1 <= j < i
        invariant forall j :: j in toRemove ==> toRemove[j]
        decreases u.loc.end.line - i
      {
        toRemove := toRemove[i := true];
        i := i + 1;
      }
      MarkedPrefix(unused, k);
      assert toRemove.Keys == keysBefore + Span(u);
      k := k + 1;
    }
    assert unused[..k] == unused;

    fixed := [];
    var j := 0;
    while j < |lines|
      invariant 0 <= j <= |lines|
      invariant fixed == Kept(lines[..j], toRemove.Keys)
    {
      assert lines[..j + 1][..j] == lines[..j];
      if !(j in toRemove && toRemove[j]) {
        fixed := fixed + [lines[j]];
      }
      j := j + 1;
    }
    assert lines[..j] == lines;
  }

  // ---------------------------------------------------------------------------
  // Marking: the dictionary's keys are the union of the spans.

  /**
   * Marking depends only on which entries occur: their order and how often
   * each occurs do not matter.
   */
  lemma MarkedOnlyEntries(u1: seq<Entry>, u2: seq<Entry>)
    requires forall x :: x in u1 <==> x in u2
    ensures Marked(u1) == Marked(u2)
  {
    forall i | Covered(u1, i) ensures Covered(u2, i) {
      var k :| 0 <= k < |u1| && Covers(u1[k], i);
      assert u1[k] in u2;
      var l :| 0 <= l < |u2| && u2[l] == u1[k];
      assert Covers(u2[l], i);
    }
    forall i | Covered(u2, i) ensures Covered(u1, i) {
      var k :| 0 <= k < |u2| && Covers(u2[k], i);
      assert u2[k] in u1;
      var l :| 0 <= l < |u1| && u1[l] == u2[k];
      assert Covers(u1[l], i);
    }
  }

  /** The marks of two lists of entries are the union of their marks: overlaps count once. */
  lemma MarkedAppend(u1: seq<Entry>, u2: seq<Entry>)
    ensures Marked(u1 + u2) == Marked(u1) + Marked(u2)
  {
    forall i | Covered(u1 + u2, i) ensures Covered(u1, i) || Covered(u2, i) {
      var k :| 0 <= k < |u1 + u2| && Covers((u1 + u2)[k], i);
      if k < |u1| {
        assert Covers(u1[k], i);
      } else {
        assert Covers(u2[k - |u1|], i);
      }
    }
    forall i | Covered(u1, i) ensures Covered(u1 + u2, i) {
      var k :| 0 <= k < |u1| && Covers(u1[k], i);
      assert Covers((u1 + u2)[k], i);
    }
    forall i | Covered(u2, i) ensures Covered(u1 + u2, i) {
      var k :| 0 <= k < |u2| && Covers(u2[k], i);
      assert Covers((u1 + u2)[|u1| + k], i);
    }
  }

  // ---------------------------------------------------------------------------
  // Filtering: which lines survive, and in which order.

  /**
   * The kept lines are the lines at the kept indices, in ascending order:
   * the output is a subsequence of the input.
   */
  lemma {:induction false} KeptSelects(lines: seq<string>, marked: set<int>)
    ensures |Kept(lines, marked)| == |KeptIndices(|lines|, marked)|
    ensures forall k :: 0 <= k < |Kept(lines, marked)| ==>
              Kept(lines, marked)[k] == lines[KeptIndices(|lines|, marked)[k]]
    decreases |lines|
  {
    if lines != [] {
      var n := |lines| - 1;
      var front := lines[..n];
      KeptSelects(front, marked);
      var r, ix := Kept(lines, marked), KeptIndices(|lines|, marked);
      var rf, ixf := Kept(front, marked), KeptIndices(n, marked);
      assert r == rf + (if n in marked then [] else [lines[n]]);
      assert ix == ixf + (if n in marked then [] else [n]);
      forall k | 0 <= k < |r| ensures r[k] == lines[ix[k]] {
        if k < |rf| {
          assert rf[k] == front[ixf[k]];
        }
      }
    }
  }

  /** Only the marks inside the file matter. */
  lemma {:induction false} KeptAgree(lines: seq<string>, m1: set<int>, m2: set<int>)
    requires forall i :: 0 <= i < |lines| ==> (i in m1 <==> i in m2)
    ensures Kept(lines, m1) == Kept(lines, m2)
    decreases |lines|
  {
    if lines != [] {
      KeptAgree(lines[..|lines| - 1], m1, m2);
    }
  }

  /** With no mark inside the file, every line is kept. */
  lemma {:induction false} KeptAll(lines: seq<string>, marked: set<int>)
    requires forall i :: 0 <= i < |lines| ==> i !in marked
    ensures Kept(lines, marked) == lines
    decreases |lines|
  {
    if lines != [] {
      var n := |lines| - 1;
      KeptAll(lines[..n], marked);
      assert lines[..n] + [lines[n]] == lines;
    }
  }

  /** The output loses exactly one line per marked index inside the file. */
  lemma {:induction false} KeptLength(lines: seq<string>, marked: set<int>)
    ensures |Kept(lines, marked)| == |lines| - |MarkedBelow(|lines|, marked)|
    decreases |lines|
  {
    if lines != [] {
      var n := |lines| - 1;
      KeptLength(lines[..n], marked);
      if n in marked {
        assert MarkedBelow(n + 1, marked) == MarkedBelow(n, marked) + {n};
      } else {
        assert MarkedBelow(n + 1, marked) == MarkedBelow(n, marked);
      }
    }
  }

  /** Marking one contiguous block [lo, hi) drops exactly that block. */
  lemma {:induction false} KeptBlock(lines: seq<string>, marked: set<int>, lo: nat, hi: nat)
    requires lo <= hi <= |lines|
    requires forall i :: 0 <= i < |lines| ==> (i in marked <==> lo <= i < hi)
    ensures Kept(lines, marked) == lines[..lo] + lines[hi..]
    decreases |lines|
  {
    var n := |lines| - 1;
    if lo == |lines| {
      KeptAll(lines, marked);
    } else if hi == |lines| {
      KeptBlock(lines[..n], marked, lo, hi - 1);
      assert lines[..n][..lo] == lines[..lo];
    } else {
      KeptBlock(lines[..n], marked, lo, hi);
      assert lines[..n][..lo] == lines[..lo];
      assert lines[..n][hi..] + [lines[n]] == lines[hi..];
    }
  }

  // ---------------------------------------------------------------------------
  // What removeUnused promises, stated over the unused entries.

  /**
   * Line i of the input is in the output iff no entry covers i, and the output
   * lists the kept lines in their original order.
   */
  lemma Removal(lines: seq<string>, unused: seq<Entry>)
    ensures var r, ix := Kept(lines, Marked(unused)), KeptIndices(|lines|, Marked(unused));
      && |r| == |ix|
      && (forall k :: 0 <= k < |r| ==> r[k] == lines[ix[k]])
      && (forall k, l :: 0 <= k < l < |ix| ==> ix[k] < ix[l])
      && (forall i :: 0 <= i < |lines| ==> (i in ix <==> !Covered(unused, i)))
  {
    KeptSelects(lines, Marked(unused));
  }

  /** With no unused entries the lines come back unchanged. */
  lemma {:induction false} RemoveNothing(lines: seq<string>)
    ensures Kept(lines, Marked([])) == lines
  {
    KeptAll(lines, Marked([]));
  }

  /**
   * A single entry spanning lines a..b of a file of N lines leaves N - (b - a + 1)
   * lines, and line a - 1 is followed directly by what was line b + 1.
   */
  lemma RemoveOneSpan(lines: seq<string>, u: Entry)
    requires 1 <= u.loc.start.line <= u.loc.end.line <= |lines|
    ensures var r, a, b := Kept(lines, Marked([u])), u.loc.start.line, u.loc.end.line;
      && r == lines[..a - 1] + lines[b..]
      && |r| == |lines| - (b - a + 1)
      && (2 <= a && b < |lines| ==> r[a - 2] == lines[a - 2] && r[a - 1] == lines[b])
  {
    KeptBlock(lines, Marked([u]), u.loc.start.line - 1, u.loc.end.line);
  }

  /** The result depends only on the union of the spans, not on the entries' order or repetition. */
  lemma RemoveDependsOnUnion(lines: seq<string>, u1: seq<Entry>, u2: seq<Entry>)
    requires forall i :: 0 <= i < |lines| ==> (Covered(u1, i) <==> Covered(u2, i))
    ensures Kept(lines, Marked(u1)) == Kept(lines, Marked(u2))
  {
    KeptAgree(lines, Marked(u1), Marked(u2));
  }

  /** Repeating an entry, or one whose span is already covered, removes nothing more. */
  lemma RemoveCoveredEntry(lines: seq<string>, unused: seq<Entry>, u: Entry)
    requires forall i :: Covers(u, i) ==> Covered(unused, i)
    ensures Kept(lines, Marked(unused + [u])) == Kept(lines, Marked(unused))
  {
    MarkedAppend(unused, [u]);
    assert Marked(unused + [u]) == Marked(unused);
  }

  /**
   * An entry whose end line is before its start line, or whose span starts past
   * the last line, removes nothing.
   */
  lemma {:induction false} RemoveEmptyOrOutsideEntry(lines: seq<string>, unused: seq<Entry>, u: Entry)
    requires u.loc.end.line < u.loc.start.line || u.loc.start.line > |lines|
    ensures Kept(lines, Marked(unused + [u])) == Kept(lines, Marked(unused))
  {
    MarkedAppend(unused, [u]);
    KeptAgree(lines, Marked(unused + [u]), Marked(unused));
  }

  /** The number of lines removed is the number of distinct covered indices inside the file. */
  lemma RemoveLength(lines: seq<string>, unused: seq<Entry>)
    ensures |Kept(lines, Marked(unused))| == |lines| - |MarkedBelow(|lines|, Marked(unused))|
    ensures MarkedBelow(|lines|, Marked(unused)) == set i | 0 <= i < |lines| && Covered(unused, i)
  {
    KeptLength(lines, Marked(unused));
  }
}
