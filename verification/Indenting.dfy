/** Tab and Shift+Tab over a selection that spans lines. */
module Indenting {
  import opened Utf8
  import opened Columns
  import opened Documents
  import opened Positions
  import opened Editing
  import opened Records

  /** Up to `n` leading spaces go. */
  function DropSpaces(s: seq<byte>, n: nat): seq<byte> {
    if n > 0 && s != [] && s[0] == SPACE then DropSpaces(s[1..], n - 1) else s
  }

  /** One line under Tab, or under Shift+Tab. */
  function IndentLine(tab: TabSize, shift: bool, s: seq<byte>): seq<byte> {
    if !shift then [TAB] + s
    else if s != [] && s[0] == TAB then s[1..]
    else DropSpaces(s, tab)
  }

  function IndentLines(tab: TabSize, shift: bool, d: Document, lo: nat, hi: nat): (r: Document)
    ensures |r| == |d|
    ensures forall l {:trigger r[l]} :: 0 <= l < |d| && !(lo <= l <= hi) ==> r[l] == d[l]
    ensures forall l {:trigger r[l]} :: 0 <= l < |d| && lo <= l <= hi ==> r[l] == IndentLine(tab, shift, d[l])
  {
    seq(|d|, l requires 0 <= l < |d| => if lo <= l <= hi then IndentLine(tab, shift, d[l]) else d[l])
  }

  /** The selection spans lines, and its lines exist. */
  ghost predicate SpansLines(k: Snapshot) {
    && CleanText(k.text)
    && k.undoIndex <= |k.undoBuffer|
    && k.state.selectionStart.line < k.state.selectionEnd.line < |Lines(k.text)|
  }

  /** A selection that ends before the first character of a line leaves that line out. */
  function LastSelectedLine(s: EditorState): nat {
    if s.selectionEnd.column == 0 && s.selectionEnd.line > 0 then s.selectionEnd.line - 1
    else s.selectionEnd.line
  }

  /** The selection spans lines, which may lie below the text. With an end in column 0 the text up to the
      line above it is read, so that line must be at most one below the text. */
  ghost predicate Spans(k: Snapshot) {
    && CleanText(k.text)
    && k.undoIndex <= |k.undoBuffer|
    && k.state.selectionStart.line < k.state.selectionEnd.line
    && (k.state.selectionEnd.column == 0 ==> k.state.selectionEnd.line <= |Lines(k.text)| + 1)
  }

  /** The last line that is indented in a text of `n` lines. */
  function LastIndented(s: EditorState, n: nat): int {
    if LastSelectedLine(s) < n then LastSelectedLine(s) else n - 1
  }

  /** The line above the end of the selection lies right below a text of `n` lines. */
  predicate EndsBelow(s: EditorState, n: nat) {
    s.selectionEnd.column == 0 && LastSelectedLine(s) == n
  }

  /** The lines lo, ..., hi of `d` have become those of `e`: the new selection and the record. */
  ghost function Indented(tab: TabSize, k: Snapshot, d: Document, e: Document, lo: nat, hi: nat): Snapshot
    requires lo <= hi < |d| && |d| == |e| && k.undoIndex <= |k.undoBuffer|
  {
    var start := Coordinates(lo, 0);
    var below := EndsBelow(k.state, |d|);
    var rangeEnd := if below then Coordinates(|d|, 0) else Coordinates(hi, MaxColumn(tab, e[hi]));
    var added := if below then Flat(e[lo..]) + [NEWLINE] else Flat(e[lo..hi + 1]);
    var end := if k.state.selectionEnd.column != 0 then rangeEnd
               else Coordinates(k.state.selectionEnd.line, 0);
    AddUndo(k.(text := Flat(e), state := EditorState(start, end, k.state.cursorPosition)),
            UndoRecord(added, start, rangeEnd,
                       Flat(d[lo..hi + 1]), start, Coordinates(hi, MaxColumn(tab, d[hi])),
                       k.state, k.state))
  }

  /** The old text does not matter once the lines are given. */
  lemma IndentedLines(tab: TabSize, k: Snapshot, t: seq<byte>, d: Document, e: Document, lo: nat, hi: nat)
    requires lo <= hi < |d| && |d| == |e| && k.undoIndex <= |k.undoBuffer|
    ensures Indented(tab, k.(text := t), d, e, lo, hi) == Indented(tab, k, d, e, lo, hi)
  {
    hide Flat;
  }

  /** EnterCharacter('\t') with such a selection. */
  ghost function IndentSelection(tab: TabSize, k: Snapshot, shift: bool): Snapshot
    requires Spans(k)
  {
    var d := Lines(k.text);
    var lo, hi := k.state.selectionStart.line, LastIndented(k.state, |d|);
    if hi < lo then k
    else
      var e := IndentLines(tab, shift, d, lo, hi);
      if e == d then k else Indented(tab, k, d, e, lo, hi)
  }

  lemma {:induction false} DropSpacesClean(s: seq<byte>, n: nat)
    requires CleanLine(s)
    ensures CleanLine(DropSpaces(s, n))
  {
    if n > 0 && s != [] && s[0] == SPACE {
      TailClean(s);
      DropSpacesClean(s[1..], n - 1);
    }
  }

  lemma TailClean(s: seq<byte>)
    requires CleanLine(s) && s != [] && s[0] < 0x80
    ensures CleanLine(s[1..])
  {
    NextBoundary(s, 0);
    FramedSlice(s, 1, |s|);
    assert s[1..|s|] == s[1..];
  }

  lemma IndentLineClean(tab: TabSize, shift: bool, s: seq<byte>)
    requires CleanLine(s)
    ensures CleanLine(IndentLine(tab, shift, s))
  {
    if !shift {
      FramedConcat([TAB], s);
    } else if s != [] && s[0] == TAB {
      TailClean(s);
    } else {
      DropSpacesClean(s, tab);
    }
  }

  lemma IndentLinesClean(tab: TabSize, shift: bool, d: Document, lo: nat, hi: nat)
    requires CleanDocument(d)
    ensures CleanDocument(IndentLines(tab, shift, d, lo, hi))
  {
    var e := IndentLines(tab, shift, d, lo, hi);
    forall l | 0 <= l < |e|
      ensures CleanLine(e[l])
    {
      IndentLineClean(tab, shift, d[l]);
    }
  }

  /** The flat text around a block of whole lines. */
  lemma BlockPieces(tab: TabSize, d: Document, lo: nat, hi: nat)
    requires CleanDocument(d) && lo <= hi < |d|
    ensures var p, s := Flat(Before(d, lo, 0)), Flat(After(d, hi, |d[hi]|));
            && CleanText(p) && CleanText(Flat(d[lo..hi + 1])) && CleanText(s)
            && Flat(d) == p + Flat(d[lo..hi + 1]) + s
            && EndOf(tab, p) == Coordinates(lo, 0)
            && RoundsTo(tab, Flat(d), Coordinates(hi, MaxColumn(tab, d[hi])), |p| + |Flat(d[lo..hi + 1])|)
  {
    SplitAt(d, lo, 0);
    SplitAt(d, hi, |d[hi]|);
    FlatBetween(d, lo, 0, hi, |d[hi]|);
    WholeLines(d, lo, hi);
    BlockClean(d, lo, hi);
    EndOfBefore(tab, d, lo, 0);
    AtOfFlat(tab, d, Coordinates(hi, MaxColumn(tab, d[hi])));
    IndexOfMaxColumn(tab, d[hi], MaxColumn(tab, d[hi]));
    ThreePieces(Flat(d), Offset(d, lo, 0), Offset(d, hi, |d[hi]|));
  }

  lemma WholeLines(d: Document, lo: nat, hi: nat)
    requires lo <= hi < |d|
    ensures Between(d, lo, 0, hi, |d[hi]|) == d[lo..hi + 1]
  {
    assert d[lo][0..] == d[lo] && d[hi][..|d[hi]|] == d[hi];
    assert d[lo][0..|d[lo]|] == d[lo];
  }

  lemma BlockClean(d: Document, lo: nat, hi: nat)
    requires CleanDocument(d) && lo <= hi < |d|
    ensures CleanText(Flat(Before(d, lo, 0))) && CleanText(Flat(d[lo..hi + 1]))
    ensures CleanText(Flat(After(d, hi, |d[hi]|)))
  {
    FlatClean(Before(d, lo, 0));
    FlatClean(d[lo..hi + 1]);
    FlatClean(After(d, hi, |d[hi]|));
  }

  /** The undo record of a multi-line Tab or Shift+Tab restores the text in both directions, also
      for a selection that ends at column 0. */
  lemma IndentRestores(tab: TabSize, k: Snapshot, shift: bool)
    requires SpansLines(k)
    ensures ExactStep(tab, k, IndentSelection(tab, k, shift))
  {
    var d := Lines(k.text);
    var lo, hi := k.state.selectionStart.line, LastSelectedLine(k.state);
    var e := IndentLines(tab, shift, d, lo, hi);
    if e != d {
      LinesClean(k.text);
      FlatLines(k.text);
      IndentLinesClean(tab, shift, d, lo, hi);
      IndentFrame(tab, shift, d, lo, hi);
      var r, u := IndentResult(tab, k, shift, d, e, lo, hi);
      BlockReplaced(tab, k, r, u, d, e, lo, hi);
    }
  }

  lemma IndentFrame(tab: TabSize, shift: bool, d: Document, lo: nat, hi: nat)
    requires lo <= hi < |d|
    ensures var e := IndentLines(tab, shift, d, lo, hi);
            d[..lo] == e[..lo] && d[hi + 1..] == e[hi + 1..]
  {
  }

  lemma IndentResult(tab: TabSize, k: Snapshot, shift: bool, d: Document, e: Document, lo: nat, hi: nat)
    returns (r: Snapshot, u: UndoRecord)
    requires SpansLines(k) && d == Lines(k.text)
    requires lo == k.state.selectionStart.line && hi == LastSelectedLine(k.state)
    requires e == IndentLines(tab, shift, d, lo, hi) && e != d
    ensures r == IndentSelection(tab, k, shift) && Recorded(k, r, u) && r.text == Flat(e)
    ensures u == UndoRecord(Flat(e[lo..hi + 1]), Coordinates(lo, 0), Coordinates(hi, MaxColumn(tab, e[hi])),
                            Flat(d[lo..hi + 1]), Coordinates(lo, 0), Coordinates(hi, MaxColumn(tab, d[hi])),
                            k.state, k.state)
  {
    hide Lines, Flat, Framed, MaxColumn, IndentLines;
    r := IndentSelection(tab, k, shift);
    u := r.undoBuffer[k.undoIndex];
  }

  lemma BlockReplaced(tab: TabSize, k: Snapshot, r: Snapshot, u: UndoRecord,
                      d: Document, e: Document, lo: nat, hi: nat)
    requires CleanDocument(d) && CleanDocument(e) && |d| == |e| && lo <= hi < |d|
    requires d[..lo] == e[..lo] && d[hi + 1..] == e[hi + 1..]
    requires k.text == Flat(d) && r.text == Flat(e) && Recorded(k, r, u)
    requires u.added == Flat(e[lo..hi + 1]) && u.removed == Flat(d[lo..hi + 1])
    requires u.addedStart == u.removedStart == Coordinates(lo, 0)
    requires u.addedEnd == Coordinates(hi, MaxColumn(tab, e[hi]))
    requires u.removedEnd == Coordinates(hi, MaxColumn(tab, d[hi]))
    ensures ExactStep(tab, k, r)
  {
    hide Lines, Flat, Framed, MaxColumn, Before, After, RoundsTo, EndOf, CleanDocument, Restores, ExactStep;
    BlockPieces(tab, d, lo, hi);
    BlockPieces(tab, e, lo, hi);
    SameFrame(d, e, lo, hi);
    StripIdentity(u.added);
    RecordRestores(tab, Flat(Before(d, lo, 0)), u.removed, Flat(After(d, hi, |d[hi]|)), u.added, u);
    RecordedOnce(tab, k, r, u);
  }

  lemma SameFrame(d: Document, e: Document, lo: nat, hi: nat)
    requires |d| == |e| && lo <= hi < |d| && d[..lo] == e[..lo] && d[hi + 1..] == e[hi + 1..]
    ensures Before(d, lo, 0) == Before(e, lo, 0) && After(d, hi, |d[hi]|) == After(e, hi, |e[hi]|)
  {
    assert d[lo][..0] == e[lo][..0] == [];
    assert d[hi][|d[hi]|..] == e[hi][|e[hi]|..] == [];
  }

  // ---------- What happens to the lines and to the selection ----------

  /** `e` is `s` without one leading tab, or without leading spaces: as many as there are, up to the tab
      size. */
  predicate Dedents(tab: TabSize, s: seq<byte>, e: seq<byte>) {
    && |e| <= |s|
    && var n := |s| - |e|;
       && e == s[n..]
       && if s != [] && s[0] == TAB then n == 1
          else
            && n <= tab
            && (forall k :: 0 <= k < n ==> s[k] == SPACE)
            && (n < tab && e != [] ==> e[0] != SPACE)
  }

  lemma {:induction false} DropsSpaces(s: seq<byte>, n: nat)
    ensures var e := DropSpaces(s, n);
            var m := |s| - |e|;
            && 0 <= m <= n && e == s[m..]
            && (forall k :: 0 <= k < m ==> s[k] == SPACE)
            && (m < n && e != [] ==> e[0] != SPACE)
  {
    if n > 0 && s != [] && s[0] == SPACE {
      DropsSpaces(s[1..], n - 1);
      var m := |s[1..]| - |DropSpaces(s[1..], n - 1)|;
      assert s[1..][m..] == s[m + 1..];
      assert forall k :: 0 < k < m + 1 ==> s[k] == s[1..][k - 1];
    }
  }

  /** The line is selected: it is not above the start of the selection, and the selection does not end
      before its first character. */
  predicate Selects(s: EditorState, l: nat) {
    && s.selectionStart.line <= l
    && (l < s.selectionEnd.line || (l == s.selectionEnd.line && s.selectionEnd.column > 0))
  }

  /** Tab puts one tab in front of every selected line, empty ones too; Shift+Tab takes one tab or the
      leading spaces away; all other lines stay. */
  lemma IndentedLineIs(tab: TabSize, k: Snapshot, shift: bool, l: nat)
    requires Spans(k) && l < |Lines(k.text)|
    ensures var d, e := Lines(k.text), Lines(IndentSelection(tab, k, shift).text);
            && |e| == |d|
            && (!Selects(k.state, l) ==> e[l] == d[l])
            && (Selects(k.state, l) && !shift ==> e[l] == [TAB] + d[l])
            && (Selects(k.state, l) && shift ==> Dedents(tab, d[l], e[l]))
  {
    hide Lines, Flat, Framed;
    var d := Lines(k.text);
    var lo, hi := k.state.selectionStart.line, LastIndented(k.state, |d|);
    LinesClean(k.text);
    if lo <= hi {
      var e := IndentLines(tab, shift, d, lo, hi);
      IndentLinesClean(tab, shift, d, lo, hi);
      LinesFlat(e);
      DropsSpaces(d[l], tab);
    }
  }

  /** When a line changes, the selection covers the lines that were selected: it starts at the first of
      them, and ends at the end of the last one, or in column 0 where it ended before. The cursor stays. */
  lemma IndentedSelection(tab: TabSize, k: Snapshot, shift: bool)
    requires SpansLines(k)
    ensures var r := IndentSelection(tab, k, shift);
            && |Lines(r.text)| == |Lines(k.text)|
            && r.state.cursorPosition == k.state.cursorPosition
            && (r.text == k.text ==> r == k)
            && (r.text != k.text ==>
                  && r.state.selectionStart == Coordinates(k.state.selectionStart.line, 0)
                  && r.state.selectionEnd.line == k.state.selectionEnd.line
                  && r.state.selectionEnd.column ==
                     if k.state.selectionEnd.column == 0 then 0
                     else MaxColumn(tab, Lines(r.text)[k.state.selectionEnd.line]))
  {
    hide Lines, Flat, Framed, MaxColumn;
    var d := Lines(k.text);
    var lo, hi := k.state.selectionStart.line, LastSelectedLine(k.state);
    var e := IndentLines(tab, shift, d, lo, hi);
    LinesClean(k.text);
    FlatLines(k.text);
    IndentLinesClean(tab, shift, d, lo, hi);
    LinesFlat(e);
  }

  /** Tab and then Shift+Tab acts on the same lines and restores the text. */
  lemma ShiftTabUndoesTab(tab: TabSize, k: Snapshot)
    requires SpansLines(k)
    ensures var r := IndentSelection(tab, k, false);
            && SpansLines(r)
            && r.state.selectionStart.line == k.state.selectionStart.line
            && LastSelectedLine(r.state) == LastSelectedLine(k.state)
            && IndentSelection(tab, r, true).text == k.text
  {
    hide Flat, Lines;
    var d := Lines(k.text);
    var lo, hi := k.state.selectionStart.line, LastSelectedLine(k.state);
    var e := IndentLines(tab, false, d, lo, hi);
    assert |e[lo]| == |d[lo]| + 1;
    LinesClean(k.text);
    FlatLines(k.text);
    IndentLinesClean(tab, false, d, lo, hi);
    FlatClean(e);
    LinesFlat(e);
    TabbedColumn(tab, d[hi]);
    DedentInverts(tab, d, lo, hi);
  }

  lemma DedentInverts(tab: TabSize, d: Document, lo: nat, hi: nat)
    requires lo <= hi < |d|
    ensures IndentLines(tab, true, IndentLines(tab, false, d, lo, hi), lo, hi) == d
  {
  }

  lemma TabbedColumn(tab: TabSize, s: seq<byte>)
    requires Framed(s)
    ensures MaxColumn(tab, [TAB] + s) > 0
  {
    FramedConcat([TAB], s);
    ColumnMonotone(tab, [TAB] + s, 0, |[TAB] + s|);
  }
}
