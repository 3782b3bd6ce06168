/** What every reachable editor keeps: complete code sequences, no embedded separator, clean records. */
module Reachable {
  import opened Utf8
  import opened Columns
  import opened Documents
  import opened Positions
  import opened Editing
  import opened ExactEdits
  import opened Indenting
  import opened History

  ghost predicate CleanRecord(u: UndoRecord) {
    CString(u.added) && CString(u.removed)
  }

  ghost predicate CleanSnapshot(k: Snapshot) {
    && CleanText(k.text)
    && k.undoIndex <= |k.undoBuffer|
    && forall i {:trigger k.undoBuffer[i]} :: 0 <= i < |k.undoBuffer| ==> CleanRecord(k.undoBuffer[i])
  }

  lemma SliceIsCString(t: seq<byte>, a: nat, b: nat)
    requires CleanText(t) && a <= b && Boundary(t, a) && Boundary(t, b)
    ensures CString(t[a..b]) && CString([])
  {
    CleanSlice(t, a, b);
  }

  /** Deleting the selection: what is left, and the removed half of the record. */
  lemma SelectionClean(tab: TabSize, k: Snapshot)
    requires CleanSnapshot(k) && Placed(k)
    ensures CleanSnapshot(DeleteSelection(tab, k))
    ensures CleanRecord(SelectionRecord(tab, k))
  {
    hide Lines, Flat, Framed, Sanitize;
    var a, b := SelectionFrom(tab, k), SelectionTo(tab, k);
    SliceIsCString(k.text, a, b);
  }

  lemma CutClean(tab: TabSize, k: Snapshot)
    requires CleanSnapshot(k) && Placed(k)
    ensures CleanSnapshot(Cut(tab, k))
  {
    hide Lines, Flat, Framed, Sanitize;
    SelectionClean(tab, k);
  }

  /** Delete reads past the line end exactly with nothing selected and the cursor inside a tab that ends
      its line. */
  lemma ReadsPastEndIff(tab: TabSize, k: Snapshot)
    requires Placed(k)
    ensures var pos := Sanitize(tab, k.text, k.state.cursorPosition);
            var s := Lines(k.text)[pos.line];
            ReadsPastEnd(tab, k) <==>
            && !HasSelection(k.state)
            && s != [] && s[|s| - 1] == TAB
            && ColumnAt(tab, s, |s| - 1) < pos.column < MaxColumn(tab, s)
  {
    hide Flat, Framed;
    var pos := Sanitize(tab, k.text, k.state.cursorPosition);
    LinesClean(k.text);
    if pos.column < MaxColumn(tab, Lines(k.text)[pos.line]) {
      InsideLastTab(tab, Lines(k.text)[pos.line], pos.column);
    }
  }

  lemma DeletedClean(tab: TabSize, t: seq<byte>, pos: Coordinates)
    requires CleanText(t) && InRange(t, pos) && At(tab, t, pos) < |t|
    ensures CString(DeletedText(tab, t, pos)) && CString([])
  {
    hide Lines, Flat, Framed;
    SliceIsCString(t, At(tab, t, pos), At(tab, t, pos));
    if t[At(tab, t, pos)] == NEWLINE {
      CodeSequenceFramed([NEWLINE]);
    } else {
      var next := Coordinates(pos.line, pos.column + 1);
      AtMonotone(tab, t, pos, next);
      SliceIsCString(t, At(tab, t, pos), At(tab, t, next));
    }
  }

  lemma DeleteClean(tab: TabSize, k: Snapshot)
    requires CleanSnapshot(k) && Placed(k) && !ReadsPastEnd(tab, k)
    ensures CleanSnapshot(Delete(tab, k))
  {
    hide Lines, Flat, Framed, Sanitize;
    if HasSelection(k.state) {
      CutClean(tab, k);
    } else {
      var pos := Sanitize(tab, k.text, k.state.cursorPosition);
      var o := At(tab, k.text, pos);
      if o < |k.text| {
        NextBoundary(k.text, o);
        DeletedClean(tab, k.text, pos);
        RemoveClean(k.text, o, o + UTF8CharLength(k.text[o]));
      }
    }
  }

  lemma BackspaceClean(tab: TabSize, k: Snapshot)
    requires CleanSnapshot(k) && Placed(k)
    ensures CleanSnapshot(Backspace(tab, k))
  {
    hide Lines, Flat, Framed, Sanitize;
    if HasSelection(k.state) {
      CutClean(tab, k);
    } else {
      var o := At(tab, k.text, Sanitize(tab, k.text, k.state.cursorPosition));
      if o > 0 {
        PreviousOfNext(k.text, o);
        SliceIsCString(k.text, PreviousBoundary(k.text, o), o);
        RemoveClean(k.text, PreviousBoundary(k.text, o), o);
      }
    }
  }

  lemma PasteClean(tab: TabSize, k: Snapshot, clip: seq<byte>)
    requires CleanSnapshot(k) && Placed(k) && CString(clip)
    ensures CleanSnapshot(Paste(tab, k, clip))
  {
    hide Lines, Flat, Framed, Sanitize;
    SelectionClean(tab, k);
  }

  lemma NewlineClean(tab: TabSize, k: Snapshot, autoIndent: bool)
    requires CleanSnapshot(k) && Placed(k)
    ensures CleanSnapshot(EnterNewline(tab, k, autoIndent))
  {
    hide Lines, Flat, Framed, Sanitize;
    SelectionClean(tab, k);
    var d := DeleteSelection(tab, k);
    var pos := Sanitize(tab, d.text, d.state.cursorPosition);
    var indent := Indentation(autoIndent, d.text, pos);
    IndentationClean(autoIndent, d.text, pos);
    InsertClean(d.text, At(tab, d.text, pos), [NEWLINE] + indent);
  }

  lemma IndentationClean(autoIndent: bool, t: seq<byte>, c: Coordinates)
    requires c.line < |Lines(t)|
    ensures CleanText([NEWLINE] + Indentation(autoIndent, t, c)) && CString([NEWLINE])
  {
    hide Lines, Flat;
    if autoIndent {
      BlanksClean(LeadingBlanks(Lines(t)[c.line]));
    }
    CleanConcat([NEWLINE], Indentation(autoIndent, t, c));
  }

  lemma PrintableClean(tab: TabSize, k: Snapshot, c: wchar, overwrite: bool)
    requires CleanSnapshot(k) && Placed(k) && Typed(c) && c != NEWLINE
    ensures CleanSnapshot(EnterPrintable(tab, k, c, overwrite))
  {
    hide Lines, Flat, Framed, Sanitize, ImTextCharToUtf8, UTF8CharLength;
    SelectionClean(tab, k);
    var d, e := DeleteSelection(tab, k), ImTextCharToUtf8(c);
    if e != [] {
      EncodedClean(c);
      CharacterClean(tab, d, SelectionRecord(tab, k), e, overwrite);
    }
  }

  lemma CharacterClean(tab: TabSize, d: Snapshot, u: UndoRecord, e: seq<byte>, overwrite: bool)
    requires CleanSnapshot(d) && CleanRecord(u) && CleanText(e)
    ensures CleanSnapshot(CharacterInto(tab, d, u, e, overwrite))
  {
    hide Lines, Flat, Framed, Sanitize, ImTextCharToUtf8, UTF8CharLength;
    var pos := Sanitize(tab, d.text, d.state.cursorPosition);
    var o := At(tab, d.text, pos);
    if Overwrites(overwrite, d.text, o) {
      NextBoundary(d.text, o);
      var m := o + UTF8CharLength(d.text[o]);
      RemoveClean(d.text, o, m);
      SliceIsCString(d.text, o, m);
      FramedConcat(u.removed, d.text[o..m]);
      InsertClean(Remove(d.text, o, m), o, e);
    } else {
      InsertClean(d.text, o, e);
    }
  }

  lemma IndentClean(tab: TabSize, k: Snapshot, shift: bool)
    requires CleanSnapshot(k) && SpansLines(k)
    ensures CleanSnapshot(IndentSelection(tab, k, shift))
  {
    hide Lines, Flat, Framed, MaxColumn, IndentLines, IndentSelection;
    var d := Lines(k.text);
    var lo, hi := k.state.selectionStart.line, LastSelectedLine(k.state);
    var e := IndentLines(tab, shift, d, lo, hi);
    if e == d {
      IndentStays(tab, k, shift);
    } else {
      var r, u := IndentResult(tab, k, shift, d, e, lo, hi);
      LinesClean(k.text);
      IndentLinesClean(tab, shift, d, lo, hi);
      FlatClean(e);
      FlatClean(d[lo..hi + 1]);
      FlatClean(e[lo..hi + 1]);
    }
  }

  lemma IndentStays(tab: TabSize, k: Snapshot, shift: bool)
    requires SpansLines(k)
    requires var d := Lines(k.text);
             IndentLines(tab, shift, d, k.state.selectionStart.line, LastSelectedLine(k.state)) == d
    ensures IndentSelection(tab, k, shift) == k
  {
    hide Lines, Indented;
  }

  lemma {:induction false} WalkBackClean(tab: TabSize, k: Snapshot, n: nat)
    requires CleanSnapshot(k)
    ensures Undo(tab, k, n).Some? ==> CleanSnapshot(Undo(tab, k, n).value)
    decreases n
  {
    hide Lines, Flat, Framed, CanSwap, Swap;
    if n > 0 && k.undoIndex > 0 {
      var u := k.undoBuffer[k.undoIndex - 1];
      if CanUndoRecord(tab, k.text, u) {
        var j := k.(text := UndoText(tab, k.text, u), state := u.before, undoIndex := k.undoIndex - 1);
        WalkBackClean(tab, j, n - 1);
      }
    }
  }

  lemma {:induction false} WalkForwardClean(tab: TabSize, k: Snapshot, n: nat)
    requires CleanSnapshot(k)
    ensures Redo(tab, k, n).Some? ==> CleanSnapshot(Redo(tab, k, n).value)
    decreases n
  {
    hide Lines, Flat, Framed, CanSwap, Swap;
    if n > 0 && k.undoIndex < |k.undoBuffer| {
      var u := k.undoBuffer[k.undoIndex];
      if CanRedoRecord(tab, k.text, u) {
        var j := k.(text := RedoText(tab, k.text, u), state := u.after, undoIndex := k.undoIndex + 1);
        WalkForwardClean(tab, j, n - 1);
      }
    }
  }

  lemma StepKeepsClean(tab: TabSize, k: Snapshot, op: Operation)
    requires CleanSnapshot(k) && Usable(tab, k, op)
    ensures CleanSnapshot(Step(tab, k, op))
  {
    hide Lines, Flat, Framed;
    match op
    case CutOp => CutClean(tab, k);
    case DeleteOp => DeleteClean(tab, k);
    case BackspaceOp => BackspaceClean(tab, k);
    case PasteOp(clip) => PasteClean(tab, k, clip);
    case EnterOp(c, shift, overwrite, autoIndent) =>
      if IndentsLines(k, c) {
        IndentClean(tab, k, shift);
      } else if c == NEWLINE {
        NewlineClean(tab, k, autoIndent);
      } else {
        PrintableClean(tab, k, c, overwrite);
      }
    case UndoOp(n) => WalkBackClean(tab, k, n);
    case RedoOp(n) => WalkForwardClean(tab, k, n);
    case MoveOp(_) =>
  }

  /** Typing, overwriting, pasting, deleting, indenting, undo and redo, exact or not, keep the line
      invariant over any run: at least one line, and each a concatenation of complete code sequences
      without newline, carriage return and NUL. */
  lemma {:induction false} RunKeepsClean(tab: TabSize, k: Snapshot, ops: seq<Operation>)
    requires CleanSnapshot(k) && UsableRun(tab, k, ops)
    ensures CleanSnapshot(Run(tab, k, ops)) && CleanDocument(Lines(Run(tab, k, ops).text))
    decreases |ops|
  {
    hide Lines, Flat, Framed, Usable, Step;
    if ops == [] {
      LinesClean(k.text);
    } else {
      StepKeepsClean(tab, k, ops[0]);
      RunKeepsClean(tab, Step(tab, k, ops[0]), ops[1..]);
    }
  }
}
