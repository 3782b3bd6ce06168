/** When undo records can be applied: it is a question of how many lines the text has, and no run gets
    stuck unless an unencodable character is typed over a selection that spans lines. */
module Applicable {
  import opened Utf8
  import opened Columns
  import opened Documents
  import opened Positions
  import opened Editing
  import opened Records
  import opened ExactEdits
  import opened Indenting
  import opened History
  import opened Reachable
  import EditSteps
  import Pasting

  // ---------- Counting lines ----------

  lemma {:induction false} CountIsLines(s: seq<byte>)
    ensures |Lines(s)| == CountNewlines(s) + 1
  {
    if s != [] {
      CountIsLines(s[1..]);
    }
  }

  lemma {:induction false} CountAppend(x: seq<byte>, y: seq<byte>)
    ensures CountNewlines(x + y) == CountNewlines(x) + CountNewlines(y)
  {
    if x == [] {
      assert x + y == y;
    } else {
      assert (x + y)[1..] == x[1..] + y;
      CountAppend(x[1..], y);
    }
  }

  lemma {:induction false} CountNone(s: seq<byte>)
    requires NEWLINE !in s
    ensures CountNewlines(s) == 0
  {
    if s != [] {
      CountNone(s[1..]);
    }
  }

  lemma {:induction false} CountStrip(s: seq<byte>)
    ensures CountNewlines(StripReturns(s)) == CountNewlines(s)
  {
    if s != [] {
      CountStrip(s[1..]);
      CountAppend(if s[0] == RETURN then [] else [s[0]], StripReturns(s[1..]));
      CountOne(s[0]);
    }
  }

  lemma CountOne(c: byte)
    ensures CountNewlines([c]) == if c == NEWLINE then 1 else 0
  {
    assert [c][1..] == [] && CountNewlines([]) == 0;
  }

  lemma CountSequence(c: seq<byte>)
    requires CodeSequence(c)
    ensures CountNewlines(c) == if c[0] == NEWLINE then 1 else 0
  {
    if c[0] == NEWLINE {
      assert c == [NEWLINE];
      CountOne(NEWLINE);
    } else {
      assert forall k :: 0 < k < |c| ==> IsUTFSequence(c[k]);
      CountNone(c);
    }
  }

  /** The newlines before, between and behind two offsets. */
  lemma CountPieces(t: seq<byte>, a: nat, b: nat)
    requires a <= b <= |t|
    ensures CountNewlines(t) == CountNewlines(t[..a]) + CountNewlines(t[a..b]) + CountNewlines(t[b..])
    ensures CountNewlines(t[..b]) == CountNewlines(t[..a]) + CountNewlines(t[a..b])
    ensures CountNewlines(Remove(t, a, b)) == CountNewlines(t) - CountNewlines(t[a..b])
  {
    assert t == t[..b] + t[b..] && t[..b] == t[..a] + t[a..b];
    CountAppend(t[..b], t[b..]);
    CountAppend(t[..a], t[a..b]);
    CountAppend(t[..a], t[b..]);
  }

  lemma CountInserted(t: seq<byte>, o: nat, s: seq<byte>)
    requires o <= |t|
    ensures CountNewlines(Insert(t, o, s)) == CountNewlines(t) + CountNewlines(s)
  {
    CountAppend(t[..o] + s, t[o..]);
    CountAppend(t[..o], s);
    CountAppend(t[..o], t[o..]);
    assert t == t[..o] + t[o..];
  }

  /** As many newlines precede a coordinate as its line says. */
  lemma NewlinesBefore(tab: TabSize, t: seq<byte>, c: Coordinates)
    requires CleanText(t) && InRange(t, c)
    ensures CountNewlines(t[..At(tab, t, c)]) == c.line
    ensures c.column == 0 && At(tab, t, c) > 0 ==> t[At(tab, t, c) - 1] == NEWLINE
  {
    hide Framed;
    var d := Lines(t);
    var i := IndexAt(tab, d[c.line], c.column);
    LinesClean(t);
    FlatLines(t);
    IndexOfMaxColumn(tab, d[c.line], c.column);
    SplitAt(d, c.line, i);
    BeforeLines(d, c.line, i);
    if c.column == 0 {
      if c.line > 0 {
        CharAt(d, c.line - 1, |d[c.line - 1]|);
      } else {
        OffsetOrigin(d);
      }
    }
  }

  lemma BeforeLines(d: Document, l: nat, i: nat)
    requires CleanDocument(d) && l < |d| && i <= |d[l]|
    ensures CountNewlines(Flat(Before(d, l, i))) == l
  {
    hide Framed;
    assert forall m :: 0 <= m <= l ==> NEWLINE !in Before(d, l, i)[m];
    LinesFlat(Before(d, l, i));
    CountIsLines(Flat(Before(d, l, i)));
  }

  lemma NewlinesBetween(tab: TabSize, t: seq<byte>, a: Coordinates, b: Coordinates)
    requires CleanText(t) && InRange(t, a) && InRange(t, b) && a.AtMost(b)
    ensures At(tab, t, a) <= At(tab, t, b)
    ensures CountNewlines(t[At(tab, t, a)..At(tab, t, b)]) == b.line - a.line
  {
    hide Lines, Flat, Framed;
    AtMonotone(tab, t, a, b);
    NewlinesBefore(tab, t, a);
    NewlinesBefore(tab, t, b);
    CountPieces(t, At(tab, t, a), At(tab, t, b));
  }

  // ---------- Applying one record ----------

  /** The lines that the deleting half of a record takes away. */
  function Cuts(cut: seq<byte>, a: Coordinates, b: Coordinates): int {
    if cut == [] then 0 else b.line - a.line
  }

  /** The coordinates of one direction of a record fit a text of `n` lines. */
  predicate Applies(n: nat, cut: seq<byte>, a: Coordinates, b: Coordinates, put: seq<byte>, c: Coordinates) {
    && (cut != [] ==> a == b || (a.AtMost(b) && b.line < n))
    && (put != [] ==> c.line + Cuts(cut, a, b) < n)
  }

  /** A record can be applied if and only if its coordinates are in order and its lines lie in the text;
      the number of lines changes by what it cuts and puts. */
  lemma SwapApplies(tab: TabSize, t: seq<byte>, cut: seq<byte>, a: Coordinates, b: Coordinates,
                    put: seq<byte>, c: Coordinates)
    requires CleanText(t) && CString(put)
    ensures CanSwap(tab, t, cut, a, b, put, c) <==> Applies(|Lines(t)|, cut, a, b, put, c)
    ensures CanSwap(tab, t, cut, a, b, put, c) ==>
              |Lines(Swap(tab, t, cut, a, b, put, c))| == |Lines(t)| - Cuts(cut, a, b) + CountNewlines(put)
  {
    hide Lines, Flat, Framed;
    if cut != [] && CanDelete(t, a, b) {
      DeletedLines(tab, t, a, b);
    }
    if CanSwap(tab, t, cut, a, b, put, c) && put != [] {
      InsertedLines(tab, if cut == [] then t else DeleteRange(tab, t, a, b), c, put);
    }
  }

  lemma DeletedLines(tab: TabSize, t: seq<byte>, a: Coordinates, b: Coordinates)
    requires CleanText(t) && CanDelete(t, a, b)
    ensures |Lines(DeleteRange(tab, t, a, b))| == |Lines(t)| - (b.line - a.line)
  {
    hide Lines, Flat, Framed;
    if a != b {
      NewlinesBetween(tab, t, a, b);
      CountPieces(t, At(tab, t, a), At(tab, t, b));
      CountIsLines(t);
      CountIsLines(DeleteRange(tab, t, a, b));
    }
  }

  lemma InsertedLines(tab: TabSize, t: seq<byte>, c: Coordinates, s: seq<byte>)
    requires CleanText(t) && InRange(t, c) && CString(s)
    ensures |Lines(InsertTextAt(tab, t, c, s))| == |Lines(t)| + CountNewlines(s)
  {
    hide Lines, Flat, Framed;
    CountStrip(s);
    CountInserted(t, At(tab, t, c), StripReturns(s));
    CountIsLines(t);
    CountIsLines(InsertTextAt(tab, t, c, s));
  }

  /** Undo(1) and Redo(1) work if and only if the record met fits the number of lines of the text. */
  lemma StepApplicable(tab: TabSize, k: Snapshot)
    requires CleanSnapshot(k)
    ensures 0 < k.undoIndex ==>
              var u := k.undoBuffer[k.undoIndex - 1];
              Undo(tab, k, 1).Some? <==>
              Applies(|Lines(k.text)|, u.added, u.addedStart, u.addedEnd, u.removed, u.removedStart)
    ensures k.undoIndex < |k.undoBuffer| ==>
              var u := k.undoBuffer[k.undoIndex];
              Redo(tab, k, 1).Some? <==>
              Applies(|Lines(k.text)|, u.removed, u.removedStart, u.removedEnd, u.added, u.addedStart)
  {
    hide Lines, Flat, Framed, CanSwap, Swap, Applies;
    if 0 < k.undoIndex {
      var u := k.undoBuffer[k.undoIndex - 1];
      SwapApplies(tab, k.text, u.added, u.addedStart, u.addedEnd, u.removed, u.removedStart);
    }
    if k.undoIndex < |k.undoBuffer| {
      var u := k.undoBuffer[k.undoIndex];
      SwapApplies(tab, k.text, u.removed, u.removedStart, u.removedEnd, u.added, u.addedStart);
    }
  }

  // ---------- Line numbers along the undo buffer ----------

  /** The selection lies in a text of `n` lines. */
  predicate StateFits(s: EditorState, n: int) {
    HasSelection(s) ==> s.selectionEnd.line < n
  }

  /** Undoing `u` from `m` lines and redoing it from `n` lines works, and never leaves fewer lines than
      the other direction counts on. */
  ghost predicate FitsRecord(u: UndoRecord, n: int, m: int) {
    && CleanRecord(u)
    && 0 <= n && 0 <= m
    && Applies(m, u.added, u.addedStart, u.addedEnd, u.removed, u.removedStart)
    && m - Cuts(u.added, u.addedStart, u.addedEnd) + CountNewlines(u.removed) >= n
    && Applies(n, u.removed, u.removedStart, u.removedEnd, u.added, u.addedStart)
    && n - Cuts(u.removed, u.removedStart, u.removedEnd) + CountNewlines(u.added) >= m
    && (u.added != [] ==> u.addedStart.AtMost(u.addedEnd) && u.addedEnd.line < m)
    && (u.removed != [] ==> u.removedStart.AtMost(u.removedEnd) && u.removedEnd.line < n)
    && StateFits(u.before, n) && StateFits(u.after, m)
  }

  lemma MoreLinesFit(u: UndoRecord, n: int, m: int, more: nat)
    requires FitsRecord(u, n, m)
    ensures FitsRecord(u, n + more, m + more)
  {
  }

  /** `M` numbers the lines between the records; the text has as many lines as the undo index says. */
  ghost predicate Track(k: Snapshot, M: seq<int>) {
    && CleanText(k.text)
    && |M| == |k.undoBuffer| + 1
    && k.undoIndex <= |k.undoBuffer|
    && M[k.undoIndex] == |Lines(k.text)|
    && StateFits(k.state, |Lines(k.text)|)
    && forall i {:trigger FitsRecord(k.undoBuffer[i], M[i], M[i + 1])} :: 0 <= i < |k.undoBuffer| ==>
         FitsRecord(k.undoBuffer[i], M[i], M[i + 1])
  }

  ghost predicate Tracked(k: Snapshot) {
    exists M :: Track(k, M)
  }

  function Lifted(M: seq<int>, more: nat): (r: seq<int>)
    ensures |r| == |M| && forall i {:trigger r[i]} :: 0 <= i < |M| ==> r[i] == M[i] + more
  {
    seq(|M|, i requires 0 <= i < |M| => M[i] + more)
  }

  /** After a step of Undo or Redo the text may have more lines than counted on, never fewer. */
  lemma StepTracked(k: Snapshot, r: Snapshot, M: seq<int>)
    requires Track(k, M) && CleanText(r.text)
    requires r.undoBuffer == k.undoBuffer && r.undoIndex <= |r.undoBuffer|
    requires |Lines(r.text)| >= M[r.undoIndex] && StateFits(r.state, M[r.undoIndex])
    ensures Tracked(r)
  {
    hide Lines, FitsRecord, Framed;
    var more := |Lines(r.text)| - M[r.undoIndex];
    var N := Lifted(M, more);
    forall i | 0 <= i < |r.undoBuffer|
      ensures FitsRecord(r.undoBuffer[i], N[i], N[i + 1])
    {
      assert FitsRecord(k.undoBuffer[i], M[i], M[i + 1]);
      MoreLinesFit(k.undoBuffer[i], M[i], M[i + 1], more);
    }
    assert Track(r, N);
  }

  lemma {:induction false} UndoNeverStuck(tab: TabSize, k: Snapshot, n: nat)
    requires Tracked(k)
    ensures Undo(tab, k, n).Some? && Tracked(Undo(tab, k, n).value)
    decreases n
  {
    hide Lines, Flat, Framed, CanSwap, Swap;
    if n > 0 && k.undoIndex > 0 {
      var M :| Track(k, M);
      var i := k.undoIndex - 1;
      var u := k.undoBuffer[i];
      assert FitsRecord(k.undoBuffer[i], M[i], M[i + 1]);
      SwapApplies(tab, k.text, u.added, u.addedStart, u.addedEnd, u.removed, u.removedStart);
      var r := k.(text := UndoText(tab, k.text, u), state := u.before, undoIndex := i);
      StepTracked(k, r, M);
      UndoNeverStuck(tab, r, n - 1);
    }
  }

  lemma {:induction false} RedoNeverStuck(tab: TabSize, k: Snapshot, n: nat)
    requires Tracked(k)
    ensures Redo(tab, k, n).Some? && Tracked(Redo(tab, k, n).value)
    decreases n
  {
    hide Lines, Flat, Framed, CanSwap, Swap;
    if n > 0 && k.undoIndex < |k.undoBuffer| {
      var M :| Track(k, M);
      var i := k.undoIndex;
      var u := k.undoBuffer[i];
      assert FitsRecord(k.undoBuffer[i], M[i], M[i + 1]);
      SwapApplies(tab, k.text, u.removed, u.removedStart, u.removedEnd, u.added, u.addedStart);
      var r := k.(text := RedoText(tab, k.text, u), state := u.after, undoIndex := i + 1);
      StepTracked(k, r, M);
      RedoNeverStuck(tab, r, n - 1);
    }
  }

  // ---------- Edits ----------

  /** The edit from `k` to `r` left a record that fits both texts, or changed neither the number of lines
      nor the history. */
  ghost predicate FitStep(k: Snapshot, r: Snapshot) {
    && CleanText(r.text)
    && StateFits(r.state, |Lines(r.text)|)
    && ((r.undoBuffer == k.undoBuffer && r.undoIndex == k.undoIndex && |Lines(r.text)| == |Lines(k.text)|)
        || exists u :: Recorded(k, r, u) && FitsRecord(u, |Lines(k.text)|, |Lines(r.text)|))
  }

  lemma EditTracked(k: Snapshot, r: Snapshot)
    requires Tracked(k) && FitStep(k, r)
    ensures Tracked(r)
  {
    hide Lines, FitsRecord, Framed;
    var M :| Track(k, M);
    if r.undoIndex == k.undoIndex {
      assert Track(r, M);
    } else {
      var u :| Recorded(k, r, u) && FitsRecord(u, |Lines(k.text)|, |Lines(r.text)|);
      var N := M[..k.undoIndex + 1] + [|Lines(r.text)|];
      forall i | 0 <= i < |r.undoBuffer|
        ensures FitsRecord(r.undoBuffer[i], N[i], N[i + 1])
      {
        assert i < k.undoIndex ==> FitsRecord(k.undoBuffer[i], M[i], M[i + 1]);
      }
      assert Track(r, N);
    }
  }

  /** A record whose removed text took `n - rest` newlines away, and whose added text brought `m - rest`. */
  lemma ReplacementFits(u: UndoRecord, n: nat, rest: nat, m: nat)
    requires CleanRecord(u) && rest <= n && n - rest == CountNewlines(u.removed)
    requires m - rest == CountNewlines(u.added)
    requires u.removed != [] ==>
               && u.removedStart.AtMost(u.removedEnd) && u.removedEnd.line < n && u.removedStart.line < rest
               && u.removedEnd.line - u.removedStart.line <= n - rest
    requires u.added != [] ==>
               && u.addedStart.AtMost(u.addedEnd) && u.addedEnd.line < m && u.addedStart.line < rest
               && u.addedEnd.line - u.addedStart.line == m - rest
    requires StateFits(u.before, n) && StateFits(u.after, m)
    ensures FitsRecord(u, n, m)
  {
  }

  /** What deleting the selection takes away, in lines. */
  lemma SelectionLines(tab: TabSize, k: Snapshot)
    requires CleanSnapshot(k) && Placed(k)
    ensures var u, n, rest := SelectionRecord(tab, k), |Lines(k.text)|, |Lines(DeleteSelection(tab, k).text)|;
            && CleanRecord(u) && rest <= n && n - rest == CountNewlines(u.removed)
            && (u.removed != [] ==>
                  && u.removedStart.AtMost(u.removedEnd) && u.removedEnd.line < n && u.removedStart.line < rest
                  && u.removedEnd.line - u.removedStart.line == n - rest)
            && u.before == k.state && StateFits(k.state, n)
            && (HasSelection(k.state) ==>
                  n - rest == k.state.selectionEnd.line - k.state.selectionStart.line)
            && (!HasSelection(k.state) ==> n == rest)
            && u.added == []
    ensures var d := DeleteSelection(tab, k);
            && CleanText(d.text) && d.undoBuffer == k.undoBuffer && d.undoIndex == k.undoIndex
            && !HasSelection(d.state)
  {
    hide Lines, Flat, Framed, Sanitize;
    SelectionClean(tab, k);
    if HasSelection(k.state) {
      EditSteps.SelectionDeleted(tab, k);
      NewlinesBetween(tab, k.text, k.state.selectionStart, k.state.selectionEnd);
      DeletedLines(tab, k.text, k.state.selectionStart, k.state.selectionEnd);
    }
  }

  lemma CutFits(tab: TabSize, k: Snapshot)
    requires CleanSnapshot(k) && Placed(k)
    ensures FitStep(k, Cut(tab, k))
  {
    hide Lines, Flat, Framed, Sanitize, SelectionRecord, DeleteSelection;
    SelectionLines(tab, k);
    if HasSelection(k.state) {
      var r := Cut(tab, k);
      var u := r.undoBuffer[k.undoIndex];
      ReplacementFits(u, |Lines(k.text)|, |Lines(r.text)|, |Lines(r.text)|);
      assert Recorded(k, r, u);
    }
  }

  /** A cursor inside a tab resolves to the end of the tab. */
  lemma RoundedUp(tab: TabSize, t: seq<byte>, c: Coordinates)
    requires CleanText(t) && InRange(t, c) && c.column <= MaxColumn(tab, Lines(t)[c.line])
    ensures var e := EndOf(tab, t[..At(tab, t, c)]);
            Denotes(tab, t, e, At(tab, t, c)) && c.line == e.line && c.column <= e.column
  {
    hide Flat, Framed;
    var d := Lines(t);
    var i := IndexAt(tab, d[c.line], c.column);
    LinesClean(t);
    FlatLines(t);
    IndexOfMaxColumn(tab, d[c.line], c.column);
    ColumnOfIndex(tab, d[c.line], c.column);
    SplitAt(d, c.line, i);
    EndOfBefore(tab, d, c.line, i);
  }

  lemma NextFits(tab: TabSize, t: seq<byte>, pos: Coordinates)
    requires CleanText(t) && InRange(t, pos) && At(tab, t, pos) < |t|
    ensures var o := At(tab, t, pos);
            var n := o + UTF8CharLength(t[o]);
            && n <= |t| && Boundary(t, n)
            && CountNewlines(t[o..n]) == CountNewlines(DeletedText(tab, t, pos))
            && CountNewlines(t[o..n]) == (if t[o] == NEWLINE then 1 else 0)
            && |Lines(Remove(t, o, n))| == |Lines(t)| - CountNewlines(t[o..n])
            && (t[o] == NEWLINE ==> pos.line + 1 < |Lines(t)|)
  {
    hide Lines, Flat, Framed;
    var o := At(tab, t, pos);
    var n := o + UTF8CharLength(t[o]);
    NextBoundary(t, o);
    CountSequence(t[o..n]);
    CountPieces(t, o, n);
    CountIsLines(t);
    CountIsLines(Remove(t, o, n));
    NewlinesBefore(tab, t, pos);
    if t[o] == NEWLINE {
      CountOne(NEWLINE);
    } else {
      NewlinesBetween(tab, t, pos, Coordinates(pos.line, pos.column + 1));
    }
  }

  lemma DeleteFits(tab: TabSize, k: Snapshot)
    requires CleanSnapshot(k) && Placed(k) && !ReadsPastEnd(tab, k)
    ensures FitStep(k, Delete(tab, k))
  {
    hide Lines, Flat, Framed, DeletedText, ReadsPastEnd;
    if HasSelection(k.state) {
      CutFits(tab, k);
    } else {
      var pos := Sanitize(tab, k.text, k.state.cursorPosition);
      DeleteClean(tab, k);
      if At(tab, k.text, pos) < |k.text| {
        NextFits(tab, k.text, pos);
        var r := Delete(tab, k);
        var u := r.undoBuffer[k.undoIndex];
        DeletedClean(tab, k.text, pos);
        ReplacementFits(u, |Lines(k.text)|, |Lines(r.text)|, |Lines(r.text)|);
        assert Recorded(k, r, u);
      }
    }
  }

  lemma PreviousFits(tab: TabSize, t: seq<byte>, pos: Coordinates)
    requires CleanText(t) && InRange(t, pos) && At(tab, t, pos) > 0
    ensures var o := At(tab, t, pos);
            var b := PreviousBoundary(t, o);
            var start := BackspaceStart(tab, t, pos, b);
            && Boundary(t, b)
            && |Lines(Remove(t, b, o))| == |Lines(t)| - CountNewlines(t[b..o])
            && start.AtMost(pos) && pos.line - start.line == CountNewlines(t[b..o])
            && start.line < |Lines(t)| - CountNewlines(t[b..o])
  {
    hide Lines, Flat, Framed;
    var o := At(tab, t, pos);
    var b := PreviousBoundary(t, o);
    PreviousOfNext(t, o);
    NextBoundary(t, b);
    CountSequence(t[b..o]);
    CountPieces(t, b, o);
    CountIsLines(t);
    CountIsLines(Remove(t, b, o));
    NewlinesBefore(tab, t, pos);
    EndLine(tab, t[..b]);
  }

  lemma EndLine(tab: TabSize, p: seq<byte>)
    ensures EndOf(tab, p).line == CountNewlines(p)
  {
    CountIsLines(p);
  }

  lemma BackspaceFits(tab: TabSize, k: Snapshot)
    requires CleanSnapshot(k) && Placed(k)
    ensures FitStep(k, Backspace(tab, k))
  {
    hide Lines, Flat, Framed, BackspaceStart;
    if HasSelection(k.state) {
      CutFits(tab, k);
    } else {
      var pos := Sanitize(tab, k.text, k.state.cursorPosition);
      BackspaceClean(tab, k);
      if At(tab, k.text, pos) > 0 {
        PreviousFits(tab, k.text, pos);
        var r := Backspace(tab, k);
        var u := r.undoBuffer[k.undoIndex];
        SliceIsCString(k.text, PreviousBoundary(k.text, At(tab, k.text, pos)), At(tab, k.text, pos));
        ReplacementFits(u, |Lines(k.text)|, |Lines(r.text)|, |Lines(r.text)|);
        assert Recorded(k, r, u);
      }
    }
  }

  lemma {:induction false} CountedLine(c: Coordinates, s: seq<byte>)
    requires CString(s)
    ensures CountedEnd(c, s).line == c.line + CountNewlines(s)
    decreases |s|
  {
    if s != [] {
      var n := FirstSequence(s);
      var x, y := s[..n], s[n..];
      assert s == x + y;
      CodeSequenceFramed(x);
      CountSequence(x);
      CountAppend(x, y);
      Pasting.CountedSequence(c, x);
      Pasting.CountedAppend(c, x, y);
      CountedLine(CountedEnd(c, x), y);
    }
  }

  /** The end of an insertion lies behind its start. */
  lemma InsertionOrdered(tab: TabSize, t: seq<byte>, pos: Coordinates, m: seq<byte>)
    requires CleanText(t) && CleanText(m) && InRange(t, pos) && pos.column <= MaxColumn(tab, Lines(t)[pos.line])
    ensures var o := At(tab, t, pos);
            var u := Insert(t, o, m);
            && CleanText(u) && |Lines(u)| == |Lines(t)| + CountNewlines(m)
            && pos.AtMost(EndOf(tab, u[..o + |m|]))
            && EndOf(tab, u[..o + |m|]).line == pos.line + CountNewlines(m)
            && pos.column <= MaxColumn(tab, Lines(u)[pos.line])
  {
    hide Lines, Flat, Framed;
    var o := At(tab, t, pos);
    var p := t[..o];
    var u := Insert(t, o, m);
    Positions.CutClean(t, o);
    RoundedUp(tab, t, pos);
    EndOfInserted(tab, p, m, t[o..]);
    assert u[..o + |m|] == p + m;
    CountInserted(t, o, m);
    CountIsLines(t);
    CountIsLines(u);
    NewlinesBefore(tab, t, pos);
    CountAppend(p, m);
    EndLine(tab, p + m);
    CleanConcat(m, t[o..]);
    Middle(p, m, t[o..]);
    EndDenotes(tab, p, m + t[o..]);
    DenotesAt(tab, u, EndOf(tab, p), o);
    SanitizeAligned(tab, u, EndOf(tab, p));
  }

  lemma PasteFits(tab: TabSize, k: Snapshot, clip: seq<byte>)
    requires CleanSnapshot(k) && Placed(k) && CString(clip)
    ensures FitStep(k, Paste(tab, k, clip))
  {
    hide Lines, Flat, Framed, SelectionRecord, DeleteSelection;
    SelectionLines(tab, k);
    if clip != [] {
      var d := DeleteSelection(tab, k);
      var pos := Sanitize(tab, d.text, d.state.cursorPosition);
      var r := Paste(tab, k, clip);
      var u := r.undoBuffer[k.undoIndex];
      StripClean(clip);
      CountStrip(clip);
      CountedLine(pos, clip);
      InsertionOrdered(tab, d.text, pos, StripReturns(clip));
      PastedEnd(tab, r.text, pos, CountedEnd(pos, clip));
      ReplacementFits(u, |Lines(k.text)|, |Lines(d.text)|, |Lines(r.text)|);
      assert Recorded(k, r, u);
    }
  }

  lemma PastedEnd(tab: TabSize, t: seq<byte>, pos: Coordinates, end: Coordinates)
    requires pos.AtMost(end) && end.line < |Lines(t)| && pos.column <= MaxColumn(tab, Lines(t)[pos.line])
    ensures var e := Sanitize(tab, t, end);
            e.line == end.line && pos.AtMost(e)
  {
    hide Lines;
  }

  lemma NewlineFits(tab: TabSize, k: Snapshot, autoIndent: bool)
    requires CleanSnapshot(k) && Placed(k)
    ensures FitStep(k, EnterNewline(tab, k, autoIndent))
  {
    hide Lines, Flat, Framed, SelectionRecord, DeleteSelection;
    SelectionLines(tab, k);
    var d := DeleteSelection(tab, k);
    var pos := Sanitize(tab, d.text, d.state.cursorPosition);
    var indent := Indentation(autoIndent, d.text, pos);
    var r := EnterNewline(tab, k, autoIndent);
    var u := r.undoBuffer[k.undoIndex];
    IndentationClean(autoIndent, d.text, pos);
    CountAppend([NEWLINE], indent);
    CountOne(NEWLINE);
    CountNone(indent);
    InsertionOrdered(tab, d.text, pos, [NEWLINE] + indent);
    ReplacementFits(u, |Lines(k.text)|, |Lines(d.text)|, |Lines(r.text)|);
    assert Recorded(k, r, u);
  }

  /** The character with the bytes `e` instead of the selection. */
  lemma InsertedFits(tab: TabSize, k: Snapshot, e: seq<byte>, overwrite: bool)
    requires CleanSnapshot(k) && Placed(k) && CleanText(e) && e != [] && NEWLINE !in e
    requires var d := DeleteSelection(tab, k);
             !Overwrites(overwrite, d.text, At(tab, d.text, Sanitize(tab, d.text, d.state.cursorPosition)))
    ensures FitStep(k, CharacterInto(tab, DeleteSelection(tab, k), SelectionRecord(tab, k), e, overwrite))
  {
    hide Lines, Flat, Framed, SelectionRecord, DeleteSelection, Overwrites;
    SelectionLines(tab, k);
    var d, v := DeleteSelection(tab, k), SelectionRecord(tab, k);
    var pos := Sanitize(tab, d.text, d.state.cursorPosition);
    var r := CharacterInto(tab, d, v, e, overwrite);
    var u := r.undoBuffer[k.undoIndex];
    CountNone(e);
    InsertionOrdered(tab, d.text, pos, e);
    ReplacementFits(u, |Lines(k.text)|, |Lines(d.text)|, |Lines(r.text)|);
    assert Recorded(k, r, u);
  }

  /** The same over a character, which lies in one line. */
  lemma OverwriteFits(tab: TabSize, k: Snapshot, e: seq<byte>)
    requires CleanSnapshot(k) && Placed(k) && CleanText(e) && e != [] && NEWLINE !in e
    requires var d := DeleteSelection(tab, k);
             Overwrites(true, d.text, At(tab, d.text, Sanitize(tab, d.text, d.state.cursorPosition)))
    ensures FitStep(k, CharacterInto(tab, DeleteSelection(tab, k), SelectionRecord(tab, k), e, true))
  {
    hide Lines, Flat, Framed, SelectionRecord, DeleteSelection, UTF8CharLength, Sanitize, EndOf, FitsRecord;
    SelectionLines(tab, k);
    var d, v := DeleteSelection(tab, k), SelectionRecord(tab, k);
    var pos := Sanitize(tab, d.text, d.state.cursorPosition);
    var o := At(tab, d.text, pos);
    var m := o + UTF8CharLength(d.text[o]);
    NextFits(tab, d.text, pos);
    OverwrittenFits(tab, d.text, pos, e);
    OverwrittenRecord(d.text, o, m, v);
    CountNone(e);
    var r := CharacterInto(tab, d, v, e, true);
    var u := r.undoBuffer[k.undoIndex];
    ReplacementFits(u, |Lines(k.text)|, |Lines(d.text)|, |Lines(r.text)|);
    assert Recorded(k, r, u);
  }

  lemma OverwrittenRecord(t: seq<byte>, o: nat, m: nat, v: UndoRecord)
    requires CleanText(t) && o <= m && Boundary(t, o) && Boundary(t, m) && CleanRecord(v)
    ensures CString(v.removed + t[o..m])
    ensures CountNewlines(v.removed + t[o..m]) == CountNewlines(v.removed) + CountNewlines(t[o..m])
  {
    hide Framed;
    SliceIsCString(t, o, m);
    FramedConcat(v.removed, t[o..m]);
    CountAppend(v.removed, t[o..m]);
  }

  lemma CharacterFits(tab: TabSize, k: Snapshot, e: seq<byte>, overwrite: bool)
    requires CleanSnapshot(k) && Placed(k) && CleanText(e) && e != [] && NEWLINE !in e
    ensures FitStep(k, CharacterInto(tab, DeleteSelection(tab, k), SelectionRecord(tab, k), e, overwrite))
  {
    hide Lines, Flat, Framed, SelectionRecord, DeleteSelection, CharacterInto, FitStep;
    var d := DeleteSelection(tab, k);
    if Overwrites(overwrite, d.text, At(tab, d.text, Sanitize(tab, d.text, d.state.cursorPosition))) {
      OverwriteFits(tab, k, e);
    } else {
      InsertedFits(tab, k, e, overwrite);
    }
  }

  lemma OverwrittenFits(tab: TabSize, t: seq<byte>, pos: Coordinates, e: seq<byte>)
    requires CleanText(t) && InRange(t, pos) && pos.column <= MaxColumn(tab, Lines(t)[pos.line])
    requires CleanText(e) && NEWLINE !in e
    requires At(tab, t, pos) < |t| && t[At(tab, t, pos)] != NEWLINE
    ensures var o := At(tab, t, pos);
            var m := o + UTF8CharLength(t[o]);
            && m <= |t|
            && var w := Remove(t, o, m);
               var x := Insert(w, o, e);
               && CleanText(x) && |Lines(x)| == |Lines(t)|
               && pos.AtMost(EndOf(tab, t[..m])) && EndOf(tab, t[..m]).line == pos.line
               && pos.AtMost(EndOf(tab, x[..o + |e|])) && EndOf(tab, x[..o + |e|]).line == pos.line
  {
    hide Lines, Flat, Framed;
    var o := At(tab, t, pos);
    var m := o + UTF8CharLength(t[o]);
    NextFits(tab, t, pos);
    RoundedUp(tab, t, pos);
    Pieces(t, o, m);
    RemoveClean(t, o, m);
    var p := t[..o];
    var x := Insert(Remove(t, o, m), o, e);
    InsertIntoRemoved(t, o, m, e);
    EndOfInserted(tab, p, t[o..m], t[m..]);
    EndOfInserted(tab, p, e, t[m..]);
    assert t[..m] == p + t[o..m];
    NewlinesBefore(tab, t, pos);
    CountNone(e);
    CountAppend(p, e);
    CountAppend(p, t[o..m]);
    EndLine(tab, p + e);
    EndLine(tab, p + t[o..m]);
    CountInserted(Remove(t, o, m), o, e);
    CountIsLines(x);
    CountIsLines(Remove(t, o, m));
    Concat3Clean(p, e, t[m..]);
  }

  lemma PrintableFits(tab: TabSize, k: Snapshot, c: wchar, overwrite: bool)
    requires CleanSnapshot(k) && Placed(k) && Typed(c) && c != NEWLINE && !LosesLines(k, c)
    ensures FitStep(k, EnterPrintable(tab, k, c, overwrite))
  {
    hide Lines, Flat, Framed, SelectionRecord, DeleteSelection, ImTextCharToUtf8;
    SelectionLines(tab, k);
    var e := ImTextCharToUtf8(c);
    if e != [] {
      EncodedClean(c);
      EncodedInLine(c);
      CharacterFits(tab, k, e, overwrite);
    }
  }

  lemma EncodedInLine(c: wchar)
    requires c != NEWLINE
    ensures NEWLINE !in ImTextCharToUtf8(c)
  {
  }

  lemma IndentFits(tab: TabSize, k: Snapshot, shift: bool)
    requires CleanSnapshot(k) && SpansLines(k)
    ensures FitStep(k, IndentSelection(tab, k, shift))
  {
    hide Flat, Framed, IndentLine;
    var d := Lines(k.text);
    var lo, hi := k.state.selectionStart.line, LastSelectedLine(k.state);
    var e := IndentLines(tab, shift, d, lo, hi);
    IndentClean(tab, k, shift);
    if e != d {
      LinesClean(k.text);
      IndentLinesClean(tab, shift, d, lo, hi);
      LinesFlat(e);
      BlockLines(d, lo, hi);
      BlockLines(e, lo, hi);
      var r, u := IndentResult(tab, k, shift, d, e, lo, hi);
      assert r.undoBuffer[k.undoIndex] == u;
      ReplacementFits(u, |d|, |d| - (hi - lo), |d|);
    }
  }

  lemma BlockLines(d: Document, lo: nat, hi: nat)
    requires CleanDocument(d) && lo <= hi < |d|
    ensures CountNewlines(Flat(d[lo..hi + 1])) == hi - lo
  {
    hide Framed;
    LinesFlat(d[lo..hi + 1]);
    CountIsLines(Flat(d[lo..hi + 1]));
  }

  // ---------- Runs ----------

  /** An unencodable character typed over a selection that spans lines: the lines go without a record. */
  predicate LosesLines(k: Snapshot, c: wchar) {
    && HasSelection(k.state)
    && k.state.selectionStart.line != k.state.selectionEnd.line
    && ImTextCharToUtf8(c) == []
  }

  /** What a caller can see before an operation. */
  ghost predicate Permitted(tab: TabSize, k: Snapshot, op: Operation) {
    match op
    case DeleteOp => !ReadsPastEnd(tab, k)
    case PasteOp(clip) => CString(clip)
    case EnterOp(c, _, _, _) => Typed(c) && !LosesLines(k, c)
    case MoveOp(state) => StateFits(state, |Lines(k.text)|)
    case _ => true
  }

  lemma TrackedPlaced(k: Snapshot)
    requires Tracked(k)
    ensures Placed(k) && CleanSnapshot(k)
  {
    hide Lines, Framed;
    var M :| Track(k, M);
    forall i | 0 <= i < |k.undoBuffer|
      ensures CleanRecord(k.undoBuffer[i])
    {
      assert FitsRecord(k.undoBuffer[i], M[i], M[i + 1]);
    }
  }

  /** A permitted operation finds the selection in place and records that it can apply, and leaves such
      an editor behind. */
  lemma StepNeverStuck(tab: TabSize, k: Snapshot, op: Operation)
    requires Tracked(k) && Permitted(tab, k, op)
    ensures Usable(tab, k, op) && Tracked(Step(tab, k, op))
  {
    hide Lines, Flat, Framed, ReadsPastEnd, LosesLines, FitStep;
    TrackedPlaced(k);
    match op
    case UndoOp(n) => UndoNeverStuck(tab, k, n);
    case RedoOp(n) => RedoNeverStuck(tab, k, n);
    case MoveOp(state) =>
      var M :| Track(k, M);
      StepTracked(k, k.(state := state), M);
    case CutOp =>
      CutFits(tab, k);
      EditTracked(k, Cut(tab, k));
    case DeleteOp =>
      DeleteFits(tab, k);
      EditTracked(k, Delete(tab, k));
    case BackspaceOp =>
      BackspaceFits(tab, k);
      EditTracked(k, Backspace(tab, k));
    case PasteOp(clip) =>
      PasteFits(tab, k, clip);
      EditTracked(k, Paste(tab, k, clip));
    case EnterOp(c, shift, overwrite, autoIndent) =>
      EnterFits(tab, k, c, shift, overwrite, autoIndent);
      EditTracked(k, EnterCharacter(tab, k, c, shift, overwrite, autoIndent));
  }

  lemma EnterFits(tab: TabSize, k: Snapshot, c: wchar, shift: bool, overwrite: bool, autoIndent: bool)
    requires CleanSnapshot(k) && Placed(k) && Typed(c) && !LosesLines(k, c)
    ensures FitStep(k, EnterCharacter(tab, k, c, shift, overwrite, autoIndent))
  {
    hide Lines, Flat, Framed, LosesLines, FitStep;
    if IndentsLines(k, c) {
      IndentFits(tab, k, shift);
    } else if c == NEWLINE {
      NewlineFits(tab, k, autoIndent);
    } else {
      PrintableFits(tab, k, c, overwrite);
    }
  }

  /** Every operation of the run is permitted when its turn comes. */
  ghost predicate PermittedRun(tab: TabSize, k: Snapshot, ops: seq<Operation>)
    decreases |ops|
  {
    ops != [] ==>
      && Permitted(tab, k, ops[0])
      && (Usable(tab, k, ops[0]) ==> PermittedRun(tab, Step(tab, k, ops[0]), ops[1..]))
  }

  /** No permitted run gets stuck: from an editor with tracked line numbers, however edits, exact or not,
      Undo, Redo and cursor moves are mixed, every selection lies in the text when it is needed and every
      record that Undo and Redo meet can be applied. */
  lemma {:induction false} RunNeverStuck(tab: TabSize, k: Snapshot, ops: seq<Operation>)
    requires Tracked(k) && PermittedRun(tab, k, ops)
    ensures UsableRun(tab, k, ops) && Tracked(Run(tab, k, ops))
    decreases |ops|
  {
    hide Lines, Flat, Framed, Permitted, Usable, Step, Tracked;
    if ops != [] {
      StepNeverStuck(tab, k, ops[0]);
      RunNeverStuck(tab, Step(tab, k, ops[0]), ops[1..]);
    }
  }

  /** With no history, the editor is such a one if and only if its selection ends inside the text. */
  lemma ClearedTracked(k: Snapshot)
    requires CleanText(k.text) && k.undoBuffer == [] && k.undoIndex == 0
    ensures Tracked(k) <==> StateFits(k.state, |Lines(k.text)|)
  {
    hide Lines, Framed;
    if StateFits(k.state, |Lines(k.text)|) {
      assert Track(k, [|Lines(k.text)|]);
    }
  }

  /** From an editor with no history, whose selection ends inside the text, no permitted run gets stuck. */
  lemma FreshNeverStuck(tab: TabSize, k: Snapshot, ops: seq<Operation>)
    requires CleanText(k.text) && k.undoBuffer == [] && k.undoIndex == 0
    requires StateFits(k.state, |Lines(k.text)|) && PermittedRun(tab, k, ops)
    ensures UsableRun(tab, k, ops) && Tracked(Run(tab, k, ops))
  {
    hide Tracked, PermittedRun, StateFits;
    ClearedTracked(k);
    RunNeverStuck(tab, k, ops);
  }
}
