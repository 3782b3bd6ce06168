/** The lines that edits, Undo and Redo move, and those that they ask to recolour. */
module Recolouring {
  import opened Utf8
  import opened Columns
  import opened Documents
  import opened Positions
  import opened Editing
  import EditSteps
  import opened History
  import Indenting
  import opened Reachable
  import opened ColorRange
  import opened Applicable
  import opened LineMoves

  // ---------- Lines under the two basic steps ----------

  /** Where the line `l` lies that starts behind offset `p`. */
  lemma LinesBehind(t: seq<byte>, p: nat, l: nat)
    requires p <= |t|
    ensures |Lines(t)| == CountNewlines(t[..p]) + |Lines(t[p..])|
    ensures |Lines(t[..p])| == CountNewlines(t[..p]) + 1
    ensures l < CountNewlines(t[..p]) ==> Lines(t)[l] == Lines(t[..p])[l]
    ensures CountNewlines(t[..p]) < l < |Lines(t)| ==> Lines(t)[l] == Lines(t[p..])[l - CountNewlines(t[..p])]
  {
    hide Lines;
    assert t == t[..p] + t[p..];
    LinesAppend(t[..p], t[p..]);
    CountIsLines(t[..p]);
  }

  /** Removing text joins lines. */
  lemma RemovalMoves(t: seq<byte>, o: nat, p: nat, m: Move)
    requires o <= p <= |t|
    requires m.Joined? && m.at == CountNewlines(t[..o]) && m.n == CountNewlines(t[o..p])
    ensures Moved(m, Lines(t), Lines(Remove(t, o, p)))
  {
    hide Lines;
    var r := Remove(t, o, p);
    CountPieces(t, o, p);
    assert r[..o] == t[..o] && r[o..] == t[p..];
    LinesBehind(t, o, 0);
    LinesBehind(t, p, 0);
    LinesBehind(r, o, 0);
    assert CountNewlines(t[..p]) == m.at + m.n && |Lines(r)| == |Lines(t)| - m.n;
    forall l: nat | l < |Lines(r)| && !Rewrites(m, l)
      ensures 0 <= Origin(m, l) < |Lines(t)| && Lines(r)[l] == Lines(t)[Origin(m, l)]
    {
      LinesBehind(r, o, l);
      LinesBehind(t, o, l);
      LinesBehind(t, p, Origin(m, l));
    }
  }

  /** Inserting text breaks a line. */
  lemma InsertionMoves(t: seq<byte>, o: nat, s: seq<byte>, m: Move)
    requires o <= |t| && m.Broken? && m.at == CountNewlines(t[..o]) && m.n == CountNewlines(s)
    ensures Moved(m, Lines(t), Lines(Insert(t, o, s)))
  {
    hide Lines;
    var r := Insert(t, o, s);
    var e := o + |s|;
    CountInserted(t, o, s);
    CountAppend(t[..o], s);
    assert r[..o] == t[..o] && r[..e] == t[..o] + s && r[e..] == t[o..];
    LinesBehind(t, o, 0);
    LinesBehind(r, e, 0);
    assert CountNewlines(r[..e]) == m.at + m.n && |Lines(r)| == |Lines(t)| + m.n;
    forall l: nat | l < |Lines(r)| && !Rewrites(m, l)
      ensures 0 <= Origin(m, l) < |Lines(t)| && Lines(r)[l] == Lines(t)[Origin(m, l)]
    {
      LinesBehind(r, o, l);
      LinesBehind(r, e, l);
      LinesBehind(t, o, Origin(m, l));
    }
  }

  // ---------- Undo and redo ----------

  /** One direction of a record, applied to `n` lines: each of its halves asks for the lines from the one
      above it on, `extra` more than its coordinates are apart. */
  function SwapMoves(n: int, cut: seq<byte>, a: Coordinates, b: Coordinates,
                     put: seq<byte>, c: Coordinates, d: Coordinates, extra: nat): seq<Move> {
    var m := n - Cuts(cut, a, b);
    CutMoves(m, cut, a, b, extra) + PutMoves(m + CountNewlines(put), put, c, d, extra)
  }

  /** The deleting half, which leaves `m` lines. */
  function CutMoves(m: int, cut: seq<byte>, a: Coordinates, b: Coordinates, extra: nat): seq<Move> {
    if cut == [] then []
    else [Joined(a.line, b.line - a.line, a.line - 1, RequestEnd(m, a.line - 1, b.line - a.line + extra))]
  }

  /** The inserting half. */
  function PutMoves(m: int, put: seq<byte>, c: Coordinates, d: Coordinates, extra: nat): seq<Move> {
    if put == [] then []
    else [Broken(c.line, CountNewlines(put), c.line - 1, RequestEnd(m, c.line - 1, d.line - c.line + extra))]
  }

  function UndoneMoves(n: int, u: UndoRecord): seq<Move> {
    SwapMoves(n, u.added, u.addedStart, u.addedEnd, u.removed, u.removedStart, u.removedEnd, 2)
  }

  function RedoneMoves(n: int, u: UndoRecord): seq<Move> {
    SwapMoves(n, u.removed, u.removedStart, u.removedEnd, u.added, u.addedStart, u.addedEnd, 1)
  }

  /** The lines left when `u` is undone in a text of `n` lines. */
  function UndoneLines(n: int, u: UndoRecord): int {
    n - Cuts(u.added, u.addedStart, u.addedEnd) + CountNewlines(u.removed)
  }

  function RedoneLines(n: int, u: UndoRecord): int {
    n - Cuts(u.removed, u.removedStart, u.removedEnd) + CountNewlines(u.added)
  }

  /** Up to `steps` steps of Undo from index `i` of the undo buffer. */
  function UndoMoves(n: int, buffer: seq<UndoRecord>, i: nat, steps: nat): seq<Move>
    requires i <= |buffer|
    decreases steps
  {
    if steps == 0 || i == 0 then []
    else
      var u := buffer[i - 1];
      UndoneMoves(n, u) + UndoMoves(UndoneLines(n, u), buffer, i - 1, steps - 1)
  }

  function RedoMoves(n: int, buffer: seq<UndoRecord>, i: nat, steps: nat): seq<Move>
    requires i <= |buffer|
    decreases steps
  {
    if steps == 0 || i == |buffer| then []
    else
      var u := buffer[i];
      RedoneMoves(n, u) + RedoMoves(RedoneLines(n, u), buffer, i + 1, steps - 1)
  }

  /** The coordinates are in order and lie in the text. */
  predicate Located(n: int, cut: seq<byte>, a: Coordinates, b: Coordinates,
                    put: seq<byte>, c: Coordinates, d: Coordinates) {
    && 0 <= n
    && (cut != [] ==> a.AtMost(b) && b.line < n)
    && (put != [] ==> c.AtMost(d) && c.line + Cuts(cut, a, b) < n)
  }

  lemma SwapCovers(n: int, cut: seq<byte>, a: Coordinates, b: Coordinates,
                   put: seq<byte>, c: Coordinates, d: Coordinates, extra: nat)
    requires Located(n, cut, a, b, put, c, d) && 1 <= extra
    ensures AllCover(SwapMoves(n, cut, a, b, put, c, d, extra))
  {
  }

  lemma SwapMoved(tab: TabSize, t: seq<byte>, cut: seq<byte>, a: Coordinates, b: Coordinates,
                  put: seq<byte>, c: Coordinates, d: Coordinates, extra: nat)
    requires CanSwap(tab, t, cut, a, b, put, c)
    ensures AllMoved(SwapMoves(|Lines(t)|, cut, a, b, put, c, d, extra), Lines(t),
                     Lines(Swap(tab, t, cut, a, b, put, c)))
  {
    hide Lines, Flat, Framed, Moved, AllMoved, DeleteRange, InsertTextAt, CountNewlines, RequestEnd;
    var u := if cut == [] then t else DeleteRange(tab, t, a, b);
    var m := |Lines(t)| - Cuts(cut, a, b);
    NoneMoved(Lines(u));
    if cut != [] {
      CutMoved(tab, t, cut, a, b, m, extra);
    }
    if put != [] {
      PutMoved(tab, u, put, c, d, m + CountNewlines(put), extra);
    }
    MovedThen(CutMoves(m, cut, a, b, extra), PutMoves(m + CountNewlines(put), put, c, d, extra), Lines(t), Lines(u),
              Lines(Swap(tab, t, cut, a, b, put, c)));
  }

  lemma CutMoved(tab: TabSize, t: seq<byte>, cut: seq<byte>, a: Coordinates, b: Coordinates, m: int, extra: nat)
    requires CleanText(t) && CanDelete(t, a, b) && cut != []
    ensures AllMoved(CutMoves(m, cut, a, b, extra), Lines(t), Lines(DeleteRange(tab, t, a, b)))
  {
    hide Lines, Flat, Framed, Moved;
    var s := CutMoves(m, cut, a, b, extra)[0];
    if a == b {
      NothingMoved(s, Lines(t));
    } else {
      NewlinesBefore(tab, t, a);
      NewlinesBetween(tab, t, a, b);
      RemovalMoves(t, At(tab, t, a), At(tab, t, b), s);
    }
    MovedOnce(s, Lines(t), Lines(DeleteRange(tab, t, a, b)));
  }

  lemma PutMoved(tab: TabSize, t: seq<byte>, put: seq<byte>, c: Coordinates, d: Coordinates, m: int, extra: nat)
    requires CleanText(t) && InRange(t, c) && CString(put) && put != []
    ensures AllMoved(PutMoves(m, put, c, d, extra), Lines(t), Lines(InsertTextAt(tab, t, c, put)))
  {
    hide Lines, Flat, Framed, Moved;
    var s := PutMoves(m, put, c, d, extra)[0];
    NewlinesBefore(tab, t, c);
    CountStrip(put);
    InsertionMoves(t, At(tab, t, c), StripReturns(put), s);
    MovedOnce(s, Lines(t), Lines(InsertTextAt(tab, t, c, put)));
  }

  lemma {:induction false} UndoMoved(tab: TabSize, k: Snapshot, n: nat)
    requires CleanText(k.text) && k.undoIndex <= |k.undoBuffer| && Undo(tab, k, n).Some?
    ensures AllMoved(UndoMoves(|Lines(k.text)|, k.undoBuffer, k.undoIndex, n), Lines(k.text),
                     Lines(Undo(tab, k, n).value.text))
    decreases n
  {
    hide Lines, Flat, Framed, CanSwap, Swap, SwapMoves, Undo;
    if n == 0 || k.undoIndex == 0 {
      WalkStays(tab, k, n);
    } else {
      EditSteps.UndoUnrolls(tab, k, n);
      var i := k.undoIndex - 1;
      var u := k.undoBuffer[i];
      var t := UndoText(tab, k.text, u);
      SwapIsClean(tab, k.text, u.added, u.addedStart, u.addedEnd, u.removed, u.removedStart);
      SwapMoved(tab, k.text, u.added, u.addedStart, u.addedEnd, u.removed, u.removedStart, u.removedEnd, 2);
      var r := Snapshot(t, u.before, k.undoBuffer, i);
      UndoMoved(tab, r, n - 1);
      MovedThen(UndoneMoves(|Lines(k.text)|, u), UndoMoves(|Lines(t)|, k.undoBuffer, i, n - 1), Lines(k.text),
                Lines(t), Lines(Undo(tab, k, n).value.text));
    }
  }

  lemma {:induction false} RedoMoved(tab: TabSize, k: Snapshot, n: nat)
    requires CleanText(k.text) && k.undoIndex <= |k.undoBuffer| && Redo(tab, k, n).Some?
    ensures AllMoved(RedoMoves(|Lines(k.text)|, k.undoBuffer, k.undoIndex, n), Lines(k.text),
                     Lines(Redo(tab, k, n).value.text))
    decreases n
  {
    hide Lines, Flat, Framed, CanSwap, Swap, SwapMoves, Redo;
    if n == 0 || k.undoIndex == |k.undoBuffer| {
      WalkStays(tab, k, n);
    } else {
      EditSteps.RedoUnrolls(tab, k, n);
      var i := k.undoIndex;
      var u := k.undoBuffer[i];
      var t := RedoText(tab, k.text, u);
      SwapIsClean(tab, k.text, u.removed, u.removedStart, u.removedEnd, u.added, u.addedStart);
      SwapMoved(tab, k.text, u.removed, u.removedStart, u.removedEnd, u.added, u.addedStart, u.addedEnd, 1);
      var r := Snapshot(t, u.after, k.undoBuffer, i + 1);
      RedoMoved(tab, r, n - 1);
      MovedThen(RedoneMoves(|Lines(k.text)|, u), RedoMoves(|Lines(t)|, k.undoBuffer, i + 1, n - 1), Lines(k.text),
                Lines(t), Lines(Redo(tab, k, n).value.text));
    }
  }

  lemma WalkStays(tab: TabSize, k: Snapshot, n: nat)
    ensures n == 0 || k.undoIndex == 0 ==> Undo(tab, k, n) == Some(k)
    ensures n == 0 || k.undoIndex == |k.undoBuffer| ==> Redo(tab, k, n) == Some(k)
  {
  }

  lemma SwapIsClean(tab: TabSize, t: seq<byte>, cut: seq<byte>, a: Coordinates, b: Coordinates,
                    put: seq<byte>, c: Coordinates)
    requires CanSwap(tab, t, cut, a, b, put, c)
    ensures CleanText(t) && CleanText(Swap(tab, t, cut, a, b, put, c))
    ensures |Lines(Swap(tab, t, cut, a, b, put, c))| == |Lines(t)| - Cuts(cut, a, b) + CountNewlines(put)
  {
    hide Lines, Flat, Framed;
    SwapApplies(tab, t, cut, a, b, put, c);
  }

  // ---------- Edits ----------

  /** Deleting the selection asks for the line it starts in. */
  ghost function SelectionMoves(tab: TabSize, k: Snapshot): seq<Move>
    requires Placed(k)
  {
    if HasSelection(k.state) then
      var a, b := k.state.selectionStart.line, k.state.selectionEnd.line;
      [Joined(a, b - a, a, RequestEnd(|Lines(DeleteSelection(tab, k).text)|, a, 1))]
    else []
  }

  /** Deleting the character at `pos`. */
  ghost function DeleteMoves(tab: TabSize, t: seq<byte>, pos: Coordinates): seq<Move>
    requires CleanText(t) && InRange(t, pos)
  {
    var o := At(tab, t, pos);
    if o == |t| then []
    else
      NextBoundary(t, o);
      var n := if t[o] == NEWLINE then 1 else 0;
      [Joined(pos.line, n, pos.line, RequestEnd(|Lines(Remove(t, o, o + UTF8CharLength(t[o])))|, pos.line, 1))]
  }

  /** Deleting the character before `pos`. */
  ghost function BackspaceMoves(tab: TabSize, t: seq<byte>, pos: Coordinates): seq<Move>
    requires CleanText(t) && InRange(t, pos)
  {
    var o := At(tab, t, pos);
    if o == 0 then []
    else
      var b := PreviousBoundary(t, o);
      var l := BackspaceStart(tab, t, pos, b).line;
      [Joined(l, if t[b] == NEWLINE then 1 else 0, l, RequestEnd(|Lines(Remove(t, b, o))|, l, 1))]
  }

  /** InsertText at the cursor of `d`. */
  ghost function PasteMoves(tab: TabSize, d: Snapshot, clip: seq<byte>): seq<Move>
    requires CleanText(d.text) && CString(clip)
  {
    var pos := Sanitize(tab, d.text, d.state.cursorPosition);
    var start := if pos.Less(d.state.selectionStart) then pos else d.state.selectionStart;
    var n := CountNewlines(clip);
    [Broken(pos.line, n, start.line - 1,
            RequestEnd(|Lines(InsertTextAt(tab, d.text, pos, clip))|, start.line - 1, pos.line - start.line + n + 2))]
  }

  /** Typing at the cursor of `d`, which leads to `r`, with `n` line breaks. */
  ghost function TypeMoves(tab: TabSize, d: Snapshot, r: Snapshot, n: nat): seq<Move> {
    var l := Sanitize(tab, d.text, d.state.cursorPosition).line;
    [Broken(l, n, l - 1, RequestEnd(|Lines(r.text)|, l - 1, 3))]
  }

  /** The steps that an operation consists of. Indenting lines asks for nothing. */
  ghost function OpMoves(tab: TabSize, k: Snapshot, op: Operation): seq<Move>
    requires Usable(tab, k, op) && CleanText(k.text) && k.undoIndex <= |k.undoBuffer|
  {
    match op
    case CutOp => SelectionMoves(tab, k)
    case DeleteOp =>
      if HasSelection(k.state) then SelectionMoves(tab, k)
      else DeleteMoves(tab, k.text, Sanitize(tab, k.text, k.state.cursorPosition))
    case BackspaceOp =>
      if HasSelection(k.state) then SelectionMoves(tab, k)
      else BackspaceMoves(tab, k.text, Sanitize(tab, k.text, k.state.cursorPosition))
    case PasteOp(clip) =>
      if clip == [] then [] else SelectionMoves(tab, k) + PasteMoves(tab, DeleteSelection(tab, k), clip)
    case EnterOp(c, _, _, _) =>
      if IndentsLines(k, c) then [Changed(k.state.selectionStart.line, Indenting.LastSelectedLine(k.state))]
      else if c != NEWLINE && ImTextCharToUtf8(c) == [] then SelectionMoves(tab, k)
      else
        SelectionMoves(tab, k)
        + TypeMoves(tab, DeleteSelection(tab, k), Step(tab, k, op), if c == NEWLINE then 1 else 0)
    case UndoOp(n) => UndoMoves(|Lines(k.text)|, k.undoBuffer, k.undoIndex, n)
    case RedoOp(n) => RedoMoves(|Lines(k.text)|, k.undoBuffer, k.undoIndex, n)
    case MoveOp(_) => []
  }

  lemma SelectionMoved(tab: TabSize, k: Snapshot)
    requires CleanSnapshot(k) && Placed(k)
    ensures AllAsk(SelectionMoves(tab, k))
    ensures AllMoved(SelectionMoves(tab, k), Lines(k.text), Lines(DeleteSelection(tab, k).text))
  {
    hide Lines, Flat, Framed, Moved, Sanitize, SelectionRecord;
    SelectionLines(tab, k);
    if HasSelection(k.state) {
      var a, b := k.state.selectionStart, k.state.selectionEnd;
      EditSteps.SelectionDeleted(tab, k);
      NewlinesBefore(tab, k.text, a);
      NewlinesBetween(tab, k.text, a, b);
      var m := SelectionMoves(tab, k)[0];
      RemovalMoves(k.text, At(tab, k.text, a), At(tab, k.text, b), m);
      MovedOnce(m, Lines(k.text), Lines(DeleteSelection(tab, k).text));
    }
  }

  lemma DeleteMoved(tab: TabSize, t: seq<byte>, pos: Coordinates)
    requires CleanText(t) && InRange(t, pos) && At(tab, t, pos) < |t|
    ensures AllAsk(DeleteMoves(tab, t, pos))
    ensures var o := At(tab, t, pos);
            var n := o + UTF8CharLength(t[o]);
            n <= |t| && AllMoved(DeleteMoves(tab, t, pos), Lines(t), Lines(Remove(t, o, n)))
  {
    hide Lines, Flat, Framed, Moved;
    var o := At(tab, t, pos);
    var n := o + UTF8CharLength(t[o]);
    NextFits(tab, t, pos);
    NewlinesBefore(tab, t, pos);
    var m := DeleteMoves(tab, t, pos)[0];
    RemovalMoves(t, o, n, m);
    MovedOnce(m, Lines(t), Lines(Remove(t, o, n)));
  }

  lemma BackspaceMoved(tab: TabSize, t: seq<byte>, pos: Coordinates)
    requires CleanText(t) && InRange(t, pos) && At(tab, t, pos) > 0
    ensures AllAsk(BackspaceMoves(tab, t, pos))
    ensures var o := At(tab, t, pos);
            var b := PreviousBoundary(t, o);
            AllMoved(BackspaceMoves(tab, t, pos), Lines(t), Lines(Remove(t, b, o)))
  {
    hide Lines, Flat, Framed, Moved, BackspaceStart;
    var o := At(tab, t, pos);
    var b := PreviousBoundary(t, o);
    PreviousFits(tab, t, pos);
    PreviousCounts(t, o);
    NewlinesBefore(tab, t, pos);
    CountPieces(t, b, o);
    var m := BackspaceMoves(tab, t, pos)[0];
    RemovalMoves(t, b, o, m);
    MovedOnce(m, Lines(t), Lines(Remove(t, b, o)));
  }

  lemma PreviousCounts(t: seq<byte>, o: nat)
    requires CleanText(t) && Boundary(t, o) && o > 0
    ensures var b := PreviousBoundary(t, o);
            CountNewlines(t[b..o]) == if t[b] == NEWLINE then 1 else 0
  {
    hide Lines, Framed;
    var b := PreviousBoundary(t, o);
    PreviousOfNext(t, o);
    NextBoundary(t, b);
    CountSequence(t[b..o]);
  }

  lemma PasteMoved(tab: TabSize, d: Snapshot, clip: seq<byte>)
    requires CleanText(d.text) && CString(clip)
    ensures AllAsk(PasteMoves(tab, d, clip))
    ensures var pos := Sanitize(tab, d.text, d.state.cursorPosition);
            AllMoved(PasteMoves(tab, d, clip), Lines(d.text), Lines(InsertTextAt(tab, d.text, pos, clip)))
  {
    hide Lines, Flat, Framed, Moved;
    var pos := Sanitize(tab, d.text, d.state.cursorPosition);
    var m := PasteMoves(tab, d, clip)[0];
    InsertedLines(tab, d.text, pos, clip);
    NewlinesBefore(tab, d.text, pos);
    CountStrip(clip);
    InsertionMoves(d.text, At(tab, d.text, pos), StripReturns(clip), m);
    MovedOnce(m, Lines(d.text), Lines(InsertTextAt(tab, d.text, pos, clip)));
  }

  /** Typing the bytes `s` at the cursor of `d`. */
  lemma TypeMoved(tab: TabSize, d: Snapshot, r: Snapshot, s: seq<byte>)
    requires CleanText(d.text) && CountNewlines(s) <= 1
    requires r.text == Insert(d.text, At(tab, d.text, Sanitize(tab, d.text, d.state.cursorPosition)), s)
    ensures AllAsk(TypeMoves(tab, d, r, CountNewlines(s)))
    ensures AllMoved(TypeMoves(tab, d, r, CountNewlines(s)), Lines(d.text), Lines(r.text))
  {
    hide Lines, Flat, Framed, Moved;
    var pos := Sanitize(tab, d.text, d.state.cursorPosition);
    var m := TypeMoves(tab, d, r, CountNewlines(s))[0];
    CountInserted(d.text, At(tab, d.text, pos), s);
    CountIsLines(d.text);
    CountIsLines(r.text);
    NewlinesBefore(tab, d.text, pos);
    InsertionMoves(d.text, At(tab, d.text, pos), s, m);
    MovedOnce(m, Lines(d.text), Lines(r.text));
  }

  /** Overwriting replaces a character within its line. */
  lemma OverwriteMoved(tab: TabSize, d: Snapshot, r: Snapshot, e: seq<byte>)
    requires CleanText(d.text) && NEWLINE !in e
    requires var o := At(tab, d.text, Sanitize(tab, d.text, d.state.cursorPosition));
             Overwrites(true, d.text, o) && o + UTF8CharLength(d.text[o]) <= |d.text|
             && r.text == Insert(Remove(d.text, o, o + UTF8CharLength(d.text[o])), o, e)
    ensures AllAsk(TypeMoves(tab, d, r, 0))
    ensures AllMoved(TypeMoves(tab, d, r, 0), Lines(d.text), Lines(r.text))
  {
    hide Lines, Flat, Framed, Moved, UTF8CharLength, CountNewlines, Sanitize;
    var pos := Sanitize(tab, d.text, d.state.cursorPosition);
    var o := At(tab, d.text, pos);
    var n := o + UTF8CharLength(d.text[o]);
    var w := Remove(d.text, o, n);
    var m := TypeMoves(tab, d, r, 0)[0];
    var cut := Joined(m.at, 0, m.from, m.end);
    NextFits(tab, d.text, pos);
    CountNone(e);
    CountInserted(w, o, e);
    CountIsLines(w);
    CountIsLines(r.text);
    NewlinesBefore(tab, d.text, pos);
    assert w[..o] == d.text[..o];
    RemovalMoves(d.text, o, n, cut);
    InsertionMoves(w, o, e, m);
    SameLine(cut, m, Lines(d.text), Lines(w), Lines(r.text));
    MovedOnce(m, Lines(d.text), Lines(r.text));
  }

  lemma SameLine(cut: Move, put: Move, d: Document, e: Document, f: Document)
    requires cut.Joined? && put.Broken? && cut.at == put.at && cut.n == put.n == 0
    requires Moved(cut, d, e) && Moved(put, e, f)
    ensures Moved(put, d, f)
  {
    forall l | 0 <= l < |f| && !Rewrites(put, l)
      ensures Origin(put, l) == l == Origin(cut, l) && f[l] == d[l]
    {
      assert f[l] == e[l];
    }
  }

  lemma IndentMoved(tab: TabSize, k: Snapshot, shift: bool)
    requires CleanSnapshot(k) && Indenting.SpansLines(k)
    ensures Moved(Changed(k.state.selectionStart.line, Indenting.LastSelectedLine(k.state)), Lines(k.text),
                  Lines(Indenting.IndentSelection(tab, k, shift).text))
  {
    hide Lines, Flat, Framed, Indenting.IndentLine, Moved;
    var d := Lines(k.text);
    var lo, hi := k.state.selectionStart.line, Indenting.LastSelectedLine(k.state);
    var e := Indenting.IndentLines(tab, shift, d, lo, hi);
    LinesClean(k.text);
    Indenting.IndentLinesClean(tab, shift, d, lo, hi);
    LinesFlat(e);
    ChangedMoved(d, e, lo, hi);
  }

  lemma PrintableMoved(tab: TabSize, k: Snapshot, c: wchar, overwrite: bool)
    requires CleanSnapshot(k) && Placed(k) && Typed(c) && c != NEWLINE && ImTextCharToUtf8(c) != []
    ensures var d, r := DeleteSelection(tab, k), EnterPrintable(tab, k, c, overwrite);
            AllAsk(TypeMoves(tab, d, r, 0)) && AllMoved(TypeMoves(tab, d, r, 0), Lines(d.text), Lines(r.text))
  {
    hide Lines, Flat, Framed, SelectionRecord, DeleteSelection, ImTextCharToUtf8, TypeMoves;
    SelectionLines(tab, k);
    var d, r, e := DeleteSelection(tab, k), EnterPrintable(tab, k, c, overwrite), ImTextCharToUtf8(c);
    var o := At(tab, d.text, Sanitize(tab, d.text, d.state.cursorPosition));
    EncodedInLine(c);
    CountNone(e);
    if Overwrites(overwrite, d.text, o) {
      NextBoundary(d.text, o);
      OverwriteMoved(tab, d, r, e);
    } else {
      TypeMoved(tab, d, r, e);
    }
  }

  lemma NewlineMoved(tab: TabSize, k: Snapshot, autoIndent: bool)
    requires CleanSnapshot(k) && Placed(k)
    ensures var d, r := DeleteSelection(tab, k), EnterNewline(tab, k, autoIndent);
            AllAsk(TypeMoves(tab, d, r, 1)) && AllMoved(TypeMoves(tab, d, r, 1), Lines(d.text), Lines(r.text))
  {
    hide Lines, Flat, Framed, SelectionRecord, DeleteSelection, TypeMoves;
    SelectionLines(tab, k);
    var d, r := DeleteSelection(tab, k), EnterNewline(tab, k, autoIndent);
    var pos := Sanitize(tab, d.text, d.state.cursorPosition);
    var indent := Indentation(autoIndent, d.text, pos);
    IndentationClean(autoIndent, d.text, pos);
    CountAppend([NEWLINE], indent);
    CountOne(NEWLINE);
    CountNone(indent);
    TypeMoved(tab, d, r, [NEWLINE] + indent);
  }

  /** Two groups of steps, one behind the other. */
  lemma BothMoved(ms: seq<Move>, ns: seq<Move>, d: Document, e: Document, f: Document)
    requires AllMoved(ms, d, e) && AllMoved(ns, e, f) && AllCover(ms) && AllCover(ns)
    ensures AllMoved(ms + ns, d, f) && AllCover(ms + ns)
    ensures AllAsk(ms) && AllAsk(ns) ==> AllAsk(ms + ns)
  {
    MovedThen(ms, ns, d, e, f);
  }

  /** The steps of an edit lead from its old lines to its new ones. */
  lemma EditMoved(tab: TabSize, k: Snapshot, op: Operation)
    requires CleanSnapshot(k) && Usable(tab, k, op) && IsEdit(op)
    ensures AllAsk(OpMoves(tab, k, op))
    ensures AllMoved(OpMoves(tab, k, op), Lines(k.text), Lines(Step(tab, k, op).text))
  {
    hide Lines, Flat, Framed, Moved, SelectionMoves, DeleteMoves, BackspaceMoves, PasteMoves, TypeMoves,
         DeleteSelection, SelectionRecord, ImTextCharToUtf8, Covers;
    if Placed(k) {
      SelectionMoved(tab, k);
      SelectionLines(tab, k);
      CutKeepsText(tab, k);
    }
    var d := Lines(k.text);
    match op
    case CutOp =>
    case DeleteOp =>
      if !HasSelection(k.state) {
        DeleteOpMoved(tab, k);
      }
    case BackspaceOp =>
      if !HasSelection(k.state) {
        BackspaceOpMoved(tab, k);
      }
    case PasteOp(clip) =>
      if clip != [] {
        var e := DeleteSelection(tab, k);
        PasteMoved(tab, e, clip);
        BothMoved(SelectionMoves(tab, k), PasteMoves(tab, e, clip), d, Lines(e.text), Lines(Step(tab, k, op).text));
      }
    case EnterOp(c, shift, overwrite, autoIndent) =>
      EnterMoved(tab, k, op, c, shift, overwrite, autoIndent);
    case _ =>
  }

  lemma CutKeepsText(tab: TabSize, k: Snapshot)
    requires Placed(k)
    ensures Cut(tab, k).text == DeleteSelection(tab, k).text
  {
  }

  lemma DeleteOpMoved(tab: TabSize, k: Snapshot)
    requires CleanSnapshot(k) && Usable(tab, k, DeleteOp) && !HasSelection(k.state)
    ensures AllAsk(OpMoves(tab, k, DeleteOp))
    ensures AllMoved(OpMoves(tab, k, DeleteOp), Lines(k.text), Lines(Delete(tab, k).text))
  {
    hide Lines, Flat, Framed, Moved, Covers, ReadsPastEnd;
    var pos := Sanitize(tab, k.text, k.state.cursorPosition);
    if At(tab, k.text, pos) < |k.text| {
      DeleteMoved(tab, k.text, pos);
    }
  }

  lemma BackspaceOpMoved(tab: TabSize, k: Snapshot)
    requires CleanSnapshot(k) && Usable(tab, k, BackspaceOp) && !HasSelection(k.state)
    ensures AllAsk(OpMoves(tab, k, BackspaceOp))
    ensures AllMoved(OpMoves(tab, k, BackspaceOp), Lines(k.text), Lines(Backspace(tab, k).text))
  {
    hide Lines, Flat, Framed, Moved, Covers;
    var pos := Sanitize(tab, k.text, k.state.cursorPosition);
    if At(tab, k.text, pos) > 0 {
      BackspaceMoved(tab, k.text, pos);
    }
  }

  lemma EnterMoved(tab: TabSize, k: Snapshot, op: Operation, c: wchar, shift: bool, overwrite: bool, autoIndent: bool)
    requires CleanSnapshot(k) && Usable(tab, k, op) && op == EnterOp(c, shift, overwrite, autoIndent)
    ensures AllAsk(OpMoves(tab, k, op))
    ensures AllMoved(OpMoves(tab, k, op), Lines(k.text), Lines(Step(tab, k, op).text))
  {
    hide Lines, Flat, Framed, Moved, SelectionMoves, TypeMoves, DeleteSelection, SelectionRecord, ImTextCharToUtf8;
    var d, r := DeleteSelection(tab, k), Step(tab, k, op);
    SelectionMoved(tab, k);
    if IndentsLines(k, c) {
      IndentMoved(tab, k, shift);
      MovedOnce(Changed(k.state.selectionStart.line, Indenting.LastSelectedLine(k.state)), Lines(k.text),
                Lines(r.text));
    } else if c == NEWLINE {
      NewlineMoved(tab, k, autoIndent);
      BothMoved(SelectionMoves(tab, k), TypeMoves(tab, d, r, 1), Lines(k.text), Lines(d.text), Lines(r.text));
    } else if ImTextCharToUtf8(c) != [] {
      PrintableMoved(tab, k, c, overwrite);
      BothMoved(SelectionMoves(tab, k), TypeMoves(tab, d, r, 0), Lines(k.text), Lines(d.text), Lines(r.text));
    }
  }

  // ---------- Runs ----------

  lemma {:induction false} UndoCovers(tab: TabSize, k: Snapshot, n: nat)
    requires Tracked(k)
    ensures k.undoIndex <= |k.undoBuffer| && AllCover(UndoMoves(|Lines(k.text)|, k.undoBuffer, k.undoIndex, n))
    decreases n
  {
    hide Lines, Flat, Framed, CanSwap, Swap, SwapMoves;
    if n > 0 && k.undoIndex > 0 {
      var M :| Track(k, M);
      var i := k.undoIndex - 1;
      var u := k.undoBuffer[i];
      assert FitsRecord(k.undoBuffer[i], M[i], M[i + 1]);
      SwapApplies(tab, k.text, u.added, u.addedStart, u.addedEnd, u.removed, u.removedStart);
      SwapCovers(|Lines(k.text)|, u.added, u.addedStart, u.addedEnd, u.removed, u.removedStart, u.removedEnd, 2);
      var r := k.(text := UndoText(tab, k.text, u), state := u.before, undoIndex := i);
      StepTracked(k, r, M);
      UndoCovers(tab, r, n - 1);
    }
  }

  lemma {:induction false} RedoCovers(tab: TabSize, k: Snapshot, n: nat)
    requires Tracked(k)
    ensures k.undoIndex <= |k.undoBuffer| && AllCover(RedoMoves(|Lines(k.text)|, k.undoBuffer, k.undoIndex, n))
    decreases n
  {
    hide Lines, Flat, Framed, CanSwap, Swap, SwapMoves;
    if n > 0 && k.undoIndex < |k.undoBuffer| {
      var M :| Track(k, M);
      var i := k.undoIndex;
      var u := k.undoBuffer[i];
      assert FitsRecord(k.undoBuffer[i], M[i], M[i + 1]);
      SwapApplies(tab, k.text, u.removed, u.removedStart, u.removedEnd, u.added, u.addedStart);
      SwapCovers(|Lines(k.text)|, u.removed, u.removedStart, u.removedEnd, u.added, u.addedStart, u.addedEnd, 1);
      var r := k.(text := RedoText(tab, k.text, u), state := u.after, undoIndex := i + 1);
      StepTracked(k, r, M);
      RedoCovers(tab, r, n - 1);
    }
  }

  /** The steps of any permitted operation start their requests at their place or above it, and lead from
      the old lines to the new ones. */
  lemma OpMoved(tab: TabSize, k: Snapshot, op: Operation)
    requires Tracked(k) && Permitted(tab, k, op)
    ensures Usable(tab, k, op) && Tracked(Step(tab, k, op)) && CleanText(k.text) && k.undoIndex <= |k.undoBuffer|
    ensures AllCover(OpMoves(tab, k, op))
    ensures AllMoved(OpMoves(tab, k, op), Lines(k.text), Lines(Step(tab, k, op).text))
  {
    hide Lines, Flat, Framed, Moved, AllCover, Permitted, Tracked, Undo, Redo;
    StepNeverStuck(tab, k, op);
    TrackedPlaced(k);
    match op
    case UndoOp(n) =>
      UndoCovers(tab, k, n);
      UndoMoved(tab, k, n);
    case RedoOp(n) =>
      RedoCovers(tab, k, n);
      RedoMoved(tab, k, n);
    case MoveOp(_) =>
      assert AllCover([]) by { NoneCovers(); }
    case _ =>
      EditMoved(tab, k, op);
  }

  lemma NoneCovers()
    ensures AllCover([])
  {
  }

  /** All steps of a run. */
  ghost function RunMoves(tab: TabSize, k: Snapshot, ops: seq<Operation>): seq<Move>
    requires Tracked(k) && PermittedRun(tab, k, ops)
    decreases |ops|
  {
    if ops == [] then []
    else
      OpMoved(tab, k, ops[0]);
      OpMoves(tab, k, ops[0]) + RunMoves(tab, Step(tab, k, ops[0]), ops[1..])
  }

  /** Over any permitted run of edits, Undo, Redo and cursor moves the steps lead from the first lines to
      the last ones. */
  lemma {:induction false} RunMoved(tab: TabSize, k: Snapshot, ops: seq<Operation>)
    requires Tracked(k) && PermittedRun(tab, k, ops)
    ensures UsableRun(tab, k, ops)
    ensures AllCover(RunMoves(tab, k, ops))
    ensures AllMoved(RunMoves(tab, k, ops), Lines(k.text), Lines(Run(tab, k, ops).text))
    decreases |ops|
  {
    hide Lines, Flat, Framed, Moved, Permitted, Tracked, Usable, Step, OpMoves, Covers;
    if ops != [] {
      OpMoved(tab, k, ops[0]);
      var r := Step(tab, k, ops[0]);
      RunMoved(tab, r, ops[1..]);
      BothMoved(OpMoves(tab, k, ops[0]), RunMoves(tab, r, ops[1..]), Lines(k.text), Lines(r.text),
                Lines(Run(tab, k, ops).text));
    }
  }

  /** A line of the first text that lies not above the waiting lines, and survives the run, waits after it
      if and only if its new number is below the end of the range or of some request of the run. */
  lemma RunWaits(tab: TabSize, k: Snapshot, ops: seq<Operation>, r: Range, l: nat)
    requires Tracked(k) && PermittedRun(tab, k, ops)
    requires r.lo <= l && Survives(RunMoves(tab, k, ops), l)
    ensures var ms := RunMoves(tab, k, ops);
            Pending(AllWidened(r, ms), Images(ms, l)) <==> Images(ms, l) < Highest(r.hi, ms)
  {
    hide Tracked, PermittedRun, RunMoves, AllMoved;
    RunMoved(tab, k, ops);
    ImageWaits(r, RunMoves(tab, k, ops), l);
  }

  /** And so does a line that some step of the run rewrites, unless it only indents it. */
  lemma RewrittenInRun(tab: TabSize, k: Snapshot, ops: seq<Operation>, r: Range, j: nat, l: int)
    requires Tracked(k) && PermittedRun(tab, k, ops)
    requires var ms := RunMoves(tab, k, ops);
             j < |ms| && !ms[j].Changed? && Rewrites(ms[j], l) && Survives(ms[j + 1..], l)
    ensures var ms := RunMoves(tab, k, ops);
            var y := Images(ms[j + 1..], l);
            Pending(AllWidened(r, ms), y) <==> y < Highest(r.hi, ms)
  {
    hide Tracked, PermittedRun, RunMoves, AllMoved;
    RunMoved(tab, k, ops);
    RewrittenWaits(r, RunMoves(tab, k, ops), j, l);
  }

  /** A line that some step of Undo(n) rewrites: whether it waits in the end depends on where the later
      steps move it. */
  lemma RewrittenByUndo(tab: TabSize, k: Snapshot, n: nat, r: Range, j: nat, l: int)
    requires Tracked(k)
    requires var ms := UndoMoves(|Lines(k.text)|, k.undoBuffer, k.undoIndex, n);
             j < |ms| && !ms[j].Changed? && Rewrites(ms[j], l) && Survives(ms[j + 1..], l)
    ensures var ms := UndoMoves(|Lines(k.text)|, k.undoBuffer, k.undoIndex, n);
            var y := Images(ms[j + 1..], l);
            Pending(AllWidened(r, ms), y) <==> y < Highest(r.hi, ms)
  {
    hide Tracked, UndoMoves;
    UndoCovers(tab, k, n);
    RewrittenWaits(r, UndoMoves(|Lines(k.text)|, k.undoBuffer, k.undoIndex, n), j, l);
  }

  // ---------- One operation ----------

  /** An edit leaves every line waiting that it rewrites, wherever that line ends up within the edit;
      except for indenting, after which a line waits if and only if it did before. */
  lemma EditAsks(tab: TabSize, k: Snapshot, op: Operation, r: Range, j: nat, l: int)
    requires CleanSnapshot(k) && Usable(tab, k, op) && IsEdit(op)
    requires var ms := OpMoves(tab, k, op);
             j < |ms| && Rewrites(ms[j], l) && Survives(ms[j + 1..], l)
    ensures var ms := OpMoves(tab, k, op);
            var waits := Pending(AllWidened(r, ms), Images(ms[j + 1..], l));
            if ms[j].Changed? then waits == Pending(r, l) else waits
  {
    hide AllMoved, OpMoves, Usable;
    EditMoved(tab, k, op);
    EditShape(tab, k, op);
    var ms := OpMoves(tab, k, op);
    if ms[j].Changed? {
      assert ms == [ms[0]] && ms[1..] == [];
    } else {
      RewrittenWaits(r, ms, j, l);
      if j == 0 && |ms| == 2 {
        assert ms[1..] == [ms[1]] && [ms[1]][1..] == [];
      } else {
        assert ms[j + 1..] == [];
      }
      assert ms[0] in ms;
      HighestAt(r.hi, ms, j);
    }
  }

  /** And it asks for little more: where text goes for the one line that is left there; where text comes for
      the line above, or for pasting from above the start of the selection last made, and for one line below
      at most. */
  lemma EditAsksOnly(tab: TabSize, k: Snapshot, op: Operation, j: nat)
    requires CleanSnapshot(k) && Usable(tab, k, op) && IsEdit(op) && j < |OpMoves(tab, k, op)|
    ensures match OpMoves(tab, k, op)[j]
            case Joined(at, _, from, end) => from == at && end == at + 1
            case Broken(at, n, from, end) =>
              at + n + 1 <= end <= at + MaxOf(n, 1) + 1 && if op.PasteOp? then from < at else from == at - 1
            case Changed(_, _) => true
  {
    hide AllMoved, OpMoves, Usable;
    EditMoved(tab, k, op);
    TypingAsksAbove(tab, k, op, j);
    assert Asks(OpMoves(tab, k, op)[j]);
  }

  lemma TypingAsksAbove(tab: TabSize, k: Snapshot, op: Operation, j: nat)
    requires CleanSnapshot(k) && Usable(tab, k, op) && IsEdit(op) && j < |OpMoves(tab, k, op)|
    ensures var m := OpMoves(tab, k, op)[j];
            m.Broken? && !op.PasteOp? ==> m.from == m.at - 1
  {
    hide Lines, Flat, Framed, Indenting.LastSelectedLine, Sanitize, Step, DeleteSelection, RequestEnd;
  }

  /** An edit is one step, or the selection goes first and something is put in its place. */
  lemma EditShape(tab: TabSize, k: Snapshot, op: Operation)
    requires CleanSnapshot(k) && Usable(tab, k, op) && IsEdit(op)
    ensures var ms := OpMoves(tab, k, op);
            && |ms| <= 2
            && (|ms| == 2 ==> ms[0].Joined? && ms[1].Broken? && ms[0].at <= ms[1].at)
  {
    hide Lines, Flat, Framed, Indenting.LastSelectedLine;
    if Placed(k) && HasSelection(k.state) {
      CursorAtSelection(tab, k);
    }
  }

  /** With the selection gone, the cursor is in the line where it started. */
  lemma CursorAtSelection(tab: TabSize, k: Snapshot)
    requires Placed(k) && HasSelection(k.state)
    ensures var d := DeleteSelection(tab, k);
            && d.state.selectionStart.line == k.state.selectionStart.line
            && Sanitize(tab, d.text, d.state.cursorPosition).line == k.state.selectionStart.line
  {
    hide Lines, Flat, Framed;
    EditSteps.SelectionDeleted(tab, k);
    DeletedLines(tab, k.text, k.state.selectionStart, k.state.selectionEnd);
  }

  // ---------- One record ----------

  /** A line rewritten by one direction of a record, at its number `y` after both halves, waits if and only
      if it lies below the end of the range before or below the end that one of the halves asks for. */
  lemma SwapAsks(r: Range, n: int, cut: seq<byte>, a: Coordinates, b: Coordinates,
                 put: seq<byte>, c: Coordinates, d: Coordinates, extra: nat, j: nat, l: int)
    requires Located(n, cut, a, b, put, c, d) && 1 <= extra
    requires var ms := SwapMoves(n, cut, a, b, put, c, d, extra);
             j < |ms| && Rewrites(ms[j], l) && Survives(ms[j + 1..], l)
    ensures var ms, m := SwapMoves(n, cut, a, b, put, c, d, extra), n - Cuts(cut, a, b);
            var y := Images(ms[j + 1..], l);
            Pending(AllWidened(r, ms), y) <==>
            || y < r.hi
            || (cut != [] && y < Min(m, b.line + extra - 1))
            || (put != [] && y < Min(m + CountNewlines(put), d.line + extra - 1))
  {
    hide SwapMoves, Highest, AllWidened, Images, Survives, Rewrites, Pending;
    SwapCovers(n, cut, a, b, put, c, d, extra);
    var ms := SwapMoves(n, cut, a, b, put, c, d, extra);
    SwapHighest(r.hi, n, cut, a, b, put, c, d, extra);
    HalvesStay(n, cut, a, b, put, c, d, extra, j);
    RewrittenWaits(r, ms, j, l);
  }

  /** Nothing above the line over the place of a half is asked for. */
  lemma SwapAsksBelow(r: Range, n: int, cut: seq<byte>, a: Coordinates, b: Coordinates,
                      put: seq<byte>, c: Coordinates, d: Coordinates, extra: nat, y: int)
    requires 0 <= y && Pending(AllWidened(r, SwapMoves(n, cut, a, b, put, c, d, extra)), y)
    ensures r.lo <= y || (cut != [] && a.line - 1 <= y) || (put != [] && c.line - 1 <= y)
  {
    hide AllWidened, Pending, RequestEnd;
    RangeStart(r, SwapMoves(n, cut, a, b, put, c, d, extra), y);
  }

  lemma HalvesStay(n: int, cut: seq<byte>, a: Coordinates, b: Coordinates,
                   put: seq<byte>, c: Coordinates, d: Coordinates, extra: nat, j: nat)
    requires j < |SwapMoves(n, cut, a, b, put, c, d, extra)|
    ensures !SwapMoves(n, cut, a, b, put, c, d, extra)[j].Changed?
  {
  }

  lemma SwapHighest(hi: int, n: int, cut: seq<byte>, a: Coordinates, b: Coordinates,
                    put: seq<byte>, c: Coordinates, d: Coordinates, extra: nat)
    requires Located(n, cut, a, b, put, c, d)
    ensures var m := n - Cuts(cut, a, b);
            var h := if cut == [] then hi else MaxOf(hi, Min(m, b.line + extra - 1));
            Highest(hi, SwapMoves(n, cut, a, b, put, c, d, extra)) ==
            if put == [] then h else MaxOf(h, Min(m + CountNewlines(put), d.line + extra - 1))
  {
    var m := n - Cuts(cut, a, b);
    var ms, ns := CutMoves(m, cut, a, b, extra), PutMoves(m + CountNewlines(put), put, c, d, extra);
    HighestThen(hi, ms, ns);
    assert cut != [] ==> ms[1..] == [];
    assert put != [] ==> ns[1..] == [];
  }

  /** The recorded end of an inserted text lies on its last line. */
  predicate EndsOnLastLine(s: seq<byte>, start: Coordinates, end: Coordinates) {
    s != [] ==> end.line == start.line + CountNewlines(s)
  }

  predicate CanUndoIn(n: int, u: UndoRecord) {
    Located(n, u.added, u.addedStart, u.addedEnd, u.removed, u.removedStart, u.removedEnd)
  }

  predicate CanRedoIn(n: int, u: UndoRecord) {
    Located(n, u.removed, u.removedStart, u.removedEnd, u.added, u.addedStart, u.addedEnd)
  }

  /** Undoing one record leaves every line waiting that it rewrites, if the recorded end of the removed text
      is on its last line, and the text that goes does not start below the one that comes. */
  lemma UndoRecolours(r: Range, n: int, u: UndoRecord, j: nat, l: int)
    requires CanUndoIn(n, u) && EndsOnLastLine(u.removed, u.removedStart, u.removedEnd)
    requires u.added != [] && u.removed != [] ==> u.addedStart.line <= u.removedStart.line
    requires var ms := UndoneMoves(n, u);
             j < |ms| && Rewrites(ms[j], l) && Survives(ms[j + 1..], l)
    ensures var ms := UndoneMoves(n, u);
            Pending(AllWidened(r, ms), Images(ms[j + 1..], l))
  {
    SwapAsks(r, n, u.added, u.addedStart, u.addedEnd, u.removed, u.removedStart, u.removedEnd, 2, j, l);
    SecondHalf(n, u.added, u.addedStart, u.addedEnd, u.removed, u.removedStart, u.removedEnd, 2, j, l);
  }

  /** Exactly: a line that undoing one record rewrites waits if and only if the range reached beyond it, or it
      lies above or on the line of the recorded end of the text that goes or of the text that comes. */
  lemma UndoAsks(r: Range, n: int, u: UndoRecord, j: nat, l: int)
    requires CanUndoIn(n, u)
    requires var ms := UndoneMoves(n, u);
             j < |ms| && Rewrites(ms[j], l) && Survives(ms[j + 1..], l)
    ensures var ms, m := UndoneMoves(n, u), n - Cuts(u.added, u.addedStart, u.addedEnd);
            var y := Images(ms[j + 1..], l);
            Pending(AllWidened(r, ms), y) <==>
            || y < r.hi
            || (u.added != [] && y <= u.addedEnd.line && y < m)
            || (u.removed != [] && y <= u.removedEnd.line && y < m + CountNewlines(u.removed))
  {
    SwapAsks(r, n, u.added, u.addedStart, u.addedEnd, u.removed, u.removedStart, u.removedEnd, 2, j, l);
  }

  /** Redo asks for one line less; a rewritten line waits if and only if the range reached beyond it, or
      it lies above the recorded end of the text that comes or of the text that goes. */
  lemma RedoRecolours(r: Range, n: int, u: UndoRecord, j: nat, l: int)
    requires CanRedoIn(n, u) && EndsOnLastLine(u.added, u.addedStart, u.addedEnd)
    requires var ms := RedoneMoves(n, u);
             j < |ms| && Rewrites(ms[j], l) && Survives(ms[j + 1..], l)
    ensures var ms := RedoneMoves(n, u);
            var y := Images(ms[j + 1..], l);
            Pending(AllWidened(r, ms), y) <==>
            || y < r.hi
            || (u.removed != [] && y < Min(n - Cuts(u.removed, u.removedStart, u.removedEnd), u.removedEnd.line))
            || (u.added != [] && y < u.addedEnd.line)
  {
    SwapAsks(r, n, u.removed, u.removedStart, u.removedEnd, u.added, u.addedStart, u.addedEnd, 1, j, l);
  }

  /** When Redo only deletes, the line that is left waits if and only if a line break went, or the range
      reached beyond it. */
  lemma RedoDeletion(r: Range, n: int, u: UndoRecord)
    requires CanRedoIn(n, u) && u.added == [] && u.removed != []
    ensures Pending(AllWidened(r, RedoneMoves(n, u)), u.removedStart.line) <==>
            u.removedStart.line < u.removedEnd.line || u.removedStart.line < r.hi
  {
    assert RedoneMoves(n, u)[1..] == [];
    RedoRecolours(r, n, u, 0, u.removedStart.line);
  }

  /** When it only inserts, the last line of the insertion waits if and only if the range reached beyond it. */
  lemma RedoInsertion(r: Range, n: int, u: UndoRecord)
    requires CanRedoIn(n, u) && EndsOnLastLine(u.added, u.addedStart, u.addedEnd)
    requires u.removed == [] && u.added != []
    ensures forall l :: u.addedStart.line <= l < u.addedEnd.line ==> Pending(AllWidened(r, RedoneMoves(n, u)), l)
    ensures Pending(AllWidened(r, RedoneMoves(n, u)), u.addedEnd.line) <==> u.addedEnd.line < r.hi
  {
    assert RedoneMoves(n, u)[1..] == [];
    forall l | u.addedStart.line <= l <= u.addedEnd.line
      ensures Pending(AllWidened(r, RedoneMoves(n, u)), l) <==> l < r.hi || l < u.addedEnd.line
    {
      RedoRecolours(r, n, u, 0, l);
    }
  }

  /** What the inserting half does to a line that the deleting half left. */
  lemma SecondHalf(n: int, cut: seq<byte>, a: Coordinates, b: Coordinates,
                   put: seq<byte>, c: Coordinates, d: Coordinates, extra: nat, j: nat, l: int)
    requires var ms := SwapMoves(n, cut, a, b, put, c, d, extra); j < |ms|
    ensures var ms := SwapMoves(n, cut, a, b, put, c, d, extra);
            Images(ms[j + 1..], l) == if j == 0 && |ms| == 2 then Image(ms[1], l) else l
  {
    var ms := SwapMoves(n, cut, a, b, put, c, d, extra);
    if j == 0 && |ms| == 2 {
      assert ms[1..] == [ms[1]] && [ms[1]][1..] == [];
    } else {
      assert ms[j + 1..] == [];
    }
  }
}
