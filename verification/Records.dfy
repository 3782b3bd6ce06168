/** When undo records describe their edits fully: undoing and redoing them are inverse. */
module Records {
  import opened Utf8
  import opened Columns
  import opened Documents
  import opened Positions
  import opened Editing

  /** Undoing `u` leads from `after` to `before`, and redoing it leads back. */
  ghost predicate Restores(tab: TabSize, before: seq<byte>, after: seq<byte>, u: UndoRecord) {
    && CanUndoRecord(tab, after, u) && UndoText(tab, after, u) == before
    && CanRedoRecord(tab, before, u) && RedoText(tab, before, u) == after
  }

  /** The coordinate scans resolve `c` to `o`, whether or not `c` is aligned. */
  ghost predicate RoundsTo(tab: TabSize, t: seq<byte>, c: Coordinates, o: nat) {
    CleanText(t) && InRange(t, c) && At(tab, t, c) == o
  }

  /** The step from `k` to `r` was an edit with a record that restores both texts, or left text
      and history alone. */
  ghost predicate ExactStep(tab: TabSize, k: Snapshot, r: Snapshot) {
    && k.undoIndex <= |k.undoBuffer|
    && ((r.text == k.text && r.undoBuffer == k.undoBuffer && r.undoIndex == k.undoIndex)
        || (exists u :: Recorded(k, r, u) && Restores(tab, k.text, r.text, u)))
  }

  ghost predicate Recorded(k: Snapshot, r: Snapshot, u: UndoRecord) {
    && k.undoIndex <= |k.undoBuffer|
    && r.undoBuffer == k.undoBuffer[..k.undoIndex] + [u]
    && r.undoIndex == k.undoIndex + 1
  }

  lemma RecordedOnce(tab: TabSize, k: Snapshot, r: Snapshot, u: UndoRecord)
    requires Recorded(k, r, u)
    ensures ExactStep(tab, k, r) <==> Restores(tab, k.text, r.text, u)
  {
    if ExactStep(tab, k, r) {
      var v :| Recorded(k, r, v) && Restores(tab, k.text, r.text, v);
      assert r.undoBuffer[k.undoIndex] == u == v;
    }
  }

  // ---------- Replacing the middle of a text ----------

  lemma EndDenotes(tab: TabSize, p: seq<byte>, q: seq<byte>)
    requires CleanText(p) && CleanText(q)
    ensures CleanText(p + q) && Denotes(tab, p + q, EndOf(tab, p), |p|)
    ensures RoundsTo(tab, p + q, EndOf(tab, p), |p|)
  {
    CleanConcat(p, q);
    assert (p + q)[..|p|] == p;
    DenotesAt(tab, p + q, EndOf(tab, p), |p|);
  }

  /** Sequence identities, kept apart from the facts about framing. */
  lemma Middle(p: seq<byte>, r: seq<byte>, s: seq<byte>)
    ensures p + r + s == p + (r + s)
    ensures (p + r + s)[..|p|] == p
    ensures (p + r + s)[|p| + |r|..] == s
    ensures p + [] + s == p + s
  {
  }

  lemma ThreePieces(t: seq<byte>, a: nat, b: nat)
    requires a <= b <= |t|
    ensures t[..a] + t[a..b] + t[b..] == t
    ensures t[..a] + t[a..b] == t[..b]
    ensures t[..a] + [] + t[b..] == Remove(t, a, b)
  {
  }

  lemma DeleteMiddle(tab: TabSize, p: seq<byte>, r: seq<byte>, s: seq<byte>, b: Coordinates)
    requires CleanText(p) && CleanText(r) && CleanText(s)
    requires EndOf(tab, p).AtMost(b) && RoundsTo(tab, p + r + s, b, |p| + |r|)
    ensures CanDelete(p + r + s, EndOf(tab, p), b)
    ensures DeleteRange(tab, p + r + s, EndOf(tab, p), b) == p + s
  {
    CleanConcat(r, s);
    Middle(p, r, s);
    EndDenotes(tab, p, r + s);
  }

  lemma InsertMiddle(tab: TabSize, p: seq<byte>, s: seq<byte>, put: seq<byte>)
    requires CleanText(p) && CleanText(s) && CString(put)
    ensures CleanText(p + s) && InRange(p + s, EndOf(tab, p))
    ensures InsertTextAt(tab, p + s, EndOf(tab, p), put) == p + StripReturns(put) + s
  {
    EndDenotes(tab, p, s);
    assert (p + s)[..|p|] == p && (p + s)[|p|..] == s;
  }

  /** Half of an undo record at work: the middle `r` is replaced by `put`. */
  lemma SwapReplaces(tab: TabSize, p: seq<byte>, r: seq<byte>, s: seq<byte>,
                     cut: seq<byte>, b: Coordinates, put: seq<byte>, a: Coordinates, c: Coordinates)
    requires CleanText(p) && CleanText(r) && CleanText(s) && CString(put)
    requires if cut == [] then r == []
             else a == EndOf(tab, p) && a.AtMost(b) && RoundsTo(tab, p + r + s, b, |p| + |r|)
    requires put != [] ==> c == EndOf(tab, p)
    ensures CanSwap(tab, p + r + s, cut, a, b, put, c)
    ensures Swap(tab, p + r + s, cut, a, b, put, c) == p + StripReturns(put) + s
  {
    CleanConcat(p, r);
    CleanConcat(p + r, s);
    Middle(p, [], s);
    if cut != [] {
      DeleteMiddle(tab, p, r, s, b);
    }
    if put != [] {
      InsertMiddle(tab, p, s, put);
    }
  }

  /** A record whose two halves name the replaced middle and its replacement restores. */
  lemma RecordRestores(tab: TabSize, p: seq<byte>, r: seq<byte>, s: seq<byte>, m: seq<byte>, u: UndoRecord)
    requires CleanText(p) && CleanText(r) && CleanText(s)
    requires u.removed == r && CString(u.added) && StripReturns(u.added) == m
    requires r != [] ==> u.removedStart == EndOf(tab, p) && u.removedStart.AtMost(u.removedEnd)
                         && RoundsTo(tab, p + r + s, u.removedEnd, |p| + |r|)
    requires u.added != [] ==> u.addedStart == EndOf(tab, p) && u.addedStart.AtMost(u.addedEnd)
                               && RoundsTo(tab, p + m + s, u.addedEnd, |p| + |m|)
    ensures Restores(tab, p + r + s, p + m + s, u)
  {
    StripClean(u.added);
    StripIdentity(r);
    SwapReplaces(tab, p, r, s, u.removed, u.removedEnd, u.added, u.removedStart, u.addedStart);
    SwapReplaces(tab, p, m, s, u.added, u.addedEnd, u.removed, u.addedStart, u.removedStart);
  }

  // ---------- Cut and Delete ----------

  lemma Pieces(t: seq<byte>, a: nat, b: nat)
    requires CleanText(t) && a <= b && Boundary(t, a) && Boundary(t, b)
    ensures CleanText(t[..a]) && CleanText(t[a..b]) && CleanText(t[b..])
    ensures t[..a] + t[a..b] + t[b..] == t
    ensures t[..a] + [] + t[b..] == Remove(t, a, b)
  {
    CleanSlice(t, 0, a);
    CleanSlice(t, a, b);
    CleanSlice(t, b, |t|);
    ThreePieces(t, a, b);
    assert t[0..a] == t[..a] && t[b..|t|] == t[b..];
  }

  /** The selection's coordinates and offsets name the same places. */
  lemma SelectionDenotes(tab: TabSize, k: Snapshot)
    requires Ready(tab, k) && HasSelection(k.state)
    ensures Denotes(tab, k.text, k.state.selectionStart, SelectionFrom(tab, k))
    ensures Denotes(tab, k.text, k.state.selectionEnd, SelectionTo(tab, k))
    ensures SelectionFrom(tab, k) < SelectionTo(tab, k)
  {
    AlignedDenotes(tab, k.text, k.state.selectionStart);
    AlignedDenotes(tab, k.text, k.state.selectionEnd);
    DenotesOrder(tab, k.text, k.state.selectionStart, SelectionFrom(tab, k),
                 k.state.selectionEnd, SelectionTo(tab, k));
  }

  lemma CutRestores(tab: TabSize, k: Snapshot)
    requires Ready(tab, k)
    ensures ExactStep(tab, k, Cut(tab, k))
  {
    if HasSelection(k.state) {
      var a, b := SelectionFrom(tab, k), SelectionTo(tab, k);
      var r := Cut(tab, k);
      var u := r.undoBuffer[k.undoIndex];
      SelectionDenotes(tab, k);
      Pieces(k.text, a, b);
      RecordRestores(tab, k.text[..a], k.text[a..b], k.text[b..], [], u);
      RecordedOnce(tab, k, r, u);
    }
  }

  lemma CursorDenotes(tab: TabSize, k: Snapshot) returns (pos: Coordinates, o: nat)
    requires Ready(tab, k)
    ensures pos == Sanitize(tab, k.text, k.state.cursorPosition)
    ensures InRange(k.text, pos) && o == At(tab, k.text, pos) && Denotes(tab, k.text, pos, o)
  {
    pos := Sanitize(tab, k.text, k.state.cursorPosition);
    o := At(tab, k.text, pos);
    AlignedDenotes(tab, k.text, pos);
  }

  /** Line and index of an aligned offset. */
  lemma PositionOf(tab: TabSize, t: seq<byte>, c: Coordinates, o: nat) returns (d: Document, i: nat)
    requires CleanText(t) && Denotes(tab, t, c, o)
    ensures d == Lines(t) && Flat(d) == t && CleanDocument(d)
    ensures c.line < |d| && i == IndexAt(tab, d[c.line], c.column)
    ensures Boundary(d[c.line], i) && ColumnAt(tab, d[c.line], i) == c.column
    ensures Offset(d, c.line, i) == o
  {
    d := Lines(t);
    LinesClean(t);
    FlatLines(t);
    DenotesAt(tab, t, c, o);
    i := IndexAt(tab, d[c.line], c.column);
    IndexOfMaxColumn(tab, d[c.line], c.column);
  }

  /** The coordinate one column further on rounds up to the next character. */
  lemma NextColumnRounds(tab: TabSize, t: seq<byte>, c: Coordinates, o: nat)
    requires CleanText(t) && Denotes(tab, t, c, o) && o < |t| && t[o] != NEWLINE
    ensures RoundsTo(tab, t, Coordinates(c.line, c.column + 1), o + UTF8CharLength(t[o]))
  {
    var d, i := PositionOf(tab, t, c, o);
    CharAt(d, c.line, i);
    var s := d[c.line];
    OneColumnOn(tab, s, i);
    OffsetInLine(d, c.line, i, i + UTF8CharLength(s[i]));
  }

  lemma OneColumnOn(tab: TabSize, s: seq<byte>, i: nat)
    requires Framed(s) && Boundary(s, i) && i < |s|
    ensures IndexAt(tab, s, ColumnAt(tab, s, i) + 1) == i + UTF8CharLength(s[i]) <= |s|
  {
    NextBoundary(s, i);
    ColumnStep(tab, s, i);
    RoundUp(tab, s, i, i + UTF8CharLength(s[i]));
  }

  lemma RoundUp(tab: TabSize, s: seq<byte>, i: nat, j: nat)
    requires Framed(s) && Boundary(s, i) && Boundary(s, j) && i < j
    requires ColumnAt(tab, s, j) > ColumnAt(tab, s, i)
    requires forall b :: i < b < j ==> !Boundary(s, b)
    ensures IndexAt(tab, s, ColumnAt(tab, s, i) + 1) == j
  {
    var c := ColumnAt(tab, s, i) + 1;
    forall b | 0 <= b < j && Boundary(s, b)
      ensures ColumnAt(tab, s, b) < c
    {
      if b < i {
        ColumnMonotone(tab, s, b, i);
      }
    }
    IndexIsFirstBoundary(tab, s, c, j);
  }
}
