/** Which edits leave an undo record that describes them fully. */
module ExactEdits {
  import opened Utf8
  import opened Columns
  import opened Documents
  import opened Positions
  import opened Editing
  import opened Records

  /** The record restores in both directions; `r` was reached by replacing t[a..b] with `m`. */
  lemma ReplacementRestores(tab: TabSize, k: Snapshot, r: Snapshot, u: UndoRecord,
                            a: nat, b: nat, m: seq<byte>)
    requires CleanText(k.text) && a <= b && Boundary(k.text, a) && Boundary(k.text, b)
    requires Recorded(k, r, u) && r.text == k.text[..a] + m + k.text[b..]
    requires u.removed == k.text[a..b] && CString(u.added) && StripReturns(u.added) == m
    requires a < b ==> Denotes(tab, k.text, u.removedStart, a) && u.removedStart.AtMost(u.removedEnd)
                       && RoundsTo(tab, k.text, u.removedEnd, b)
    requires u.added != [] ==> Denotes(tab, k.text, u.addedStart, a) && u.addedStart.AtMost(u.addedEnd)
                               && RoundsTo(tab, r.text, u.addedEnd, a + |m|)
    ensures Restores(tab, k.text, r.text, u) && ExactStep(tab, k, r)
  {
    Pieces(k.text, a, b);
    RecordRestores(tab, k.text[..a], k.text[a..b], k.text[b..], m, u);
    RecordedOnce(tab, k, r, u);
  }

  /** Delete always leaves a full record, also when it deletes a tab. */
  lemma DeleteRestores(tab: TabSize, k: Snapshot)
    requires Ready(tab, k)
    ensures ExactStep(tab, k, Delete(tab, k))
  {
    if HasSelection(k.state) {
      CutRestores(tab, k);
    } else {
      var pos, o := CursorDenotes(tab, k);
      if o < |k.text| {
        NextBoundary(k.text, o);
        NextCoordinate(tab, k.text, pos, o);
        DeleteCharacter(tab, k, pos, o, o + UTF8CharLength(k.text[o]));
      }
    }
  }

  /** What Delete writes down as the end of the deleted character resolves to its end. */
  lemma NextCoordinate(tab: TabSize, t: seq<byte>, pos: Coordinates, o: nat)
    requires CleanText(t) && Denotes(tab, t, pos, o) && o < |t|
    ensures RoundsTo(tab, t,
                     if t[o] == NEWLINE then Coordinates(pos.line + 1, 0)
                     else Coordinates(pos.line, pos.column + 1),
                     o + UTF8CharLength(t[o]))
  {
    if t[o] == NEWLINE {
      EndDenotesNext(tab, t, o);
      DenotesAt(tab, t, Coordinates(pos.line + 1, 0), o + 1);
    } else {
      NextColumnRounds(tab, t, pos, o);
    }
  }

  lemma DeleteCharacter(tab: TabSize, k: Snapshot, pos: Coordinates, o: nat, n: nat)
    requires Ready(tab, k) && !HasSelection(k.state)
    requires pos == Sanitize(tab, k.text, k.state.cursorPosition)
    requires InRange(k.text, pos) && o == At(tab, k.text, pos) && Denotes(tab, k.text, pos, o)
    requires o < |k.text| && n == o + UTF8CharLength(k.text[o]) && Boundary(k.text, n)
    requires RoundsTo(tab, k.text,
                      if k.text[o] == NEWLINE then Coordinates(pos.line + 1, 0)
                      else Coordinates(pos.line, pos.column + 1), n)
    ensures ExactStep(tab, k, Delete(tab, k))
  {
    var r := Delete(tab, k);
    ThreePieces(k.text, o, n);
    ReplacementRestores(tab, k, r, r.undoBuffer[k.undoIndex], o, n, []);
  }

  /** The coordinate after the character at `o`. */
  lemma EndDenotesNext(tab: TabSize, t: seq<byte>, o: nat)
    requires CleanText(t) && Boundary(t, o) && o < |t|
    ensures var n := o + UTF8CharLength(t[o]);
            && n <= |t| && Denotes(tab, t, EndOf(tab, t[..n]), n)
            && EndOf(tab, t[..n]) ==
               if t[o] == NEWLINE then Coordinates(EndOf(tab, t[..o]).line + 1, 0)
               else Coordinates(EndOf(tab, t[..o]).line, NextColumn(tab, t[o], EndOf(tab, t[..o]).column))
  {
    var n := o + UTF8CharLength(t[o]);
    NextBoundary(t, o);
    Pieces(t, o, n);
    ThreePieces(t, o, n);
    EndAfterSequence(tab, t[..o], t[o..n]);
  }

  // ---------- Backspace ----------

  /** Backspace without a selection over a tab that is drawn more than one column wide. */
  ghost predicate WideTabBefore(tab: TabSize, k: Snapshot)
    requires Ready(tab, k)
  {
    && !HasSelection(k.state)
    && var pos := Sanitize(tab, k.text, k.state.cursorPosition);
       var o := At(tab, k.text, pos);
       && o > 0
       && k.text[o - 1] == TAB
       && pos.column != EndOf(tab, k.text[..o - 1]).column + 1
  }

  /** Backspace leaves a full record exactly when it does not delete a wide tab. */
  lemma BackspaceExact(tab: TabSize, k: Snapshot)
    requires Ready(tab, k)
    ensures ExactStep(tab, k, Backspace(tab, k)) <==> !WideTabBefore(tab, k)
  {
    if HasSelection(k.state) {
      CutRestores(tab, k);
    } else {
      var pos, o := CursorDenotes(tab, k);
      if o > 0 {
        PreviousOfNext(k.text, o);
        BackspaceCharacter(tab, k, pos, o, PreviousBoundary(k.text, o));
      }
    }
  }

  lemma BackspaceCharacter(tab: TabSize, k: Snapshot, pos: Coordinates, o: nat, b: nat)
    requires Ready(tab, k) && !HasSelection(k.state)
    requires pos == Sanitize(tab, k.text, k.state.cursorPosition)
    requires InRange(k.text, pos) && o == At(tab, k.text, pos) && Denotes(tab, k.text, pos, o) && o > 0
    requires b == PreviousBoundary(k.text, o) && Boundary(k.text, b) && b + UTF8CharLength(k.text[b]) == o
    ensures ExactStep(tab, k, Backspace(tab, k)) <==> !WideTabBefore(tab, k)
  {
    var start := EndOf(tab, k.text[..b]);
    EndDenotesNext(tab, k.text, b);
    TabIsOneByte(k.text, b);
    if k.text[b] == TAB && pos.column != start.column + 1 {
      DenotesAt(tab, k.text, start, b);
      WideTabSkipped(tab, k.text, start, b, Coordinates(pos.line, pos.column - 1));
      BackspaceOverWideTab(tab, k, pos, o, b);
    } else {
      BackspaceNarrow(tab, k, pos, o, b, start);
    }
  }

  lemma TabIsOneByte(t: seq<byte>, b: nat)
    requires Framed(t) && Boundary(t, b) && b < |t|
    ensures b + UTF8CharLength(t[b]) <= |t|
    ensures t[b] == TAB <==> t[b + UTF8CharLength(t[b]) - 1] == TAB
  {
    assert CompleteAt(t, b);
  }

  lemma BackspaceNarrow(tab: TabSize, k: Snapshot, pos: Coordinates, o: nat, b: nat, start: Coordinates)
    requires Ready(tab, k) && !HasSelection(k.state)
    requires pos == Sanitize(tab, k.text, k.state.cursorPosition)
    requires InRange(k.text, pos) && o == At(tab, k.text, pos) && 0 < o && b == PreviousBoundary(k.text, o)
    requires Boundary(k.text, b) && Denotes(tab, k.text, start, b) && start.AtMost(pos)
    requires start == if k.text[b] == NEWLINE || pos.column == 0 then EndOf(tab, k.text[..b])
                      else Coordinates(pos.line, pos.column - 1)
    ensures ExactStep(tab, k, Backspace(tab, k))
  {
    var r := Backspace(tab, k);
    ThreePieces(k.text, b, o);
    ReplacementRestores(tab, k, r, r.undoBuffer[k.undoIndex], b, o, []);
  }

  lemma BackspaceOverWideTab(tab: TabSize, k: Snapshot, pos: Coordinates, o: nat, b: nat)
    requires Ready(tab, k) && !HasSelection(k.state)
    requires pos == Sanitize(tab, k.text, k.state.cursorPosition) && pos.column > 0
    requires InRange(k.text, pos) && o == At(tab, k.text, pos) && 0 < o && b == PreviousBoundary(k.text, o)
    requires k.text[b] != NEWLINE
    requires RoundsTo(tab, k.text, Coordinates(pos.line, pos.column - 1), o)
    ensures !ExactStep(tab, k, Backspace(tab, k))
  {
    var r := Backspace(tab, k);
    RecordedOnce(tab, k, r, r.undoBuffer[k.undoIndex]);
  }

  /** A coordinate inside a wide tab resolves to the character after the tab. */
  lemma WideTabSkipped(tab: TabSize, t: seq<byte>, c: Coordinates, b: nat, inside: Coordinates)
    requires CleanText(t) && Denotes(tab, t, c, b) && b < |t| && t[b] == TAB
    requires inside.line == c.line && c.column < inside.column < NextColumn(tab, TAB, c.column)
    ensures RoundsTo(tab, t, inside, b + 1)
  {
    var d, i := PositionOf(tab, t, c, b);
    CharAt(d, c.line, i);
    WideTabSkippedInLine(tab, d[c.line], i, inside.column);
    OffsetInLine(d, c.line, i, i + 1);
  }

  lemma WideTabSkippedInLine(tab: TabSize, s: seq<byte>, i: nat, column: nat)
    requires Framed(s) && Boundary(s, i) && i < |s| && s[i] == TAB
    requires ColumnAt(tab, s, i) < column <= NextColumn(tab, TAB, ColumnAt(tab, s, i))
    ensures IndexAt(tab, s, column) == i + 1
  {
    NextBoundary(s, i);
    ColumnStep(tab, s, i);
    forall b | 0 <= b < i + 1 && Boundary(s, b)
      ensures ColumnAt(tab, s, b) < column
    {
      if b < i {
        ColumnMonotone(tab, s, b, i);
      }
    }
    IndexIsFirstBoundary(tab, s, column, i + 1);
  }

  // ---------- Typing ----------

  /** Where typed text goes once the selection is deleted. */
  lemma InsertionPoint(tab: TabSize, k: Snapshot) returns (pos: Coordinates, a: nat, b: nat)
    requires Ready(tab, k)
    ensures a == SelectionFrom(tab, k) && b == SelectionTo(tab, k) && a <= b <= |k.text|
    ensures Boundary(k.text, a) && Boundary(k.text, b)
    ensures var d := DeleteSelection(tab, k);
            && d.text == k.text[..a] + k.text[b..]
            && CleanText(d.text)
            && pos == Sanitize(tab, d.text, d.state.cursorPosition)
            && InRange(d.text, pos) && At(tab, d.text, pos) == a
            && Denotes(tab, d.text, pos, a)
    ensures Denotes(tab, k.text, pos, a)
    ensures HasSelection(k.state) ==> a < b && k.state.selectionStart == pos
                                      && Denotes(tab, k.text, k.state.selectionEnd, b)
    ensures !HasSelection(k.state) ==> a == b
  {
    var d := DeleteSelection(tab, k);
    a, b := SelectionFrom(tab, k), SelectionTo(tab, k);
    if HasSelection(k.state) {
      SelectionDenotes(tab, k);
      pos := k.state.selectionStart;
      assert d.text[..a] == k.text[..a];
      DenotesAt(tab, d.text, pos, a);
      SanitizeAligned(tab, d.text, pos);
    } else {
      var o;
      pos, o := CursorDenotes(tab, k);
      assert k.text[..a] + k.text[b..] == k.text;
    }
  }

  /** The removed half of the record of an edit that replaces the selection. */
  lemma SelectionRecordRemoves(tab: TabSize, k: Snapshot, pos: Coordinates, a: nat, b: nat)
    requires Ready(tab, k) && a == SelectionFrom(tab, k) && b == SelectionTo(tab, k)
    requires Denotes(tab, k.text, pos, a)
    requires HasSelection(k.state) ==> a < b && k.state.selectionStart == pos
                                       && Denotes(tab, k.text, k.state.selectionEnd, b)
    requires !HasSelection(k.state) ==> a == b
    ensures var u := SelectionRecord(tab, k);
            && u.removed == k.text[a..b]
            && (a < b ==> u.removedStart == pos && u.removedStart.AtMost(u.removedEnd)
                          && RoundsTo(tab, k.text, u.removedEnd, b))
  {
    if a < b {
      DenotesAt(tab, k.text, k.state.selectionEnd, b);
    }
  }

  lemma InsertIntoRemoved(t: seq<byte>, a: nat, b: nat, m: seq<byte>)
    requires a <= b <= |t|
    ensures Insert(t[..a] + t[b..], a, m) == t[..a] + m + t[b..]
    ensures (t[..a] + m + t[b..])[..a + |m|] == t[..a] + m
  {
    assert (t[..a] + t[b..])[..a] == t[..a] && (t[..a] + t[b..])[a..] == t[b..];
  }

  /** The end of text inserted at `a`. */
  lemma EndOfInserted(tab: TabSize, p: seq<byte>, m: seq<byte>, s: seq<byte>)
    requires CleanText(p) && CleanText(m) && CleanText(s)
    ensures Denotes(tab, p + m + s, EndOf(tab, p + m), |p| + |m|)
    ensures RoundsTo(tab, p + m + s, EndOf(tab, p + m), |p| + |m|)
    ensures EndOf(tab, p).AtMost(EndOf(tab, p + m))
  {
    CleanConcat(p, m);
    EndDenotes(tab, p + m, s);
    EndDenotes(tab, p, m);
    assert (p + m)[..|p + m|] == p + m;
    DenotesOrder(tab, p + m, EndOf(tab, p), |p|, EndOf(tab, p + m), |p + m|);
  }

  lemma BlanksClean(s: seq<byte>)
    requires forall k :: 0 <= k < |s| ==> s[k] == SPACE || s[k] == TAB
    ensures CleanText(s) && CleanText([NEWLINE] + s)
  {
    CleanConcat([NEWLINE], s);
  }

  /** The indentation EnterCharacter('\n') copies from the line the new line is split off. */
  ghost function CopiedIndentation(tab: TabSize, k: Snapshot, autoIndent: bool): seq<byte>
    requires Ready(tab, k)
  {
    var d := DeleteSelection(tab, k);
    Indentation(autoIndent, d.text, Sanitize(tab, d.text, d.state.cursorPosition))
  }

  /** Entering a newline can always be undone; it can be redone exactly when no indentation was
      copied, because the record holds the newline alone. */
  lemma EnterNewlineExact(tab: TabSize, k: Snapshot, autoIndent: bool)
    requires Ready(tab, k)
    ensures var r := EnterNewline(tab, k, autoIndent);
            var u := r.undoBuffer[k.undoIndex];
            && Recorded(k, r, u)
            && CanUndoRecord(tab, r.text, u) && UndoText(tab, r.text, u) == k.text
            && (ExactStep(tab, k, r) <==> CopiedIndentation(tab, k, autoIndent) == [])
  {
    var pos, a, b := InsertionPoint(tab, k);
    SelectionRecordRemoves(tab, k, pos, a, b);
    NewlineAt(tab, k, autoIndent, pos, a, b);
  }

  lemma NewlineAt(tab: TabSize, k: Snapshot, autoIndent: bool, pos: Coordinates, a: nat, b: nat)
    requires Ready(tab, k) && a == SelectionFrom(tab, k) && b == SelectionTo(tab, k)
    requires Denotes(tab, k.text, pos, a)
    requires var d := DeleteSelection(tab, k);
             && d.text == k.text[..a] + k.text[b..]
             && pos == Sanitize(tab, d.text, d.state.cursorPosition)
             && InRange(d.text, pos) && At(tab, d.text, pos) == a
    requires var u := SelectionRecord(tab, k);
             && u.removed == k.text[a..b]
             && (a < b ==> u.removedStart == pos && u.removedStart.AtMost(u.removedEnd)
                           && RoundsTo(tab, k.text, u.removedEnd, b))
    ensures var r := EnterNewline(tab, k, autoIndent);
            var u := r.undoBuffer[k.undoIndex];
            && Recorded(k, r, u)
            && CanUndoRecord(tab, r.text, u) && UndoText(tab, r.text, u) == k.text
            && (ExactStep(tab, k, r) <==> CopiedIndentation(tab, k, autoIndent) == [])
  {
    var r := EnterNewline(tab, k, autoIndent);
    var indent := CopiedIndentation(tab, k, autoIndent);
    Pieces(k.text, a, b);
    BlanksClean(indent);
    InsertIntoRemoved(k.text, a, b, [NEWLINE] + indent);
    NewlineHalves(tab, k, r, r.undoBuffer[k.undoIndex], k.text[..a], k.text[a..b], k.text[b..], indent);
  }

  lemma NewlineHalves(tab: TabSize, k: Snapshot, r: Snapshot, u: UndoRecord,
                      p: seq<byte>, x: seq<byte>, s: seq<byte>, indent: seq<byte>)
    requires CleanText(p) && CleanText(x) && CleanText(s) && CleanText([NEWLINE] + indent)
    requires k.text == p + x + s && r.text == p + ([NEWLINE] + indent) + s && Recorded(k, r, u)
    requires u.removed == x && u.added == [NEWLINE]
    requires u.addedStart == EndOf(tab, p) && u.addedEnd == EndOf(tab, p + ([NEWLINE] + indent))
    requires x != [] ==> u.removedStart == EndOf(tab, p) && u.removedStart.AtMost(u.removedEnd)
                         && RoundsTo(tab, k.text, u.removedEnd, |p| + |x|)
    ensures CanUndoRecord(tab, r.text, u) && UndoText(tab, r.text, u) == k.text
    ensures ExactStep(tab, k, r) <==> indent == []
  {
    EndOfInserted(tab, p, [NEWLINE] + indent, s);
    StripIdentity(x);
    StripIdentity([NEWLINE]);
    SwapReplaces(tab, p, [NEWLINE] + indent, s, u.added, u.addedEnd, u.removed, u.addedStart, u.removedStart);
    SwapReplaces(tab, p, x, s, u.removed, u.removedEnd, u.added, u.removedStart, u.addedStart);
    RecordedOnce(tab, k, r, u);
    assert RedoText(tab, k.text, u) == p + [NEWLINE] + s;
    assert |r.text| == |p| + 1 + |indent| + |s|;
    assert indent == [] ==> [NEWLINE] + indent == [NEWLINE];
  }

  /** Typing over a selection in overwrite mode: the record's end of the removed text is measured
      after the selection is gone, and is right only for a tab that swallows the whole selection. */
  ghost predicate TabSwallowsSelection(tab: TabSize, k: Snapshot)
    requires Ready(tab, k) && HasSelection(k.state)
  {
    && k.state.selectionStart.line == k.state.selectionEnd.line
    && SelectionTo(tab, k) < |k.text|
    && k.text[SelectionTo(tab, k)] == TAB
    && k.state.selectionEnd.column < NextColumn(tab, TAB, k.state.selectionStart.column)
  }

  /** When the record of a typed character is complete. */
  ghost predicate CharacterRecorded(tab: TabSize, k: Snapshot, c: wchar, overwrite: bool)
    requires Ready(tab, k)
  {
    HasSelection(k.state) ==>
      && ImTextCharToUtf8(c) != []
      && (Overwrites(overwrite, k.text, SelectionTo(tab, k)) ==> TabSwallowsSelection(tab, k))
  }

  /** Typing an encodable character can always be undone; the step is exact precisely when the
      record is complete in the sense of CharacterRecorded. */
  lemma EnterPrintableExact(tab: TabSize, k: Snapshot, c: wchar, overwrite: bool)
    requires Ready(tab, k) && c != RETURN && c != 0 && c != NEWLINE
    ensures var r := EnterPrintable(tab, k, c, overwrite);
            && (ExactStep(tab, k, r) <==> CharacterRecorded(tab, k, c, overwrite))
            && (ImTextCharToUtf8(c) != [] ==>
                  exists u :: Recorded(k, r, u) && CanUndoRecord(tab, r.text, u)
                           && UndoText(tab, r.text, u) == k.text)
  {
    var pos, a, b := InsertionPoint(tab, k);
    var e := ImTextCharToUtf8(c);
    if e != [] {
      SelectionRecordRemoves(tab, k, pos, a, b);
      EncodedClean(c);
      var d := DeleteSelection(tab, k);
      if Overwrites(overwrite, d.text, a) {
        OverwriteCharacter(tab, k, c, pos, a, b);
      } else {
        InsertCharacter(tab, k, c, overwrite, pos, a, b);
      }
    }
  }

  lemma EncodedClean(c: wchar)
    requires c != RETURN && c != 0 && ImTextCharToUtf8(c) != []
    ensures CString(ImTextCharToUtf8(c)) && CleanText(ImTextCharToUtf8(c))
    ensures StripReturns(ImTextCharToUtf8(c)) == ImTextCharToUtf8(c)
  {
    EncodingRoundTrip(c);
    var e := ImTextCharToUtf8(c);
    assert forall k :: 0 < k < |e| ==> IsUTFSequence(e[k]);
    StripIdentity(e);
  }

  /** The record of a typed character, undone. */
  lemma CharacterUndone(tab: TabSize, k: Snapshot, r: Snapshot, u: UndoRecord,
                        p: seq<byte>, x: seq<byte>, s: seq<byte>, e: seq<byte>)
    requires CleanText(p) && CleanText(x) && CleanText(s) && CleanText(e) && CString(e) && e != []
    requires StripReturns(e) == e
    requires k.text == p + x + s && r.text == p + e + s && Recorded(k, r, u)
    requires u.removed == x && u.added == e
    requires u.addedStart == EndOf(tab, p) && u.addedEnd == EndOf(tab, p + e)
    requires x != [] ==> u.removedStart == EndOf(tab, p) && u.removedStart.AtMost(u.removedEnd)
                         && InRange(k.text, u.removedEnd)
    ensures CleanText(k.text)
    ensures CanUndoRecord(tab, r.text, u) && UndoText(tab, r.text, u) == k.text
  {
    hide Lines, Flat, Framed;
    CleanConcat(p, x);
    CleanConcat(p + x, s);
    EndOfInserted(tab, p, e, s);
    StripIdentity(x);
    SwapReplaces(tab, p, e, s, u.added, u.addedEnd, u.removed, u.addedStart, u.removedStart);
  }

  /** The same record redone. */
  lemma CharacterRedone(tab: TabSize, k: Snapshot, r: Snapshot, u: UndoRecord,
                        p: seq<byte>, x: seq<byte>, s: seq<byte>, e: seq<byte>)
    requires CleanText(p) && CleanText(x) && CleanText(s) && CleanText(e) && CString(e) && e != []
    requires StripReturns(e) == e
    requires k.text == p + x + s && r.text == p + e + s && Recorded(k, r, u)
    requires u.removed == x && u.added == e
    requires u.addedStart == EndOf(tab, p) && u.addedEnd == EndOf(tab, p + e)
    requires x != [] ==> u.removedStart == EndOf(tab, p) && u.removedStart.AtMost(u.removedEnd)
                         && InRange(k.text, u.removedEnd)
    requires CleanText(k.text) && (x == [] || At(tab, k.text, u.removedEnd) == |p| + |x|)
    ensures CanRedoRecord(tab, k.text, u) && RedoText(tab, k.text, u) == r.text
  {
    hide Lines, Flat, Framed;
    SwapReplaces(tab, p, x, s, u.removed, u.removedEnd, u.added, u.removedStart, u.addedStart);
  }

  /** A record whose removed text ends elsewhere leaves a text of another length. */
  lemma CharacterNotRedone(tab: TabSize, k: Snapshot, r: Snapshot, u: UndoRecord,
                        p: seq<byte>, x: seq<byte>, s: seq<byte>, e: seq<byte>)
    requires CleanText(p) && CleanText(x) && CleanText(s) && CleanText(e) && CString(e) && e != []
    requires StripReturns(e) == e
    requires k.text == p + x + s && r.text == p + e + s && Recorded(k, r, u)
    requires u.removed == x && u.added == e
    requires u.addedStart == EndOf(tab, p) && u.addedEnd == EndOf(tab, p + e)
    requires x != [] ==> u.removedStart == EndOf(tab, p) && u.removedStart.AtMost(u.removedEnd)
                         && InRange(k.text, u.removedEnd)
    requires CleanText(k.text) && x != [] && At(tab, k.text, u.removedEnd) != |p| + |x|
    ensures CanRedoRecord(tab, k.text, u) ==> RedoText(tab, k.text, u) != r.text
  {
    hide Lines, Flat, Framed;
    CleanConcat(x, s);
    Middle(p, x, s);
    EndDenotes(tab, p, x + s);
    RedoLength(tab, k.text, u, |p|);
    assert |r.text| == |p| + |e| + |s|;
  }

  /** What the two halves of the record do. */
  lemma CharacterHalves(tab: TabSize, k: Snapshot, r: Snapshot, u: UndoRecord,
                        p: seq<byte>, x: seq<byte>, s: seq<byte>, e: seq<byte>)
    requires CleanText(p) && CleanText(x) && CleanText(s) && CleanText(e) && CString(e) && e != []
    requires StripReturns(e) == e
    requires k.text == p + x + s && r.text == p + e + s && Recorded(k, r, u)
    requires u.removed == x && u.added == e
    requires u.addedStart == EndOf(tab, p) && u.addedEnd == EndOf(tab, p + e)
    requires x != [] ==> u.removedStart == EndOf(tab, p) && u.removedStart.AtMost(u.removedEnd)
                         && InRange(k.text, u.removedEnd)
    ensures CleanText(k.text)
    ensures CanUndoRecord(tab, r.text, u) && UndoText(tab, r.text, u) == k.text
    ensures ExactStep(tab, k, r) <==> x == [] || At(tab, k.text, u.removedEnd) == |p| + |x|
  {
    hide Lines, Flat, Framed, CanUndoRecord, UndoText, CanRedoRecord, RedoText;
    CharacterUndone(tab, k, r, u, p, x, s, e);
    RecordedOnce(tab, k, r, u);
    if x == [] || At(tab, k.text, u.removedEnd) == |p| + |x| {
      CharacterRedone(tab, k, r, u, p, x, s, e);
    } else {
      CharacterNotRedone(tab, k, r, u, p, x, s, e);
    }
  }

  lemma RedoLength(tab: TabSize, t: seq<byte>, u: UndoRecord, o: nat)
    requires CleanText(t) && u.removed != [] && u.added != [] && StripReturns(u.added) == u.added
    requires InRange(t, u.removedStart) && At(tab, t, u.removedStart) == o && InRange(t, u.removedEnd)
    requires u.removedStart.AtMost(u.removedEnd)
    ensures CanRedoRecord(tab, t, u) ==>
              |RedoText(tab, t, u)| == |t| - (At(tab, t, u.removedEnd) - o) + |u.added|
  {
    AtMonotone(tab, t, u.removedStart, u.removedEnd);
  }

  lemma InsertCharacter(tab: TabSize, k: Snapshot, c: wchar, overwrite: bool, pos: Coordinates, a: nat, b: nat)
    requires Ready(tab, k) && a == SelectionFrom(tab, k) && b == SelectionTo(tab, k)
    requires Denotes(tab, k.text, pos, a)
    requires ImTextCharToUtf8(c) != [] && c != RETURN && c != 0
    requires var d := DeleteSelection(tab, k);
             && d.text == k.text[..a] + k.text[b..]
             && pos == Sanitize(tab, d.text, d.state.cursorPosition)
             && InRange(d.text, pos) && At(tab, d.text, pos) == a
             && !Overwrites(overwrite, d.text, a)
    requires var u := SelectionRecord(tab, k);
             && u.removed == k.text[a..b]
             && (a < b ==> u.removedStart == pos && u.removedStart.AtMost(u.removedEnd)
                           && RoundsTo(tab, k.text, u.removedEnd, b))
    ensures var r := EnterPrintable(tab, k, c, overwrite);
            && ExactStep(tab, k, r)
            && exists u :: Recorded(k, r, u) && CanUndoRecord(tab, r.text, u) && UndoText(tab, r.text, u) == k.text
  {
    var r := EnterPrintable(tab, k, c, overwrite);
    var u := r.undoBuffer[k.undoIndex];
    var e := ImTextCharToUtf8(c);
    EncodedClean(c);
    Pieces(k.text, a, b);
    InsertIntoRemoved(k.text, a, b, e);
    CharacterHalves(tab, k, r, u, k.text[..a], k.text[a..b], k.text[b..], e);
    assert Recorded(k, r, u);
  }

  lemma OverwriteCharacter(tab: TabSize, k: Snapshot, c: wchar, pos: Coordinates, a: nat, b: nat)
    requires Ready(tab, k) && a == SelectionFrom(tab, k) && b == SelectionTo(tab, k)
    requires Denotes(tab, k.text, pos, a)
    requires HasSelection(k.state) ==> a < b && k.state.selectionStart == pos
                                       && Denotes(tab, k.text, k.state.selectionEnd, b)
    requires !HasSelection(k.state) ==> a == b
    requires ImTextCharToUtf8(c) != [] && c != RETURN && c != 0
    requires var d := DeleteSelection(tab, k);
             && d.text == k.text[..a] + k.text[b..] && CleanText(d.text)
             && pos == Sanitize(tab, d.text, d.state.cursorPosition)
             && InRange(d.text, pos) && At(tab, d.text, pos) == a
             && Overwrites(true, d.text, a)
    requires SelectionRecord(tab, k).removed == k.text[a..b]
    ensures var r := EnterPrintable(tab, k, c, true);
            && (ExactStep(tab, k, r) <==> CharacterRecorded(tab, k, c, true))
            && exists u :: Recorded(k, r, u) && CanUndoRecord(tab, r.text, u) && UndoText(tab, r.text, u) == k.text
  {
    var t := k.text;
    SlideBack(t, a, b, b);
    var n := OverwrittenPieces(t, a, b);
    SlideBack(t, a, b, n);
    OverwrittenEnd(tab, t, pos, a, b, n);
    var r, u := OverwriteResult(tab, k, c, pos, a, b, n);
    OverwriteHalves(tab, k, r, u, c, pos, a, b, n);
  }

  lemma OverwriteResult(tab: TabSize, k: Snapshot, c: wchar, pos: Coordinates, a: nat, b: nat, n: nat)
    returns (r: Snapshot, u: UndoRecord)
    requires Ready(tab, k) && a == SelectionFrom(tab, k) && b == SelectionTo(tab, k) && b < n <= |k.text|
    requires ImTextCharToUtf8(c) != [] && n == b + UTF8CharLength(k.text[b])
    requires var d := DeleteSelection(tab, k);
             && d.text == k.text[..a] + k.text[b..]
             && pos == Sanitize(tab, d.text, d.state.cursorPosition)
             && InRange(d.text, pos) && At(tab, d.text, pos) == a
             && Overwrites(true, d.text, a)
    requires SelectionRecord(tab, k).removed == k.text[a..b]
    ensures r == EnterPrintable(tab, k, c, true) && Recorded(k, r, u)
    ensures r.text == k.text[..a] + ImTextCharToUtf8(c) + k.text[n..]
    ensures u.added == ImTextCharToUtf8(c) && u.removed == k.text[a..n]
    ensures u.addedStart == pos && u.addedEnd == EndOf(tab, k.text[..a] + ImTextCharToUtf8(c))
    ensures u.removedStart == pos && u.removedEnd == EndOf(tab, k.text[..a] + k.text[b..n])
  {
    hide Lines, Flat, Framed, Sanitize, EndOf, ImTextCharToUtf8, UTF8CharLength, PreviousBoundary,
         CharacterInto, Aligned, Insert, Remove, Entered;
    r := EnterPrintable(tab, k, c, true);
    var d, e, m := DeleteSelection(tab, k), ImTextCharToUtf8(c), a + (n - b);
    SlideBack(k.text, a, b, n);
    InsertIntoRemoved(k.text, a, n, e);
    OverwriteStep(tab, d, SelectionRecord(tab, k), e, pos, a, m);
    u := r.undoBuffer[k.undoIndex];
  }

  /** The fields that CharacterInto fills in when it overwrites d.text[o..m]. */
  lemma OverwriteStep(tab: TabSize, d: Snapshot, v: UndoRecord, e: seq<byte>, pos: Coordinates, o: nat, m: nat)
    requires CleanText(d.text) && d.undoIndex <= |d.undoBuffer|
    requires pos == Sanitize(tab, d.text, d.state.cursorPosition) && InRange(d.text, pos)
    requires o == At(tab, d.text, pos) && Overwrites(true, d.text, o)
    requires m == o + UTF8CharLength(d.text[o]) && m <= |d.text|
    ensures var r := CharacterInto(tab, d, v, e, true);
            var text := Insert(Remove(d.text, o, m), o, e);
            && r.text == text && r.undoIndex == d.undoIndex + 1 == |r.undoBuffer|
            && r.undoBuffer == d.undoBuffer[..d.undoIndex] + [r.undoBuffer[d.undoIndex]]
            && var u := r.undoBuffer[d.undoIndex];
               && u.added == e && u.addedStart == pos && u.addedEnd == EndOf(tab, text[..o + |e|])
               && u.removed == v.removed + d.text[o..m] && u.removedStart == pos
               && u.removedEnd == EndOf(tab, d.text[..m])
               && u.before == v.before && u.after == r.state
  {
    hide Lines, Flat, Framed, Sanitize, EndOf, UTF8CharLength;
  }

  lemma OverwriteHalves(tab: TabSize, k: Snapshot, r: Snapshot, u: UndoRecord, c: wchar,
                        pos: Coordinates, a: nat, b: nat, n: nat)
    requires Ready(tab, k) && a == SelectionFrom(tab, k) && b == SelectionTo(tab, k) && b < n <= |k.text|
    requires n == b + UTF8CharLength(k.text[b]) && k.text[b] != NEWLINE && Boundary(k.text, n)
    requires Denotes(tab, k.text, pos, a) && InRange(k.text, pos)
    requires HasSelection(k.state) ==> a < b && k.state.selectionStart == pos
                                       && Denotes(tab, k.text, k.state.selectionEnd, b)
    requires !HasSelection(k.state) ==> a == b
    requires ImTextCharToUtf8(c) != [] && c != RETURN && c != 0
    requires Recorded(k, r, u)
    requires r.text == k.text[..a] + ImTextCharToUtf8(c) + k.text[n..]
    requires u.added == ImTextCharToUtf8(c) && u.removed == k.text[a..n]
    requires u.addedStart == pos && u.addedEnd == EndOf(tab, k.text[..a] + ImTextCharToUtf8(c))
    requires u.removedStart == pos
    requires u.removedEnd == Coordinates(pos.line, NextColumn(tab, k.text[b], pos.column))
    ensures ExactStep(tab, k, r) <==> (HasSelection(k.state) ==> TabSwallowsSelection(tab, k))
    ensures CanUndoRecord(tab, r.text, u) && UndoText(tab, r.text, u) == k.text
  {
    var t, e := k.text, ImTextCharToUtf8(c);
    EncodedClean(c);
    Pieces(t, a, n);
    CharacterHalves(tab, k, r, u, t[..a], t[a..n], t[n..], e);
    if HasSelection(k.state) {
      SwallowedSelection(tab, k, pos, a, b, n, u.removedEnd);
    } else {
      EndDenotesNext(tab, t, a);
      DenotesAt(tab, t, u.removedEnd, n);
    }
  }

  /** The overwritten character sits after the selection, and slides to its start. */
  lemma OverwrittenPieces(t: seq<byte>, a: nat, b: nat) returns (n: nat)
    requires CleanText(t) && a <= b < |t| && Boundary(t, a) && Boundary(t, b)
    ensures b < n <= |t| && n == b + UTF8CharLength(t[b]) && Boundary(t, n)
    ensures CodeSequence(t[b..n]) && CleanText(t[..a])
  {
    NextBoundary(t, b);
    n := b + UTF8CharLength(t[b]);
    CutClean(t, a);
  }

  lemma SlideBack(t: seq<byte>, a: nat, b: nat, n: nat)
    requires a <= b <= n <= |t|
    ensures t[a..b] + t[b..n] == t[a..n]
    ensures var d := t[..a] + t[b..];
            var m := a + (n - b);
            && |d| == |t| - (b - a)
            && (b < |t| ==> d[a] == t[b])
            && d[a..m] == t[b..n]
            && d[..m] == t[..a] + t[b..n]
            && Remove(d, a, m) == t[..a] + t[n..]
  {
  }

  /** The record's end of the removed text lies one character beyond the start of the selection. */
  lemma OverwrittenEnd(tab: TabSize, t: seq<byte>, pos: Coordinates, a: nat, b: nat, n: nat)
    requires CleanText(t) && a <= b < n <= |t| && Denotes(tab, t, pos, a) && CleanText(t[..a])
    requires CodeSequence(t[b..n]) && t[b] != NEWLINE
    ensures EndOf(tab, t[..a] + t[b..n]) == Coordinates(pos.line, NextColumn(tab, t[b], pos.column))
    ensures InRange(t, pos)
  {
    EndAfterSequence(tab, t[..a], t[b..n]);
    DenotesAt(tab, t, pos, a);
  }

  /** Resolving that end in the text before the edit hits the end of the overwritten character
      exactly when a tab swallows the selection. */
  lemma SwallowedSelection(tab: TabSize, k: Snapshot, pos: Coordinates, a: nat, b: nat, n: nat, end: Coordinates)
    requires Ready(tab, k) && HasSelection(k.state) && a < b < n <= |k.text|
    requires a == SelectionFrom(tab, k) && b == SelectionTo(tab, k) && k.state.selectionStart == pos
    requires n == b + UTF8CharLength(k.text[b]) && k.text[b] != NEWLINE
    requires Denotes(tab, k.text, pos, a) && Denotes(tab, k.text, k.state.selectionEnd, b)
    requires end == Coordinates(pos.line, NextColumn(tab, k.text[b], pos.column)) && InRange(k.text, end)
    ensures At(tab, k.text, end) == n <==> TabSwallowsSelection(tab, k)
  {
    var t, sel := k.text, k.state.selectionEnd;
    EndDenotesNext(tab, t, b);
    DenotesOrder(tab, t, pos, a, sel, b);
    var after := EndOf(tab, t[..n]);
    if TabSwallowsSelection(tab, k) {
      SameStop(tab, pos.column, sel.column);
      DenotesAt(tab, t, after, n);
    }
    if At(tab, t, end) == n {
      ResolvedLine(tab, t, end);
      ResolvedAfter(tab, t, sel, b, end);
    }
  }

  /** A coordinate resolves to an offset of its own line. */
  lemma ResolvedLine(tab: TabSize, t: seq<byte>, c: Coordinates)
    requires CleanText(t) && InRange(t, c)
    ensures EndOf(tab, t[..At(tab, t, c)]).line == c.line
  {
    var d := Lines(t);
    LinesClean(t);
    FlatLines(t);
    var i := IndexAt(tab, d[c.line], c.column);
    IndexOfMaxColumn(tab, d[c.line], c.column);
    SplitAt(d, c.line, i);
    EndOfBefore(tab, d, c.line, i);
  }

  /** A coordinate that resolves beyond an aligned one on its line has a larger column. */
  lemma ResolvedAfter(tab: TabSize, t: seq<byte>, c: Coordinates, o: nat, far: Coordinates)
    requires CleanText(t) && Denotes(tab, t, c, o) && InRange(t, far) && far.line == c.line
    requires o < At(tab, t, far)
    ensures c.column < far.column
  {
    DenotesAt(tab, t, c, o);
    if far.column <= c.column {
      AtMonotone(tab, t, far, c);
    }
  }
}
