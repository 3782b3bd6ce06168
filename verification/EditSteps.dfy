/** The edits of Editing in the steps the editor takes for them. */
module EditSteps {
  import opened Utf8
  import opened Columns
  import opened Documents
  import opened Positions
  import opened Editing

  /** Deleting the selection by DeleteRange, and collapsing cursor and selection to its start. */
  lemma SelectionDeleted(tab: TabSize, k: Snapshot)
    requires Placed(k) && HasSelection(k.state)
    ensures var s, e := k.state.selectionStart, k.state.selectionEnd;
            && InRange(k.text, s) && InRange(k.text, e) && s.AtMost(e) && s != e
            && DeleteRange(tab, k.text, s, e) == DeleteSelection(tab, k).text
            && At(tab, k.text, s) <= At(tab, k.text, e)
            && SelectedText(tab, k) == k.text[At(tab, k.text, s)..At(tab, k.text, e)]
    ensures var c := Sanitize(tab, DeleteSelection(tab, k).text, k.state.selectionStart);
            DeleteSelection(tab, k) == Snapshot(DeleteSelection(tab, k).text, EditorState(c, c, c),
                                                k.undoBuffer, k.undoIndex)
  {
    hide Lines, Flat, Framed;
    AtMonotone(tab, k.text, k.state.selectionStart, k.state.selectionEnd);
  }

  // ---------- Delete ----------

  /** `removed` is what Delete records for the character of `t` at `pos`, `end` its end, and `newText` the
      rest of `t`; at the end of `t` nothing is taken. */
  ghost predicate NextTaken(tab: TabSize, t: seq<byte>, pos: Coordinates,
                            taken: bool, removed: seq<byte>, end: Coordinates, newText: seq<byte>)
    requires CleanText(t) && InRange(t, pos)
  {
    var o := At(tab, t, pos);
    if o == |t| then !taken && newText == t
    else
      var n := o + UTF8CharLength(t[o]);
      && taken && n <= |t| && removed == DeletedText(tab, t, pos) && newText == Remove(t, o, n)
      && end == if t[o] == NEWLINE then Coordinates(pos.line + 1, 0)
                else Coordinates(pos.line, pos.column + 1)
  }

  /** The edit that a taken character leads to, in the words of Delete. */
  lemma DeleteIs(tab: TabSize, k: Snapshot, taken: bool, removed: seq<byte>, end: Coordinates, newText: seq<byte>)
    requires Placed(k) && !HasSelection(k.state) && !ReadsPastEnd(tab, k)
    requires var pos := Sanitize(tab, k.text, k.state.cursorPosition);
             InRange(k.text, pos) && NextTaken(tab, k.text, pos, taken, removed, end, newText)
    ensures var pos := Sanitize(tab, k.text, k.state.cursorPosition);
            var state := k.state.(cursorPosition := pos);
            && (!taken ==> Delete(tab, k) == Snapshot(newText, state, k.undoBuffer, k.undoIndex))
            && (taken ==>
                  Delete(tab, k) ==
                  Snapshot(newText, state,
                           k.undoBuffer[..k.undoIndex] +
                           [UndoRecord([], ORIGIN, ORIGIN, removed, pos, end, k.state, state)],
                           k.undoIndex + 1))
  {
    hide Flat, Framed;
    var o := At(tab, k.text, Sanitize(tab, k.text, k.state.cursorPosition));
    if o < |k.text| {
      NextBoundary(k.text, o);
    }
  }

  // ---------- Backspace ----------

  /** `removed` is the character of `t` before `pos`, `start` what Backspace records as its start, and
      `newText` the rest of `t`; at the start of `t` nothing goes. */
  ghost predicate PreviousTaken(tab: TabSize, t: seq<byte>, pos: Coordinates,
                                removed: seq<byte>, start: Coordinates, newText: seq<byte>)
    requires CleanText(t) && InRange(t, pos)
  {
    var o := At(tab, t, pos);
    if o == 0 then removed == [] && newText == t
    else
      var b := PreviousBoundary(t, o);
      && removed == t[b..o] && newText == Remove(t, b, o)
      && start == BackspaceStart(tab, t, pos, b)
  }

  lemma BackspaceIs(tab: TabSize, k: Snapshot, removed: seq<byte>, start: Coordinates, newText: seq<byte>)
    requires Placed(k) && !HasSelection(k.state)
    requires var pos := Sanitize(tab, k.text, k.state.cursorPosition);
             InRange(k.text, pos) && PreviousTaken(tab, k.text, pos, removed, start, newText)
    ensures var pos := Sanitize(tab, k.text, k.state.cursorPosition);
            && (removed == [] ==>
                  Backspace(tab, k) ==
                  Snapshot(newText, k.state.(cursorPosition := pos), k.undoBuffer, k.undoIndex))
            && (removed != [] ==>
                  var state := k.state.(cursorPosition := start);
                  Backspace(tab, k) ==
                  Snapshot(newText, state,
                           k.undoBuffer[..k.undoIndex] +
                           [UndoRecord([], ORIGIN, ORIGIN, removed, start, pos, k.state, state)],
                           k.undoIndex + 1))
  {
    hide Flat, Framed;
  }

  // ---------- Typing ----------

  /** CharacterInto when nothing is overwritten. */
  lemma CharacterIs(tab: TabSize, d: Snapshot, u: UndoRecord, e: seq<byte>, overwrite: bool, pos: Coordinates)
    requires CleanText(d.text) && d.undoIndex <= |d.undoBuffer|
    requires pos == Sanitize(tab, d.text, d.state.cursorPosition)
    ensures InRange(d.text, pos)
    ensures var o := At(tab, d.text, pos);
            !Overwrites(overwrite, d.text, o) ==>
              CharacterInto(tab, d, u, e, overwrite) ==
              Entered(tab, d, d.text, o, e, u.(added := e, addedStart := pos))
  {
  }

  /** CharacterInto when the characters `removed`, up to `end`, are overwritten. */
  lemma OverwriteIs(tab: TabSize, d: Snapshot, u: UndoRecord, e: seq<byte>, pos: Coordinates, o: nat,
                    removed: seq<byte>, end: Coordinates, newText: seq<byte>)
    requires CleanText(d.text) && d.undoIndex <= |d.undoBuffer|
    requires pos == Sanitize(tab, d.text, d.state.cursorPosition) && InRange(d.text, pos)
    requires o == At(tab, d.text, pos) && Overwrites(true, d.text, o)
    requires var m := o + UTF8CharLength(d.text[o]);
             m <= |d.text| && newText == Remove(d.text, o, m) && removed == d.text[o..m]
             && end == EndOf(tab, d.text[..m])
    ensures CharacterInto(tab, d, u, e, true) ==
            Entered(tab, Snapshot(newText, d.state, d.undoBuffer, d.undoIndex), newText, o, e,
                    u.(added := e, addedStart := pos, removed := u.removed + removed,
                       removedStart := pos, removedEnd := end))
  {
  }

  // ---------- Undo and redo ----------

  /** One step of a walk back: the record before the undo index is applied, if the walk succeeds. */
  lemma UndoUnrolls(tab: TabSize, k: Snapshot, n: nat)
    requires 0 < n && 0 < k.undoIndex && Undo(tab, k, n).Some?
    ensures k.undoIndex <= |k.undoBuffer|
    ensures var i := k.undoIndex - 1;
            var u := k.undoBuffer[i];
            && CanUndoRecord(tab, k.text, u)
            && Undo(tab, k, n) == Undo(tab, Snapshot(UndoText(tab, k.text, u), u.before, k.undoBuffer, i), n - 1)
  {
  }

  /** One step of a walk forward. */
  lemma RedoUnrolls(tab: TabSize, k: Snapshot, n: nat)
    requires 0 < n && k.undoIndex < |k.undoBuffer| && Redo(tab, k, n).Some?
    ensures var u := k.undoBuffer[k.undoIndex];
            && CanRedoRecord(tab, k.text, u)
            && Redo(tab, k, n) ==
               Redo(tab, Snapshot(RedoText(tab, k.text, u), u.after, k.undoBuffer, k.undoIndex + 1), n - 1)
  {
  }
}
