/** What the editing operations mean: functions on a snapshot of the flat text, the cursor and
    selection, and the undo buffer. */
module Editing {
  import opened Utf8
  import opened Columns
  import opened Documents
  import opened Positions

  datatype EditorState = EditorState(
    selectionStart: Coordinates,
    selectionEnd: Coordinates,
    cursorPosition: Coordinates)

  datatype UndoRecord = UndoRecord(
    added: seq<byte>, addedStart: Coordinates, addedEnd: Coordinates,
    removed: seq<byte>, removedStart: Coordinates, removedEnd: Coordinates,
    before: EditorState, after: EditorState)

  datatype Snapshot = Snapshot(
    text: seq<byte>, state: EditorState, undoBuffer: seq<UndoRecord>, undoIndex: nat)

  const ORIGIN := Coordinates(0, 0)

  // ---------- Flat edits ----------

  function Remove(t: seq<byte>, a: nat, b: nat): seq<byte>
    requires a <= b <= |t|
  {
    t[..a] + t[b..]
  }

  function Insert(t: seq<byte>, o: nat, s: seq<byte>): seq<byte>
    requires o <= |t|
  {
    t[..o] + s + t[o..]
  }

  /** `s` without its carriage returns. */
  function StripReturns(s: seq<byte>): (r: seq<byte>)
    ensures |r| <= |s|
  {
    if s == [] then []
    else (if s[0] == RETURN then [] else [s[0]]) + StripReturns(s[1..])
  }

  /** A NUL-terminated string of complete code sequences. */
  ghost predicate CString(s: seq<byte>) {
    Framed(s) && forall k :: 0 <= k < |s| ==> s[k] != 0
  }

  lemma {:induction false} StripAppend(s: seq<byte>, t: seq<byte>)
    ensures StripReturns(s + t) == StripReturns(s) + StripReturns(t)
  {
    if s == [] {
      assert s + t == t;
    } else {
      assert (s + t)[1..] == s[1..] + t;
      StripAppend(s[1..], t);
    }
  }

  lemma {:induction false} StripIdentity(s: seq<byte>)
    requires RETURN !in s
    ensures StripReturns(s) == s
  {
    if s != [] {
      StripIdentity(s[1..]);
    }
  }

  lemma StripSequence(c: seq<byte>)
    requires CodeSequence(c)
    ensures StripReturns(c) == if c[0] == RETURN then [] else c
  {
    if c[0] == RETURN {
      assert c[1..] == [];
    } else {
      assert forall k :: 0 < k < |c| ==> IsUTFSequence(c[k]);
      StripIdentity(c);
    }
  }

  lemma {:induction false} StripClean(s: seq<byte>)
    requires CString(s)
    ensures CleanText(StripReturns(s))
    decreases |s|
  {
    if s != [] {
      var n := FirstSequence(s);
      assert s == s[..n] + s[n..];
      StripAppend(s[..n], s[n..]);
      StripSequence(s[..n]);
      StripClean(s[n..]);
      CodeSequenceFramed(s[..n]);
      assert forall k :: 0 < k < n ==> IsUTFSequence(s[..n][k]);
      CleanConcat(StripReturns(s[..n]), StripReturns(s[n..]));
    }
  }

  lemma RemoveClean(t: seq<byte>, a: nat, b: nat)
    requires CleanText(t) && a <= b && Boundary(t, a) && Boundary(t, b)
    ensures CleanText(Remove(t, a, b)) && Boundary(Remove(t, a, b), a)
  {
    CutClean(t, a);
    CutClean(t, b);
    CleanConcat(t[..a], t[b..]);
  }

  lemma Concat3Clean(a: seq<byte>, s: seq<byte>, b: seq<byte>)
    requires CleanText(a) && CleanText(s) && CleanText(b)
    ensures CleanText(a + s + b) && Boundary(a + s + b, |a| + |s|)
  {
    CleanConcat(a, s);
    CleanConcat(a + s, b);
  }

  lemma InsertClean(t: seq<byte>, o: nat, s: seq<byte>)
    requires CleanText(t) && Boundary(t, o) && CleanText(s)
    ensures CleanText(Insert(t, o, s))
    ensures Boundary(Insert(t, o, s), o) && Boundary(Insert(t, o, s), o + |s|)
  {
    CutClean(t, o);
    Concat3Clean(t[..o], s, t[o..]);
    assert s != [] ==> Insert(t, o, s)[o] == s[0];
    assert s == [] ==> Insert(t, o, s) == t;
  }

  // ---------- DeleteRange and InsertTextAt on flat text ----------

  ghost predicate CanDelete(t: seq<byte>, a: Coordinates, b: Coordinates) {
    a == b || (InRange(t, a) && InRange(t, b) && a.AtMost(b))
  }

  ghost function DeleteRange(tab: TabSize, t: seq<byte>, a: Coordinates, b: Coordinates): (r: seq<byte>)
    requires CleanText(t) && CanDelete(t, a, b)
    ensures CleanText(r)
  {
    if a == b then t
    else
      AtMonotone(tab, t, a, b);
      RemoveClean(t, At(tab, t, a), At(tab, t, b));
      Remove(t, At(tab, t, a), At(tab, t, b))
  }

  ghost function InsertTextAt(tab: TabSize, t: seq<byte>, c: Coordinates, s: seq<byte>): (r: seq<byte>)
    requires CleanText(t) && InRange(t, c) && CString(s)
    ensures CleanText(r)
  {
    StripClean(s);
    InsertClean(t, At(tab, t, c), StripReturns(s));
    Insert(t, At(tab, t, c), StripReturns(s))
  }

  /** Where InsertTextAt leaves its coordinate: one column for every character, also for a tab. */
  function CountedEnd(c: Coordinates, s: seq<byte>): (r: Coordinates)
    ensures c.AtMost(r)
    decreases |s|
  {
    if s == [] then c
    else if s[0] == RETURN then CountedEnd(c, s[1..])
    else if s[0] == NEWLINE then CountedEnd(Coordinates(c.line + 1, 0), s[1..])
    else
      var n := UTF8CharLength(s[0]);
      CountedEnd(Coordinates(c.line, c.column + 1), if n <= |s| then s[n..] else [])
  }

  /** The result of InsertTextAt: the newlines inserted. */
  function CountNewlines(s: seq<byte>): nat {
    if s == [] then 0 else (if s[0] == NEWLINE then 1 else 0) + CountNewlines(s[1..])
  }

  // ---------- Undo records ----------

  /** Delete one text and insert another: both directions of an undo record have this shape. */
  ghost predicate CanSwap(tab: TabSize, t: seq<byte>, cut: seq<byte>, a: Coordinates, b: Coordinates,
                          put: seq<byte>, c: Coordinates) {
    && CleanText(t)
    && CString(put)
    && (cut != [] ==> CanDelete(t, a, b))
    && (put != [] ==> InRange(if cut == [] then t else DeleteRange(tab, t, a, b), c))
  }

  ghost function Swap(tab: TabSize, t: seq<byte>, cut: seq<byte>, a: Coordinates, b: Coordinates,
                      put: seq<byte>, c: Coordinates): (r: seq<byte>)
    requires CanSwap(tab, t, cut, a, b, put, c)
    ensures CleanText(r)
  {
    var u := if cut == [] then t else DeleteRange(tab, t, a, b);
    if put == [] then u else InsertTextAt(tab, u, c, put)
  }

  ghost predicate CanUndoRecord(tab: TabSize, t: seq<byte>, u: UndoRecord) {
    CanSwap(tab, t, u.added, u.addedStart, u.addedEnd, u.removed, u.removedStart)
  }

  ghost function UndoText(tab: TabSize, t: seq<byte>, u: UndoRecord): (r: seq<byte>)
    requires CanUndoRecord(tab, t, u)
    ensures CleanText(r)
  {
    Swap(tab, t, u.added, u.addedStart, u.addedEnd, u.removed, u.removedStart)
  }

  ghost predicate CanRedoRecord(tab: TabSize, t: seq<byte>, u: UndoRecord) {
    CanSwap(tab, t, u.removed, u.removedStart, u.removedEnd, u.added, u.addedStart)
  }

  ghost function RedoText(tab: TabSize, t: seq<byte>, u: UndoRecord): (r: seq<byte>)
    requires CanRedoRecord(tab, t, u)
    ensures CleanText(r)
  {
    Swap(tab, t, u.removed, u.removedStart, u.removedEnd, u.added, u.addedStart)
  }

  /** AddUndo: drop the redo tail and append. */
  function AddUndo(k: Snapshot, u: UndoRecord): Snapshot
    requires k.undoIndex <= |k.undoBuffer|
  {
    k.(undoBuffer := k.undoBuffer[..k.undoIndex] + [u], undoIndex := k.undoIndex + 1)
  }

  datatype Option<T> = None | Some(value: T)

  /** Applying one record to a text; None when its coordinates do not lie in the text. */
  type Replay = (seq<byte>, UndoRecord) -> Option<seq<byte>>

  ghost function UndoRecordOn(tab: TabSize): Replay {
    (t: seq<byte>, u: UndoRecord) => if CanUndoRecord(tab, t, u) then Some(UndoText(tab, t, u)) else None
  }

  ghost function RedoRecordOn(tab: TabSize): Replay {
    (t: seq<byte>, u: UndoRecord) => if CanRedoRecord(tab, t, u) then Some(RedoText(tab, t, u)) else None
  }

  /** Up to `n` steps towards the start of the undo buffer. */
  ghost function WalkBack(replay: Replay, k: Snapshot, n: nat): Option<Snapshot>
    decreases n
  {
    if n == 0 || k.undoIndex == 0 then Some(k)
    else if k.undoIndex > |k.undoBuffer| then None
    else
      var u := k.undoBuffer[k.undoIndex - 1];
      var t := replay(k.text, u);
      if t.None? then None
      else WalkBack(replay, k.(text := t.value, state := u.before, undoIndex := k.undoIndex - 1), n - 1)
  }

  /** Up to `n` steps towards its end. */
  ghost function WalkForward(replay: Replay, k: Snapshot, n: nat): Option<Snapshot>
    decreases n
  {
    if n == 0 || k.undoIndex >= |k.undoBuffer| then Some(k)
    else
      var u := k.undoBuffer[k.undoIndex];
      var t := replay(k.text, u);
      if t.None? then None
      else WalkForward(replay, k.(text := t.value, state := u.after, undoIndex := k.undoIndex + 1), n - 1)
  }

  /** Undo(n), unless a record met on the way cannot be applied. */
  ghost function Undo(tab: TabSize, k: Snapshot, n: nat): Option<Snapshot> {
    WalkBack(UndoRecordOn(tab), k, n)
  }

  ghost function Redo(tab: TabSize, k: Snapshot, n: nat): Option<Snapshot> {
    WalkForward(RedoRecordOn(tab), k, n)
  }

  // ---------- Selection ----------

  predicate HasSelection(s: EditorState) {
    s.selectionStart.Less(s.selectionEnd)
  }

  /** The lines of the selection exist. Its columns, and the cursor, may lie anywhere: inside a tab
      or beyond the line end, too. */
  ghost predicate Placed(k: Snapshot) {
    && CleanText(k.text)
    && k.undoIndex <= |k.undoBuffer|
    && (HasSelection(k.state) ==> InRange(k.text, k.state.selectionEnd))
  }

  /** The cursor is left of the line end but resolves to it: Delete would read a character there. */
  ghost predicate ReadsPastEnd(tab: TabSize, k: Snapshot) {
    && !HasSelection(k.state)
    && var pos := Sanitize(tab, k.text, k.state.cursorPosition);
       var s := Lines(k.text)[pos.line];
       pos.column != MaxColumn(tab, s) && IndexAt(tab, s, pos.column) == |s|
  }

  /** Cursor and selection are where characters start. */
  ghost predicate Ready(tab: TabSize, k: Snapshot): (r: bool)
    ensures r ==> Placed(k) && !ReadsPastEnd(tab, k)
  {
    && CleanText(k.text)
    && k.undoIndex <= |k.undoBuffer|
    && Aligned(tab, k.text, Sanitize(tab, k.text, k.state.cursorPosition))
    && (HasSelection(k.state) ==>
          Aligned(tab, k.text, k.state.selectionStart) && Aligned(tab, k.text, k.state.selectionEnd))
  }

  /** The offsets of the selection; an empty selection is taken to be at the cursor. */
  ghost function SelectionFrom(tab: TabSize, k: Snapshot): (o: nat)
    requires Placed(k)
    ensures o <= SelectionTo(tab, k) <= |k.text| && Boundary(k.text, o)
  {
    if HasSelection(k.state) then
      AtMonotone(tab, k.text, k.state.selectionStart, k.state.selectionEnd);
      At(tab, k.text, k.state.selectionStart)
    else At(tab, k.text, Sanitize(tab, k.text, k.state.cursorPosition))
  }

  ghost function SelectionTo(tab: TabSize, k: Snapshot): (o: nat)
    requires Placed(k)
    ensures o <= |k.text| && Boundary(k.text, o)
  {
    if HasSelection(k.state) then At(tab, k.text, k.state.selectionEnd)
    else At(tab, k.text, Sanitize(tab, k.text, k.state.cursorPosition))
  }

  /** DeleteSelection: the selected text goes, cursor and selection collapse to its start. */
  ghost function DeleteSelection(tab: TabSize, k: Snapshot): (r: Snapshot)
    requires Placed(k)
    ensures CleanText(r.text) && Boundary(r.text, SelectionFrom(tab, k))
  {
    if HasSelection(k.state) then
      RemoveClean(k.text, SelectionFrom(tab, k), SelectionTo(tab, k));
      var text := Remove(k.text, SelectionFrom(tab, k), SelectionTo(tab, k));
      var s := Sanitize(tab, text, k.state.selectionStart);
      k.(text := text, state := EditorState(s, s, s))
    else k
  }

  ghost function SelectedText(tab: TabSize, k: Snapshot): seq<byte>
    requires Placed(k)
  {
    k.text[SelectionFrom(tab, k)..SelectionTo(tab, k)]
  }

  /** The removed half of the record of an edit that replaces the selection. */
  ghost function SelectionRecord(tab: TabSize, k: Snapshot): UndoRecord
    requires Placed(k)
  {
    if HasSelection(k.state) then
      UndoRecord([], ORIGIN, ORIGIN, SelectedText(tab, k), k.state.selectionStart, k.state.selectionEnd,
                 k.state, k.state)
    else UndoRecord([], ORIGIN, ORIGIN, [], ORIGIN, ORIGIN, k.state, k.state)
  }

  // ---------- The edits ----------

  ghost function Cut(tab: TabSize, k: Snapshot): Snapshot
    requires Placed(k)
  {
    if HasSelection(k.state) then
      var r := DeleteSelection(tab, k);
      AddUndo(r, SelectionRecord(tab, k).(after := r.state))
    else k
  }

  /** The text that Delete records as removed at `pos`. */
  ghost function DeletedText(tab: TabSize, t: seq<byte>, pos: Coordinates): seq<byte>
    requires CleanText(t) && InRange(t, pos) && At(tab, t, pos) < |t|
  {
    var o := At(tab, t, pos);
    if t[o] == NEWLINE then [NEWLINE]
    else
      AtMonotone(tab, t, pos, Coordinates(pos.line, pos.column + 1));
      t[o..At(tab, t, Coordinates(pos.line, pos.column + 1))]
  }

  /** Delete the selection, or the character (a newline is one) at the cursor. What is recorded as
      removed is the text of the one column behind the cursor. */
  ghost function Delete(tab: TabSize, k: Snapshot): Snapshot
    requires Placed(k) && !ReadsPastEnd(tab, k)
  {
    if HasSelection(k.state) then Cut(tab, k)
    else
      var pos := Sanitize(tab, k.text, k.state.cursorPosition);
      var o := At(tab, k.text, pos);
      var r := k.(state := k.state.(cursorPosition := pos));
      if o == |k.text| then r
      else
        NextBoundary(k.text, o);
        var n := UTF8CharLength(k.text[o]);
        var end := if k.text[o] == NEWLINE then Coordinates(pos.line + 1, 0)
                   else Coordinates(pos.line, pos.column + 1);
        AddUndo(r.(text := Remove(k.text, o, o + n)),
                UndoRecord([], ORIGIN, ORIGIN, DeletedText(tab, k.text, pos), pos, end, k.state, r.state))
  }

  /** What Backspace takes for the start of the character at offset `b` before `pos`. */
  function BackspaceStart(tab: TabSize, t: seq<byte>, pos: Coordinates, b: nat): Coordinates
    requires b < |t|
  {
    if t[b] == NEWLINE || pos.column == 0 then EndOf(tab, t[..b])
    else Coordinates(pos.line, pos.column - 1)
  }

  /** Delete the selection, or the character before the cursor; the record and the cursor count
      that character as one column wide. */
  ghost function Backspace(tab: TabSize, k: Snapshot): Snapshot
    requires Placed(k)
  {
    if HasSelection(k.state) then Cut(tab, k)
    else
      var pos := Sanitize(tab, k.text, k.state.cursorPosition);
      var o := At(tab, k.text, pos);
      if o == 0 then k.(state := k.state.(cursorPosition := pos))
      else
        var b := PreviousBoundary(k.text, o);
        var start := BackspaceStart(tab, k.text, pos, b);
        var r := k.(text := Remove(k.text, b, o), state := k.state.(cursorPosition := start));
        AddUndo(r, UndoRecord([], ORIGIN, ORIGIN, k.text[b..o], start, pos, k.state, r.state))
  }

  /** InsertText at the cursor of `d`, completing the record `u`. */
  ghost function PasteInto(tab: TabSize, d: Snapshot, u: UndoRecord, clip: seq<byte>): Snapshot
    requires CleanText(d.text) && CString(clip) && d.undoIndex <= |d.undoBuffer|
  {
    var pos := Sanitize(tab, d.text, d.state.cursorPosition);
    var text := InsertTextAt(tab, d.text, pos, clip);
    var end := CountedEnd(pos, clip);
    var sel := Sanitize(tab, text, end);
    var r := d.(text := text, state := EditorState(sel, sel, end));
    AddUndo(r, u.(added := clip, addedStart := pos, addedEnd := sel, after := r.state))
  }

  /** Paste: nothing happens for an empty clipboard. */
  ghost function Paste(tab: TabSize, k: Snapshot, clip: seq<byte>): Snapshot
    requires Placed(k) && CString(clip)
  {
    if clip == [] then k else PasteInto(tab, DeleteSelection(tab, k), SelectionRecord(tab, k), clip)
  }

  /** The leading spaces and tabs of a line. */
  function LeadingBlanks(s: seq<byte>): (r: seq<byte>)
    ensures r <= s
    ensures forall k :: 0 <= k < |r| ==> r[k] == SPACE || r[k] == TAB
    ensures |r| < |s| ==> s[|r|] != SPACE && s[|r|] != TAB
  {
    if s != [] && (s[0] == SPACE || s[0] == TAB) then [s[0]] + LeadingBlanks(s[1..]) else []
  }

  /** The indentation that a new line below `c` starts with. */
  function Indentation(autoIndent: bool, t: seq<byte>, c: Coordinates): seq<byte>
    requires c.line < |Lines(t)|
  {
    if autoIndent then LeadingBlanks(Lines(t)[c.line]) else []
  }

  /** A newline at the cursor of `d`: the new line starts with a copy of the indentation, which the
      record does not mention. */
  ghost function NewlineInto(tab: TabSize, d: Snapshot, u: UndoRecord, autoIndent: bool): Snapshot
    requires CleanText(d.text) && d.undoIndex <= |d.undoBuffer|
  {
    var pos := Sanitize(tab, d.text, d.state.cursorPosition);
    var o := At(tab, d.text, pos);
    var indent := Indentation(autoIndent, d.text, pos);
    var text := Insert(d.text, o, [NEWLINE] + indent);
    var end := EndOf(tab, text[..o + 1 + |indent|]);
    var r := d.(text := text, state := d.state.(cursorPosition := end));
    AddUndo(r, u.(added := [NEWLINE], addedStart := pos, addedEnd := end, after := r.state))
  }

  /** EnterCharacter('\n'). */
  ghost function EnterNewline(tab: TabSize, k: Snapshot, autoIndent: bool): Snapshot
    requires Placed(k)
  {
    NewlineInto(tab, DeleteSelection(tab, k), SelectionRecord(tab, k), autoIndent)
  }

  /** Is there a character to overwrite at offset `o`? A newline is not overwritten. */
  predicate Overwrites(overwrite: bool, t: seq<byte>, o: nat) {
    overwrite && o < |t| && t[o] != NEWLINE
  }

  /** The character with bytes `e` at the cursor of `d`, over the character there if `overwrite`. */
  ghost function CharacterInto(tab: TabSize, d: Snapshot, u: UndoRecord, e: seq<byte>, overwrite: bool): Snapshot
    requires CleanText(d.text) && d.undoIndex <= |d.undoBuffer|
  {
    var pos := Sanitize(tab, d.text, d.state.cursorPosition);
    var o := At(tab, d.text, pos);
    var v := u.(added := e, addedStart := pos);
    if Overwrites(overwrite, d.text, o) then
      NextBoundary(d.text, o);
      var m := o + UTF8CharLength(d.text[o]);
      Entered(tab, d, Remove(d.text, o, m), o, e,
              v.(removed := v.removed + d.text[o..m], removedStart := pos,
                 removedEnd := EndOf(tab, d.text[..m])))
    else Entered(tab, d, d.text, o, e, v)
  }

  /** EnterCharacter of any other character; an unencodable one still deletes the selection, and
      leaves no record. */
  ghost function EnterPrintable(tab: TabSize, k: Snapshot, c: wchar, overwrite: bool): Snapshot
    requires Placed(k)
  {
    var d, e := DeleteSelection(tab, k), ImTextCharToUtf8(c);
    if e == [] then d else CharacterInto(tab, d, SelectionRecord(tab, k), e, overwrite)
  }

  ghost function Entered(tab: TabSize, d: Snapshot, t: seq<byte>, o: nat, e: seq<byte>, u: UndoRecord): Snapshot
    requires o <= |t| && d.undoIndex <= |d.undoBuffer|
  {
    var text := Insert(t, o, e);
    var end := EndOf(tab, text[..o + |e|]);
    var r := d.(text := text, state := d.state.(cursorPosition := end));
    AddUndo(r, u.(addedEnd := end, after := r.state))
  }
}
