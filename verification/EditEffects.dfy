/** What the edits make of the text and of the cursor. */
module EditEffects {
  import opened Utf8
  import opened Columns
  import opened Documents
  import opened Positions
  import opened Editing
  import opened Records
  import opened ExactEdits
  import opened Pasting
  import opened Inverses
  import opened Indenting
  import opened History
  import opened EditSteps

  /** `c` is a coordinate of the text, at the start of the character at offset `o` or at the end. */
  ghost predicate Stands(tab: TabSize, t: seq<byte>, c: Coordinates, o: nat) {
    CleanText(t) && InRange(t, c) && Aligned(tab, t, c) && At(tab, t, c) == o
  }

  lemma DenotesStands(tab: TabSize, t: seq<byte>, c: Coordinates, o: nat)
    requires CleanText(t)
    ensures Denotes(tab, t, c, o) <==> Stands(tab, t, c, o)
  {
    if Denotes(tab, t, c, o) {
      DenotesAt(tab, t, c, o);
    }
    if Stands(tab, t, c, o) {
      AlignedDenotes(tab, t, c);
    }
  }

  /** Clipping a coordinate does not change what it resolves to. */
  lemma SanitizeAt(tab: TabSize, t: seq<byte>, c: Coordinates)
    requires CleanText(t) && InRange(t, c)
    ensures At(tab, t, Sanitize(tab, t, c)) == At(tab, t, c)
  {
    LinesClean(t);
    IndexOfMaxColumn(tab, Lines(t)[c.line], c.column);
    IndexOfMaxColumn(tab, Lines(t)[c.line], MaxColumn(tab, Lines(t)[c.line]));
  }

  // ---------- The selection goes ----------

  /** What follows the selection does not move up to a selection start beyond its line end. */
  ghost predicate StartHolds(tab: TabSize, k: Snapshot) {
    && Placed(k)
    && (HasSelection(k.state) ==> !StartOvertaken(tab, k.text, k.state.selectionStart, k.state.selectionEnd))
  }

  /** So it is with every aligned selection, and with every selection that starts inside its line. */
  lemma StartHoldsInside(tab: TabSize, k: Snapshot)
    requires Placed(k)
    requires HasSelection(k.state) ==>
               k.state.selectionStart.column <= MaxColumn(tab, Lines(k.text)[k.state.selectionStart.line])
    ensures StartHolds(tab, k)
  {
  }

  lemma ReadyHolds(tab: TabSize, k: Snapshot)
    requires Ready(tab, k)
    ensures StartHolds(tab, k)
  {
    if HasSelection(k.state) {
      var s := k.state.selectionStart;
      LinesClean(k.text);
      ColumnOfIndex(tab, Lines(k.text)[s.line], s.column);
    }
  }

  /** Where the start of a deleted range resolves to afterwards. */
  lemma StartAfterwards(tab: TabSize, t: seq<byte>, s: Coordinates, e: Coordinates)
    requires CleanText(t) && InRange(t, s) && InRange(t, e) && s.AtMost(e)
    ensures var a, b := At(tab, t, s), At(tab, t, e);
            && a <= b && CleanText(t[..a] + t[b..]) && InRange(t[..a] + t[b..], s)
            && At(tab, t[..a] + t[b..], s) >= a
            && (At(tab, t[..a] + t[b..], s) == a <==> !StartOvertaken(tab, t, s, e))
  {
    hide Lines, Flat, Framed;
    var a, b := At(tab, t, s), At(tab, t, e);
    AtMonotone(tab, t, s, e);
    CutClean(t, b);
    if s.column <= MaxColumn(tab, Lines(t)[s.line]) {
      StartKept(tab, t, s, t[b..]);
    } else {
      BeyondEnd(tab, t, s);
      BeyondOldEnd(tab, t, s, t[b..]);
    }
  }

  /** Cut, Delete and Backspace take the selected text, and nothing else, away; selection and cursor collapse
      to where it began, unless the rest of the last line has overtaken that place. */
  lemma SelectionGoes(tab: TabSize, k: Snapshot)
    requires Placed(k) && HasSelection(k.state)
    ensures var a, b := SelectionFrom(tab, k), SelectionTo(tab, k);
            var r := Cut(tab, k);
            && r == Delete(tab, k) == Backspace(tab, k)
            && r.text == k.text[..a] + k.text[b..] && CleanText(r.text)
            && r.state.selectionStart == r.state.selectionEnd == r.state.cursorPosition
            && InRange(r.text, r.state.cursorPosition)
            && (At(tab, r.text, r.state.cursorPosition) == a <==> StartHolds(tab, k))
            && (Aligned(tab, k.text, k.state.selectionStart) ==>
                  r.state.cursorPosition == k.state.selectionStart
                  && Stands(tab, r.text, r.state.cursorPosition, a))
  {
    hide Lines, Flat, Framed, Sanitize, StartOvertaken;
    var s, e := k.state.selectionStart, k.state.selectionEnd;
    var a, b := SelectionFrom(tab, k), SelectionTo(tab, k);
    StartAfterwards(tab, k.text, s, e);
    SanitizeAt(tab, k.text[..a] + k.text[b..], s);
    if Aligned(tab, k.text, s) {
      AlignedStays(tab, k.text, s, k.text[b..]);
    }
  }

  lemma AlignedStays(tab: TabSize, t: seq<byte>, s: Coordinates, rest: seq<byte>)
    requires CleanText(t) && Aligned(tab, t, s) && CleanText(t[..At(tab, t, s)] + rest)
    requires Boundary(t[..At(tab, t, s)] + rest, At(tab, t, s))
    ensures var u := t[..At(tab, t, s)] + rest;
            Stands(tab, u, s, At(tab, t, s)) && Sanitize(tab, u, s) == s
  {
    hide Lines, Flat, Framed;
    var a := At(tab, t, s);
    var u := t[..a] + rest;
    AlignedDenotes(tab, t, s);
    assert u[..a] == t[..a];
    DenotesStands(tab, u, s, a);
    SanitizeAligned(tab, u, s);
  }

  /** Text and place where something is entered. */
  lemma EntryPoint(tab: TabSize, k: Snapshot) returns (pos: Coordinates, a: nat, b: nat)
    requires StartHolds(tab, k)
    ensures a == SelectionFrom(tab, k) && b == SelectionTo(tab, k) && a <= b <= |k.text|
    ensures Boundary(k.text, a) && Boundary(k.text, b)
    ensures var d := DeleteSelection(tab, k);
            && d.text == k.text[..a] + k.text[b..] && CleanText(d.text)
            && pos == Sanitize(tab, d.text, d.state.cursorPosition)
            && InRange(d.text, pos) && At(tab, d.text, pos) == a
            && !HasSelection(d.state)
            && (HasSelection(k.state) ==> d.state.selectionStart == d.state.selectionEnd)
  {
    hide Lines, Flat, Framed, Sanitize, StartOvertaken;
    a, b := SelectionFrom(tab, k), SelectionTo(tab, k);
    var d := DeleteSelection(tab, k);
    pos := Sanitize(tab, d.text, d.state.cursorPosition);
    if HasSelection(k.state) {
      SelectionGoes(tab, k);
      SanitizeAt(tab, d.text, d.state.cursorPosition);
    } else {
      assert k.text[..a] + k.text[b..] == k.text;
    }
  }

  // ---------- One character goes ----------

  /** Delete takes the character at the cursor away, a newline too, and the cursor stays in front of what
      follows; at the end of the text nothing goes. The selection is left alone. */
  lemma DeleteTakes(tab: TabSize, k: Snapshot)
    requires Placed(k) && !HasSelection(k.state) && !ReadsPastEnd(tab, k)
    ensures var t, o := k.text, SelectionFrom(tab, k);
            var n := if o < |t| then o + UTF8CharLength(t[o]) else o;
            var r := Delete(tab, k);
            && n <= |t| && r.text == t[..o] + t[n..] && CleanText(r.text)
            && (o < |t| ==> CodeSequence(t[o..n]))
            && InRange(r.text, r.state.cursorPosition) && At(tab, r.text, r.state.cursorPosition) == o
            && (Ready(tab, k) ==> Stands(tab, r.text, r.state.cursorPosition, o))
            && r.state == k.state.(cursorPosition := r.state.cursorPosition)
            && (r.undoIndex == k.undoIndex + 1 <==> o < |t|)
  {
    hide Lines, Flat, Framed, Sanitize, UTF8CharLength, DeletedText;
    var t := k.text;
    var pos := Sanitize(tab, t, k.state.cursorPosition);
    var o := At(tab, t, pos);
    if o < |t| {
      NextBoundary(t, o);
      var n := o + UTF8CharLength(t[o]);
      RemoveClean(t, o, n);
      CutClean(t, n);
      StartKept(tab, t, pos, t[n..]);
      if Ready(tab, k) {
        AlignedStays(tab, t, pos, t[n..]);
      }
    } else {
      assert t[..o] + t[o..] == t;
    }
  }

  /** Backspace counts the character before the cursor as one column wide, and it is. */
  ghost predicate OneColumnBefore(tab: TabSize, t: seq<byte>, pos: Coordinates, b: nat)
    requires b < |t|
  {
    t[b] == NEWLINE || pos.column == EndOf(tab, t[..b]).column + 1
  }

  /** Backspace takes the character before the cursor away, a newline too; the cursor moves to where it
      began if it was one column wide. At the start of the text nothing goes. The selection is left alone. */
  lemma BackspaceTakes(tab: TabSize, k: Snapshot)
    requires Placed(k) && !HasSelection(k.state)
    ensures var t, o := k.text, SelectionFrom(tab, k);
            var b := if o > 0 then PreviousBoundary(t, o) else o;
            var r := Backspace(tab, k);
            && r.text == t[..b] + t[o..] && CleanText(r.text)
            && (o > 0 ==> CodeSequence(t[b..o]))
            && (o > 0 ==> (Stands(tab, r.text, r.state.cursorPosition, b) <==>
                           OneColumnBefore(tab, t, Sanitize(tab, t, k.state.cursorPosition), b)))
            && (o == 0 ==> InRange(t, r.state.cursorPosition) && At(tab, t, r.state.cursorPosition) == 0)
            && r.state == k.state.(cursorPosition := r.state.cursorPosition)
            && (r.undoIndex == k.undoIndex + 1 <==> o > 0)
  {
    hide Lines, Flat, Framed, Sanitize, UTF8CharLength, EndOf;
    var t := k.text;
    var pos := Sanitize(tab, t, k.state.cursorPosition);
    var o := At(tab, t, pos);
    if o > 0 {
      PreviousOfNext(t, o);
      var b := PreviousBoundary(t, o);
      NextBoundary(t, b);
      RemoveClean(t, b, o);
      if pos.column == 0 {
        LineStart(tab, t, pos);
      }
      ResolvedLine(tab, t, pos);
      EndDenotesNext(tab, t, b);
      assert Remove(t, b, o)[..b] == t[..b];
      DenotesStands(tab, Remove(t, b, o), Backspace(tab, k).state.cursorPosition, b);
    } else {
      assert t[..o] + t[o..] == t;
    }
  }

  /** Column 0 has nothing or a newline before it. */
  lemma LineStart(tab: TabSize, t: seq<byte>, pos: Coordinates)
    requires CleanText(t) && InRange(t, pos) && pos.column == 0
    ensures At(tab, t, pos) > 0 ==> PreviousBoundary(t, At(tab, t, pos)) == At(tab, t, pos) - 1
    ensures At(tab, t, pos) > 0 ==> t[At(tab, t, pos) - 1] == NEWLINE
  {
    var d := Lines(t);
    LinesClean(t);
    FlatLines(t);
    if pos.line == 0 {
      OffsetOrigin(d);
    } else {
      CharAt(d, pos.line - 1, |d[pos.line - 1]|);
    }
  }

  // ---------- Typing ----------

  /** What is entered at `a` of a text cut open there: the parts before and behind it, and its end. */
  lemma EnteredEnd(tab: TabSize, p: seq<byte>, m: seq<byte>, s: seq<byte>)
    requires CleanText(p) && CleanText(m) && CleanText(s)
    ensures var u := p + m + s;
            && CleanText(u) && u[..|p| + |m|] == p + m
            && Stands(tab, u, EndOf(tab, p + m), |p| + |m|)
  {
    hide Lines, Flat, Framed;
    Concat3Clean(p, m, s);
    EndOfInserted(tab, p, m, s);
    DenotesStands(tab, p + m + s, EndOf(tab, p + m), |p| + |m|);
    assert (p + m + s)[..|p| + |m|] == p + m;
  }

  lemma NewlineEntered(tab: TabSize, d: Snapshot, u: UndoRecord, autoIndent: bool)
    requires CleanText(d.text) && d.undoIndex <= |d.undoBuffer|
    ensures var pos := Sanitize(tab, d.text, d.state.cursorPosition);
            InRange(d.text, pos)
    ensures var pos := Sanitize(tab, d.text, d.state.cursorPosition);
            var o, indent := At(tab, d.text, pos), Indentation(autoIndent, d.text, pos);
            var r := NewlineInto(tab, d, u, autoIndent);
            && r.text == d.text[..o] + ([NEWLINE] + indent) + d.text[o..]
            && r.state == d.state.(cursorPosition := r.state.cursorPosition)
            && r.undoIndex == d.undoIndex + 1 == |r.undoBuffer|
            && Stands(tab, r.text, r.state.cursorPosition, o + 1 + |indent|)
  {
    hide Lines, Flat, Framed, Sanitize, EndOf, LeadingBlanks;
    var pos := Sanitize(tab, d.text, d.state.cursorPosition);
    var o, indent := At(tab, d.text, pos), Indentation(autoIndent, d.text, pos);
    CutClean(d.text, o);
    BlanksClean(indent);
    EnteredEnd(tab, d.text[..o], [NEWLINE] + indent, d.text[o..]);
  }

  /** All the blanks that the line starts with. */
  predicate BlanksOf(s: seq<byte>, line: seq<byte>) {
    && s <= line
    && (forall i :: 0 <= i < |s| ==> s[i] == ' ' as int || s[i] == '\t' as int)
    && (|s| < |line| ==> line[|s|] != ' ' as int && line[|s|] != '\t' as int)
  }

  /** Enter puts a newline in the place of the selection and behind it, with auto-indentation, the blanks that
      the line split there starts with; the cursor goes behind them, and nothing is selected. */
  lemma EnterBreaksLine(tab: TabSize, k: Snapshot, shift: bool, overwrite: bool, autoIndent: bool)
    returns (indent: seq<byte>)
    requires StartHolds(tab, k)
    ensures var t, a, b := k.text, SelectionFrom(tab, k), SelectionTo(tab, k);
            var r := EnterCharacter(tab, k, '\n' as int, shift, overwrite, autoIndent);
            var line := EndOf(tab, t[..a]).line;
            && r.text == t[..a] + (['\n' as int] + indent) + t[b..]
            && line < |Lines(t[..a] + t[b..])|
            && (if autoIndent then BlanksOf(indent, Lines(t[..a] + t[b..])[line]) else indent == [])
            && Stands(tab, r.text, r.state.cursorPosition, a + 1 + |indent|)
            && !HasSelection(r.state) && r.undoIndex == k.undoIndex + 1 == |r.undoBuffer|
            && (!HasSelection(k.state) ==> r.state == k.state.(cursorPosition := r.state.cursorPosition))
  {
    hide Lines, Flat, Framed, Sanitize, EndOf, LeadingBlanks, StartOvertaken, Indentation, NewlineInto;
    var pos, a, b := EntryPoint(tab, k);
    var d := DeleteSelection(tab, k);
    indent := IndentationBlanks(autoIndent, d.text, pos);
    NewlineEntered(tab, d, SelectionRecord(tab, k), autoIndent);
    InsertIntoRemoved(k.text, a, b, [NEWLINE] + indent);
    ResolvedLine(tab, d.text, pos);
    assert d.text[..a] == k.text[..a];
  }

  lemma IndentationBlanks(autoIndent: bool, t: seq<byte>, c: Coordinates) returns (s: seq<byte>)
    requires c.line < |Lines(t)|
    ensures s == Indentation(autoIndent, t, c)
    ensures if autoIndent then BlanksOf(s, Lines(t)[c.line]) else s == []
  {
    s := Indentation(autoIndent, t, c);
  }

  lemma EnteredPuts(tab: TabSize, d: Snapshot, t: seq<byte>, o: nat, e: seq<byte>, u: UndoRecord)
    requires CleanText(t) && Boundary(t, o) && CleanText(e) && d.undoIndex <= |d.undoBuffer|
    ensures var r := Entered(tab, d, t, o, e, u);
            && r.text == t[..o] + e + t[o..]
            && r.state == d.state.(cursorPosition := r.state.cursorPosition)
            && r.undoIndex == d.undoIndex + 1 == |r.undoBuffer|
            && Stands(tab, r.text, r.state.cursorPosition, o + |e|)
  {
    hide Lines, Flat, Framed, EndOf;
    CutClean(t, o);
    EnteredEnd(tab, t[..o], e, t[o..]);
  }

  lemma CharacterEntered(tab: TabSize, d: Snapshot, u: UndoRecord, e: seq<byte>, overwrite: bool)
    requires CleanText(d.text) && d.undoIndex <= |d.undoBuffer| && CleanText(e)
    ensures var pos := Sanitize(tab, d.text, d.state.cursorPosition);
            InRange(d.text, pos)
    ensures var pos := Sanitize(tab, d.text, d.state.cursorPosition);
            var o := At(tab, d.text, pos);
            var n := if Overwrites(overwrite, d.text, o) then o + UTF8CharLength(d.text[o]) else o;
            var r := CharacterInto(tab, d, u, e, overwrite);
            && n <= |d.text|
            && r.text == d.text[..o] + e + d.text[n..]
            && r.state == d.state.(cursorPosition := r.state.cursorPosition)
            && r.undoIndex == d.undoIndex + 1 == |r.undoBuffer|
            && Stands(tab, r.text, r.state.cursorPosition, o + |e|)
  {
    hide Lines, Flat, Framed, Sanitize, EndOf, UTF8CharLength, CharacterInto, Entered, Stands;
    var pos := Sanitize(tab, d.text, d.state.cursorPosition);
    var o := At(tab, d.text, pos);
    if Overwrites(overwrite, d.text, o) {
      var n := o + UTF8CharLength(d.text[o]);
      NextBoundary(d.text, o);
      RemoveClean(d.text, o, n);
      var rest, end := Remove(d.text, o, n), EndOf(tab, d.text[..n]);
      OverwriteIs(tab, d, u, e, pos, o, d.text[o..n], end, rest);
      EnteredPuts(tab, Snapshot(rest, d.state, d.undoBuffer, d.undoIndex), rest, o, e,
                  u.(added := e, addedStart := pos, removed := u.removed + d.text[o..n], removedStart := pos,
                     removedEnd := end));
      TakeDrop(d.text[..o], d.text[n..]);
    } else {
      CharacterIs(tab, d, u, e, overwrite, pos);
      EnteredPuts(tab, d, d.text, o, e, u.(added := e, addedStart := pos));
    }
  }

  lemma PrintablePuts(tab: TabSize, k: Snapshot, c: wchar, overwrite: bool)
    requires StartHolds(tab, k) && Typed(c) && c != NEWLINE && ImTextCharToUtf8(c) != []
    ensures var t, a, b := k.text, SelectionFrom(tab, k), SelectionTo(tab, k);
            var e := ImTextCharToUtf8(c);
            var n := if Overwrites(overwrite, t, b) then b + UTF8CharLength(t[b]) else b;
            var r := EnterPrintable(tab, k, c, overwrite);
            && n <= |t| && r.text == t[..a] + e + t[n..]
            && Stands(tab, r.text, r.state.cursorPosition, a + |e|)
            && !HasSelection(r.state) && r.undoIndex == k.undoIndex + 1 == |r.undoBuffer|
            && (!HasSelection(k.state) ==> r.state == k.state.(cursorPosition := r.state.cursorPosition))
  {
    hide Lines, Flat, Framed, Sanitize, EndOf, StartOvertaken, ImTextCharToUtf8, UTF8CharLength, CharacterInto,
         Stands, SelectionRecord;
    var pos, a, b := EntryPoint(tab, k);
    var d := DeleteSelection(tab, k);
    EncodedClean(c);
    CharacterEntered(tab, d, SelectionRecord(tab, k), ImTextCharToUtf8(c), overwrite);
    var n := if Overwrites(overwrite, d.text, a) then a + UTF8CharLength(d.text[a]) else a;
    CutOpen(k.text, a, b, n);
  }

  /** A typed character takes the place of the selection and, when overwriting, of the character behind it,
      unless that is a line break, and the cursor goes behind it; nothing is selected. So does a tab, unless
      the selection spans lines. */
  lemma EnterPutsCharacter(tab: TabSize, k: Snapshot, c: wchar, shift: bool, overwrite: bool, autoIndent: bool)
    requires StartHolds(tab, k) && Typed(c) && c != '\n' as int && ImTextCharToUtf8(c) != []
    requires c == '\t' as int ==> k.state.selectionStart.line >= k.state.selectionEnd.line
    ensures var t, a, b := k.text, SelectionFrom(tab, k), SelectionTo(tab, k);
            var e := ImTextCharToUtf8(c);
            var n := if overwrite && b < |t| && t[b] != '\n' as int then b + UTF8CharLength(t[b]) else b;
            var r := EnterCharacter(tab, k, c, shift, overwrite, autoIndent);
            && n <= |t| && r.text == t[..a] + e + t[n..]
            && Stands(tab, r.text, r.state.cursorPosition, a + |e|)
            && !HasSelection(r.state) && r.undoIndex == k.undoIndex + 1 == |r.undoBuffer|
            && (!HasSelection(k.state) ==> r.state == k.state.(cursorPosition := r.state.cursorPosition))
  {
    hide StartHolds, ImTextCharToUtf8, UTF8CharLength, EnterPrintable, Stands;
    PrintablePuts(tab, k, c, overwrite);
  }

  /** An unencodable character only deletes the selection, without a record. */
  lemma UnencodableDeletes(tab: TabSize, k: Snapshot, c: wchar, shift: bool, overwrite: bool, autoIndent: bool)
    requires Placed(k) && 0xDC00 <= c < 0xE000
    ensures EnterCharacter(tab, k, c, shift, overwrite, autoIndent) ==
            Cut(tab, k).(undoBuffer := k.undoBuffer, undoIndex := k.undoIndex)
  {
    hide Lines, Flat, Framed, Sanitize;
  }

  /** A tab over a selection that spans lines indents them, or takes indentation away with Shift: the
      selected lines, and no others, change. */
  lemma TabIndentsLines(tab: TabSize, k: Snapshot, shift: bool, overwrite: bool, autoIndent: bool, l: nat)
    requires Placed(k) && k.state.selectionStart.line < k.state.selectionEnd.line && l < |Lines(k.text)|
    ensures var d := Lines(k.text);
            var e := Lines(EnterCharacter(tab, k, '\t' as int, shift, overwrite, autoIndent).text);
            && |e| == |d|
            && (!Selects(k.state, l) ==> e[l] == d[l])
            && (Selects(k.state, l) && !shift ==> e[l] == ['\t' as int] + d[l])
            && (Selects(k.state, l) && shift ==> Dedents(tab, d[l], e[l]))
  {
    hide Lines, IndentSelection, Dedents, Selects;
    IndentedLineIs(tab, k, shift, l);
  }

  /** The character behind the selection is the one at the cursor once the selection is gone. */
  lemma CutOpen(t: seq<byte>, a: nat, b: nat, n: nat)
    requires a <= b <= |t| && a <= n <= |t[..a] + t[b..]|
    ensures var d := t[..a] + t[b..];
            && d[..a] == t[..a] && d[n..] == t[b + (n - a)..]
            && (a < |d| <==> b < |t|) && (b < |t| ==> d[a] == t[b])
  {
  }

  // ---------- Pasting ----------

  /** Paste puts the clipboard, without its carriage returns, in the place of the selection and leaves an
      empty selection at the cursor. */
  lemma PastePutsText(tab: TabSize, k: Snapshot, clip: seq<byte>)
    requires StartHolds(tab, k) && CString(clip) && clip != []
    ensures var t, a, b := k.text, SelectionFrom(tab, k), SelectionTo(tab, k);
            var r := Paste(tab, k, clip);
            && r.text == t[..a] + StripReturns(clip) + t[b..] && CleanText(r.text)
            && r.state.selectionStart == r.state.selectionEnd == Sanitize(tab, r.text, r.state.cursorPosition)
            && r.undoIndex == k.undoIndex + 1 == |r.undoBuffer|
  {
    hide Lines, Flat, Framed, Sanitize, StartOvertaken, StripReturns, CountedEnd;
    var pos, a, b := EntryPoint(tab, k);
    InsertIntoRemoved(k.text, a, b, StripReturns(clip));
  }

  /** The cursor, and the empty selection with it, goes no further than behind the pasted text: it resolves to
      that place exactly if inner tabs are narrow, and is its coordinate exactly if all tabs are. */
  lemma PasteMovesCursor(tab: TabSize, k: Snapshot, clip: seq<byte>)
    requires Ready(tab, k) && CString(clip) && clip != []
    ensures var p, m := k.text[..SelectionFrom(tab, k)], StripReturns(clip);
            var r := Paste(tab, k, clip);
            && CleanText(r.text) && InRange(r.text, r.state.cursorPosition)
            && r.state.selectionStart == r.state.cursorPosition
            && At(tab, r.text, r.state.cursorPosition) <= |p| + |m|
            && (At(tab, r.text, r.state.cursorPosition) == |p| + |m| <==> NarrowInnerTabs(tab, p, m))
            && (Stands(tab, r.text, r.state.cursorPosition, |p| + |m|) <==> NarrowTabs(tab, p, m))
  {
    hide Lines, Flat, Framed, Sanitize, EndOf, CountedEnd, StripReturns, NarrowTabs, NarrowInnerTabs, Ready;
    var pos, a, b := InsertionPoint(tab, k);
    var p, s := k.text[..a], k.text[b..];
    var r, u, m := PasteResult(tab, k, clip, pos, a, b);
    CountedStrip(pos, clip);
    Pieces(k.text, a, b);
    CountedResolves(tab, p, m, s);
    CountedIsEnd(tab, p, m);
    EnteredEnd(tab, p, m, s);
    DenotesStands(tab, p + m + s, CountedEnd(pos, m), |p| + |m|);
  }

  // ---------- Typing many characters ----------

  function Encoded(cs: seq<wchar>): seq<byte> {
    if cs == [] then [] else ImTextCharToUtf8(cs[0]) + Encoded(cs[1..])
  }

  /** Typing without overwriting and without auto-indentation. */
  function Keys(cs: seq<wchar>): seq<Operation> {
    if cs == [] then [] else [EnterOp(cs[0], false, false, false)] + Keys(cs[1..])
  }

  ghost predicate Typable(cs: seq<wchar>) {
    forall i :: 0 <= i < |cs| ==> Typed(cs[i]) && ImTextCharToUtf8(cs[i]) != []
  }

  /** Nothing is selected, and the cursor is at offset `o`. */
  ghost predicate CaretAt(tab: TabSize, k: Snapshot, o: nat) {
    && Stands(tab, k.text, k.state.cursorPosition, o)
    && !HasSelection(k.state)
    && k.undoIndex <= |k.undoBuffer|
  }

  /** One key. */
  lemma KeyPuts(tab: TabSize, k: Snapshot, c: wchar)
    requires StartHolds(tab, k) && Typed(c) && ImTextCharToUtf8(c) != [] && !IndentsLines(k, c)
    ensures var a, b := SelectionFrom(tab, k), SelectionTo(tab, k);
            var e := ImTextCharToUtf8(c);
            var r := EnterCharacter(tab, k, c, false, false, false);
            && r.text == k.text[..a] + e + k.text[b..]
            && CaretAt(tab, r, a + |e|)
            && r.undoIndex == k.undoIndex + 1
  {
    hide Stands, ImTextCharToUtf8, EnterCharacter, StartHolds;
    if c == NEWLINE {
      var indent := EnterBreaksLine(tab, k, false, false, false);
      ControlCharacters();
      assert [NEWLINE] + indent == [NEWLINE];
    } else {
      EnterPutsCharacter(tab, k, c, false, false, false);
    }
  }

  lemma ControlCharacters()
    ensures NEWLINE == '\n' as int && ImTextCharToUtf8('\n' as int) == ['\n' as int]
    ensures RETURN == '\r' as int && TAB == '\t' as int && SPACE == ' ' as int
  {
  }

  lemma CaretSelects(tab: TabSize, k: Snapshot, o: nat)
    requires CaretAt(tab, k, o)
    ensures StartHolds(tab, k) && !HasSelection(k.state)
    ensures SelectionFrom(tab, k) == SelectionTo(tab, k) == o <= |k.text|
  {
    SanitizeAligned(tab, k.text, k.state.cursorPosition);
  }

  lemma Spliced(t: seq<byte>, a: nat, b: nat, e: seq<byte>, m: seq<byte>)
    requires a <= b <= |t|
    ensures var u := t[..a] + e + t[b..];
            u[..a + |e|] + m + u[a + |e|..] == t[..a] + (e + m) + t[b..]
  {
    var u := t[..a] + e + t[b..];
    assert u[..a + |e|] == t[..a] + e && u[a + |e|..] == t[b..];
  }

  lemma FirstKey(tab: TabSize, k: Snapshot, cs: seq<wchar>)
    requires cs != [] && Typed(cs[0]) && Placed(k)
    requires UsableRun(tab, EnterCharacter(tab, k, cs[0], false, false, false), Keys(cs[1..]))
    ensures UsableRun(tab, k, Keys(cs))
    ensures Run(tab, k, Keys(cs)) ==
            Run(tab, EnterCharacter(tab, k, cs[0], false, false, false), Keys(cs[1..]))
  {
    hide EnterCharacter, Placed;
    assert Keys(cs)[1..] == Keys(cs[1..]);
  }

  /** Typing any characters, line breaks too, puts their encodings in order in the place of the selection,
      leaves the cursor behind the last one, and records each. */
  lemma {:induction false} TypingPutsText(tab: TabSize, k: Snapshot, cs: seq<wchar>)
    requires StartHolds(tab, k) && Typable(cs) && cs != [] && !IndentsLines(k, cs[0])
    ensures UsableRun(tab, k, Keys(cs))
    ensures var a, b := SelectionFrom(tab, k), SelectionTo(tab, k);
            var r := Run(tab, k, Keys(cs));
            && r.text == k.text[..a] + Encoded(cs) + k.text[b..]
            && CaretAt(tab, r, a + |Encoded(cs)|)
            && r.undoIndex == k.undoIndex + |cs|
    decreases |cs|
  {
    hide ImTextCharToUtf8, StartOvertaken, CaretAt, EnterCharacter, Lines, Flat, Framed, SelectionFrom, SelectionTo,
         Keys, Run, UsableRun;
    var a, b := SelectionFrom(tab, k), SelectionTo(tab, k);
    var e, rest := ImTextCharToUtf8(cs[0]), cs[1..];
    var r := EnterCharacter(tab, k, cs[0], false, false, false);
    KeyPuts(tab, k, cs[0]);
    CaretSelects(tab, r, a + |e|);
    if rest == [] {
      NoKeys(tab, r);
      assert Encoded(cs) == e;
    } else {
      TypingPutsText(tab, r, rest);
      Spliced(k.text, a, b, e, Encoded(rest));
    }
    FirstKey(tab, k, cs);
  }

  lemma NoKeys(tab: TabSize, k: Snapshot)
    ensures UsableRun(tab, k, Keys([])) && Run(tab, k, Keys([])) == k
  {
  }
}
