/** Concrete editors on which the properties fail whose exact conditions the other modules prove. */
module Witnesses {
  import opened Utf8
  import opened Columns
  import opened Documents
  import opened Positions
  import opened Editing
  import opened Records
  import opened ExactEdits
  import opened Pasting
  import opened Inverses
  import opened History
  import opened Reachable
  import opened Applicable
  import opened ColorRange
  import opened LineMoves
  import opened Caret
  import opened Recolouring
  import Comments
  import Tokenizers

  const TAB_SIZE: TabSize := 4

  const SMALL_A: byte := 97
  const SMALL_B: byte := 98

  /** A trailing surrogate, which ImTextCharToUtf8 refuses. */
  const SURROGATE: wchar := 0xDC00

  /** A cursor, and nothing selected. */
  function CursorAt(line: nat, column: nat): EditorState {
    EditorState(ORIGIN, ORIGIN, Coordinates(line, column))
  }

  function Selected(start: Coordinates, end: Coordinates): EditorState {
    EditorState(start, end, end)
  }

  function Fresh(t: seq<byte>, state: EditorState): Snapshot {
    Snapshot(t, state, [], 0)
  }

  /** Coordinates of a text of one line. */
  lemma OneLine(s: seq<byte>, column: nat)
    requires CleanText(s) && NEWLINE !in s
    ensures Lines(s) == [s] && InRange(s, Coordinates(0, column))
    ensures At(TAB_SIZE, s, Coordinates(0, column)) == IndexAt(TAB_SIZE, s, column)
    ensures Sanitize(TAB_SIZE, s, Coordinates(0, column)) ==
            Coordinates(0, if column < MaxColumn(TAB_SIZE, s) then column else MaxColumn(TAB_SIZE, s))
  {
    LinesOfOne(s);
    var i := IndexAt(TAB_SIZE, s, column);
    IndexOfMaxColumn(TAB_SIZE, s, column);
    assert Before([s], 0, i) == [s[..i]];
  }

  lemma AsciiClean(s: seq<byte>)
    requires forall i :: 0 <= i < |s| ==> 0 < s[i] < 0x80 && s[i] != RETURN
    ensures CleanText(s)
  {
    assert forall i :: 0 <= i < |s| ==> CompleteAt(s, i);
  }

  lemma EmptyLine(column: nat)
    ensures Lines([]) == [[]] && IndexAt(TAB_SIZE, [], column) == 0 && MaxColumn(TAB_SIZE, []) == 0
  {
  }

  /** A line that is one tab, four columns wide. */
  lemma TabLine(column: nat)
    ensures MaxColumn(TAB_SIZE, [TAB]) == 4
    ensures IndexAt(TAB_SIZE, [TAB], column) == if column == 0 then 0 else 1
    ensures ColumnAt(TAB_SIZE, [TAB], 0) == 0 && ColumnAt(TAB_SIZE, [TAB], 1) == 4
  {
    var s := [TAB];
    assert UTF8CharLength(s[0]) == 1 && NextColumn(TAB_SIZE, s[0], 0) == 4;
    assert ColumnFrom(TAB_SIZE, s, 1, 4, 1) == 4 && ColumnFrom(TAB_SIZE, s, 0, 0, 1) == 4;
    assert IndexFrom(TAB_SIZE, s, 1, 4, column) == 1;
  }

  // ---------- Backspace, Delete ----------

  lemma TabReady()
    ensures var k := Fresh([TAB], CursorAt(0, 4));
            Ready(TAB_SIZE, k) && WideTabBefore(TAB_SIZE, k)
  {
    AsciiClean([TAB]);
    OneLine([TAB], 4);
    TabLine(4);
    EmptyLine(0);
    var t: seq<byte> := [TAB];
    assert t[..0] == [];
  }

  /** Backspace behind a tab that is four columns wide cannot be undone. */
  lemma BackspaceOverTab() returns (k: Snapshot)
    ensures Ready(TAB_SIZE, k) && WideTabBefore(TAB_SIZE, k)
    ensures !ExactStep(TAB_SIZE, k, Backspace(TAB_SIZE, k))
  {
    k := Fresh([TAB], CursorAt(0, 4));
    TabReady();
    BackspaceExact(TAB_SIZE, k);
  }

  /** A cursor inside the tab that ends a line: Delete reads the character behind the line end. */
  lemma DeleteInsideTab() returns (k: Snapshot)
    ensures CleanSnapshot(k) && Placed(k) && ReadsPastEnd(TAB_SIZE, k) && !Usable(TAB_SIZE, k, DeleteOp)
  {
    k := Fresh([TAB], CursorAt(0, 2));
    AsciiClean([TAB]);
    OneLine([TAB], 2);
    TabLine(2);
  }

  // ---------- Paste and the inverse laws ----------

  /** A tab and a letter: the tab is wide at the start of a line. */
  lemma InnerTab()
    ensures var s := [TAB, SMALL_A];
            CString(s) && StripReturns(s) == s && !NarrowInnerTabs(TAB_SIZE, [], s)
  {
    var s := [TAB, SMALL_A];
    AsciiClean(s);
    StripIdentity(s);
    EmptyLine(0);
    assert s[..0] == [] && [] + s[..0] == [];
    assert NextColumn(TAB_SIZE, TAB, 0) == 4;
    assert s[0] == TAB && NEWLINE !in s[0..];
  }

  lemma EmptyReady()
    ensures Ready(TAB_SIZE, Fresh([], CursorAt(0, 0))) && SelectionFrom(TAB_SIZE, Fresh([], CursorAt(0, 0))) == 0
  {
    AsciiClean([]);
    OneLine([], 0);
    EmptyLine(0);
  }

  /** Pasting a tab and a letter at the start of a line cannot be undone. */
  lemma PasteInnerTab() returns (k: Snapshot, clip: seq<byte>)
    ensures Ready(TAB_SIZE, k) && CString(clip) && !PasteRecorded(TAB_SIZE, k, clip)
    ensures !ExactStep(TAB_SIZE, k, Paste(TAB_SIZE, k, clip))
  {
    k, clip := Fresh([], CursorAt(0, 0)), [TAB, SMALL_A];
    InnerTab();
    EmptyReady();
    assert k.text[..0] == [];
    PasteExact(TAB_SIZE, k, clip);
  }

  /** Nor does deleting the same insertion restore the document. */
  lemma DeleteMissesInsertion() returns (t: seq<byte>, c: Coordinates, s: seq<byte>)
    ensures CleanText(t) && Aligned(TAB_SIZE, t, c) && CString(s)
    ensures CanDelete(InsertTextAt(TAB_SIZE, t, c, s), c, CountedEnd(c, s))
    ensures DeleteRange(TAB_SIZE, InsertTextAt(TAB_SIZE, t, c, s), c, CountedEnd(c, s)) != t
  {
    t, c, s := [], ORIGIN, [TAB, SMALL_A];
    InnerTab();
    EmptyReady();
    OneLine([], 0);
    assert t[..0] == [];
    DeleteUndoesInsert(TAB_SIZE, t, c, s);
  }

  /** A deletion that starts beyond the end of an empty line: the rest of the next line overtakes it. */
  lemma InsertMissesDeletion() returns (t: seq<byte>, a: Coordinates, b: Coordinates)
    ensures CleanText(t) && InRange(t, a) && InRange(t, b) && a.AtMost(b)
    ensures StartOvertaken(TAB_SIZE, t, a, b)
    ensures InRange(DeleteRange(TAB_SIZE, t, a, b), a) && CString(TextBetween(TAB_SIZE, t, a, b))
    ensures InsertTextAt(TAB_SIZE, DeleteRange(TAB_SIZE, t, a, b), a, TextBetween(TAB_SIZE, t, a, b)) != t
  {
    t, a, b := [NEWLINE, SMALL_A], Coordinates(0, 1), Coordinates(1, 0);
    TwoLines();
    InsertUndoesDelete(TAB_SIZE, t, a, b);
  }

  lemma TwoLines()
    ensures var t: seq<byte> := [NEWLINE, SMALL_A];
            && CleanText(t) && Lines(t) == [[], [SMALL_A]]
            && At(TAB_SIZE, t, Coordinates(0, 1)) == 0 && At(TAB_SIZE, t, Coordinates(1, 0)) == 1
  {
    var t: seq<byte> := [NEWLINE, SMALL_A];
    AsciiClean(t);
    LinesOfOne([SMALL_A]);
    assert t[1..] == [SMALL_A];
    var d := Lines(t);
    assert d == [[], [SMALL_A]];
    EmptyLine(1);
    assert Before(d, 0, 0) == [[]];
    assert Before(d, 1, 0) == [[], []];
    var two: Document := [[], []];
    assert two[1..] == [[]];
    assert Flat(two) == [NEWLINE];
    assert IndexAt(TAB_SIZE, d[1], 0) == 0;
  }

  // ---------- Typing ----------

  /** A line of one blank or letter. */
  lemma OneCharacter(c: byte)
    requires c == SPACE || c == SMALL_A
    ensures MaxColumn(TAB_SIZE, [c]) == 1 && ColumnAt(TAB_SIZE, [c], 1) == 1 && ColumnAt(TAB_SIZE, [c], 0) == 0
    ensures IndexAt(TAB_SIZE, [c], 0) == 0 && IndexAt(TAB_SIZE, [c], 1) == 1
  {
    var s := [c];
    assert UTF8CharLength(s[0]) == 1 && NextColumn(TAB_SIZE, s[0], 0) == 1;
    assert ColumnFrom(TAB_SIZE, s, 1, 1, 1) == 1 && ColumnFrom(TAB_SIZE, s, 0, 0, 1) == 1;
    assert IndexFrom(TAB_SIZE, s, 1, 1, 1) == 1;
  }

  /** Breaking a line behind a blank copies the blank, and the break cannot be redone. */
  lemma BreakBehindBlank() returns (k: Snapshot)
    ensures Ready(TAB_SIZE, k) && CopiedIndentation(TAB_SIZE, k, true) == [SPACE]
    ensures !ExactStep(TAB_SIZE, k, EnterNewline(TAB_SIZE, k, true))
  {
    k := Fresh([SPACE], CursorAt(0, 1));
    AsciiClean([SPACE]);
    OneLine([SPACE], 1);
    OneCharacter(SPACE);
    assert LeadingBlanks([SPACE]) == [SPACE] by { assert [SPACE][1..] == []; }
    EnterNewlineExact(TAB_SIZE, k, true);
  }

  /** The first character of a line selected. */
  lemma FirstSelected(s: seq<byte>)
    requires s == [SMALL_A] || s == [SMALL_A, SMALL_B] || s == [SMALL_A, TAB]
    ensures var k := Fresh(s, Selected(ORIGIN, Coordinates(0, 1)));
            Ready(TAB_SIZE, k) && SelectionTo(TAB_SIZE, k) == 1
  {
    AsciiClean(s);
    OneLine(s, 0);
    OneLine(s, 1);
    assert s[0] == SMALL_A && UTF8CharLength(s[0]) == 1 && NextColumn(TAB_SIZE, s[0], 0) == 1;
    assert IndexFrom(TAB_SIZE, s, 1, 1, 1) == 1 && ColumnFrom(TAB_SIZE, s, 1, 1, 1) == 1;
    assert IndexAt(TAB_SIZE, s, 1) == 1 && ColumnAt(TAB_SIZE, s, 1) == 1;
    ColumnMonotone(TAB_SIZE, s, 0, |s|);
    if |s| > 1 {
      assert Boundary(s, 1);
      ColumnMonotone(TAB_SIZE, s, 1, |s|);
    }
  }

  /** An unencodable character over a selection deletes it without a record. */
  lemma UnencodableOverSelection() returns (k: Snapshot)
    ensures Ready(TAB_SIZE, k) && !CharacterRecorded(TAB_SIZE, k, SURROGATE, false)
    ensures !ExactStep(TAB_SIZE, k, EnterPrintable(TAB_SIZE, k, SURROGATE, false))
  {
    k := Fresh([SMALL_A], Selected(ORIGIN, Coordinates(0, 1)));
    FirstSelected([SMALL_A]);
    EnterPrintableExact(TAB_SIZE, k, SURROGATE, false);
  }

  /** Overwriting a letter right behind a selection records the wrong end of the removed text. */
  lemma OverwriteBehindSelection() returns (k: Snapshot)
    ensures Ready(TAB_SIZE, k) && !CharacterRecorded(TAB_SIZE, k, SMALL_A, true)
    ensures !ExactStep(TAB_SIZE, k, EnterPrintable(TAB_SIZE, k, SMALL_A, true))
  {
    k := Fresh([SMALL_A, SMALL_B], Selected(ORIGIN, Coordinates(0, 1)));
    FirstSelected([SMALL_A, SMALL_B]);
    EnterPrintableExact(TAB_SIZE, k, SMALL_A, true);
  }

  /** Overwriting a tab there is recorded fully when the tab takes the place of the whole selection. */
  lemma OverwriteSwallowingTab() returns (k: Snapshot)
    ensures Ready(TAB_SIZE, k) && HasSelection(k.state) && TabSwallowsSelection(TAB_SIZE, k)
    ensures ExactStep(TAB_SIZE, k, EnterPrintable(TAB_SIZE, k, SMALL_A, true))
  {
    k := Fresh([SMALL_A, TAB], Selected(ORIGIN, Coordinates(0, 1)));
    FirstSelected([SMALL_A, TAB]);
    assert NextColumn(TAB_SIZE, TAB, 0) == 4;
    EnterPrintableExact(TAB_SIZE, k, SMALL_A, true);
  }

  // ---------- Recolouring ----------

  /** A typed letter that is undone and redone while nothing waits for recolouring: Redo does not ask
      for its line. */
  lemma RedoneLetterStaysPlain() returns (k: Snapshot, u: UndoRecord)
    ensures Ready(TAB_SIZE, k) && EnterPrintable(TAB_SIZE, k, SMALL_A as wchar, false).undoBuffer == [u]
    ensures CanRedoRecord(TAB_SIZE, k.text, u) && RedoText(TAB_SIZE, k.text, u) == [SMALL_A]
    ensures !Pending(AllWidened(SENTINEL, RedoneMoves(|Lines(k.text)|, u)), 0)
  {
    k := Fresh([], CursorAt(0, 0));
    EmptyReady();
    OneLine([], 0);
    var after := EnterPrintable(TAB_SIZE, k, SMALL_A as wchar, false);
    u := after.undoBuffer[0];
    AsciiClean([SMALL_A]);
    OneLine([SMALL_A], 0);
    var text: seq<byte> := [];
    assert Insert(text, 0, [SMALL_A]) == [SMALL_A];
    assert u.addedEnd == EndOf(TAB_SIZE, after.text[..1]) && after.text[..1] == [SMALL_A];
    assert u.addedEnd.line == 0 && u.addedStart.line == 0;
  }

  /** A letter that is deleted, brought back and deleted again: Redo does not ask for its line. */
  lemma RedoneDeletionStaysPlain() returns (k: Snapshot, u: UndoRecord)
    ensures Ready(TAB_SIZE, k) && Delete(TAB_SIZE, k).undoBuffer == [u] && u.added == []
    ensures CanRedoRecord(TAB_SIZE, k.text, u) && RedoText(TAB_SIZE, k.text, u) == []
    ensures !Pending(AllWidened(SENTINEL, RedoneMoves(|Lines(k.text)|, u)), 0)
  {
    var t: seq<byte> := [SMALL_A];
    k := Fresh(t, CursorAt(0, 0));
    AsciiClean(t);
    OneLine(t, 0);
    OneLine(t, 1);
    OneCharacter(SMALL_A);
    assert Remove(t, 0, 1) == [] && t[0..1] == t;
    u := Delete(TAB_SIZE, k).undoBuffer[0];
    assert u.removed == t;
    RedoDeletion(SENTINEL, 1, u);
  }

  const DELETED_BREAK :=
    UndoRecord([], ORIGIN, ORIGIN, [NEWLINE], ORIGIN, Coordinates(1, 0), CursorAt(0, 0), CursorAt(0, 0))

  /** Delete the first of two blank lines. */
  lemma JoinBlankLines() returns (k: Snapshot)
    ensures k == Fresh(Newlines(2), CursorAt(0, 0)) && Tracked(k) && Permitted(TAB_SIZE, k, DeleteOp)
    ensures Usable(TAB_SIZE, k, DeleteOp) && Tracked(Step(TAB_SIZE, k, DeleteOp))
    ensures Step(TAB_SIZE, k, DeleteOp) == Snapshot(Newlines(1), CursorAt(0, 0), [DELETED_BREAK], 1)
  {
    hide Flat, Framed;
    k := Fresh(Newlines(2), CursorAt(0, 0));
    BlankLines(2);
    BlankLineStart(2, 0);
    ClearedTracked(k);
    ReadsPastEndIff(TAB_SIZE, k);
    FirstBlankLine();
    StepNeverStuck(TAB_SIZE, k, DeleteOp);
    assert Remove(Newlines(2), 0, 1) == Newlines(1);
  }

  lemma FirstBlankLine()
    ensures Lines(Newlines(2))[0] == []
  {
  }

  /** A letter is typed at the start of the second of two blank lines. */
  lemma TypeInSecondLine(k: Snapshot) returns (u: UndoRecord)
    requires k.text == Newlines(1) && k.state == CursorAt(1, 0) && k.undoIndex == |k.undoBuffer|
    ensures Usable(TAB_SIZE, k, TYPE_LETTER)
    ensures Step(TAB_SIZE, k, TYPE_LETTER).undoBuffer == k.undoBuffer + [u]
    ensures Step(TAB_SIZE, k, TYPE_LETTER).undoIndex == k.undoIndex + 1
    ensures |Lines(Step(TAB_SIZE, k, TYPE_LETTER).text)| == 2
    ensures u.added == [SMALL_A] && u.removed == []
    ensures u.addedStart == Coordinates(1, 0) && u.addedEnd.line == 1
  {
    hide Lines, Flat, Framed;
    BlankLines(1);
    BlankLineStart(1, 1);
    var r := Step(TAB_SIZE, k, TYPE_LETTER);
    u := r.undoBuffer[k.undoIndex];
    var text := Newlines(1) + [SMALL_A];
    assert Insert(Newlines(1), 1, [SMALL_A]) == text && text[..2] == text;
    CountAppend(Newlines(1), [SMALL_A]);
    CountOne(SMALL_A);
    EndLine(TAB_SIZE, text);
    CountIsLines(text);
  }

  const TYPE_LETTER := EnterOp(SMALL_A as wchar, false, false, false)

  /** A line break is deleted, and a letter typed in the line below. Undo(2), while nothing waits: the first
      step asks for the line of the letter, and the second one moves it beyond the range. */
  lemma UndoneLineMovesAway() returns (k: Snapshot, ops: seq<Operation>)
    ensures Tracked(k) && ops == [DeleteOp, MoveOp(CursorAt(1, 0)), TYPE_LETTER] && PermittedRun(TAB_SIZE, k, ops)
    ensures UsableRun(TAB_SIZE, k, ops)
    ensures var r := Run(TAB_SIZE, k, ops);
            && Tracked(r) && Usable(TAB_SIZE, r, UndoOp(2))
            && var ms := UndoMoves(|Lines(r.text)|, r.undoBuffer, r.undoIndex, 2);
               && |ms| == 2 && Rewrites(ms[0], 1) && Pending(AllWidened(SENTINEL, ms[..1]), 1)
               && Survives(ms[1..], 1) && Images(ms[1..], 1) == 2 && !Pending(AllWidened(SENTINEL, ms), 2)
  {
    hide Lines, Flat, Framed, Step, Tracked, Permitted, Usable;
    k := JoinBlankLines();
    var k1 := Step(TAB_SIZE, k, DeleteOp);
    MoveDown(k1);
    var k2 := Step(TAB_SIZE, k1, MoveOp(CursorAt(1, 0)));
    var u := TypeInSecondLine(k2);
    LetterPermitted(k2);
    var r := Step(TAB_SIZE, k2, TYPE_LETTER);
    StepNeverStuck(TAB_SIZE, k2, TYPE_LETTER);
    PermittedCons(k2, TYPE_LETTER, []);
    PermittedCons(k1, MoveOp(CursorAt(1, 0)), [TYPE_LETTER] + []);
    PermittedCons(k, DeleteOp, [MoveOp(CursorAt(1, 0))] + ([TYPE_LETTER] + []));
    ops := [DeleteOp] + ([MoveOp(CursorAt(1, 0))] + ([TYPE_LETTER] + []));
    CanUndoTwice(r);
    TwoUndone(r.undoBuffer, u);
  }

  lemma MoveDown(k: Snapshot)
    requires Tracked(k)
    ensures var op := MoveOp(CursorAt(1, 0));
            && Permitted(TAB_SIZE, k, op) && Usable(TAB_SIZE, k, op) && Tracked(Step(TAB_SIZE, k, op))
            && Step(TAB_SIZE, k, op) == k.(state := CursorAt(1, 0))
  {
    hide Lines;
    StepNeverStuck(TAB_SIZE, k, MoveOp(CursorAt(1, 0)));
  }

  lemma LetterPermitted(k: Snapshot)
    requires !HasSelection(k.state)
    ensures Permitted(TAB_SIZE, k, TYPE_LETTER)
  {
    hide Lines;
  }

  lemma CanUndoTwice(r: Snapshot)
    requires Tracked(r)
    ensures Usable(TAB_SIZE, r, UndoOp(2))
  {
    hide Lines, Tracked, Undo;
    UndoNeverStuck(TAB_SIZE, r, 2);
  }

  lemma PermittedCons(k: Snapshot, op: Operation, ops: seq<Operation>)
    requires Tracked(k) && Permitted(TAB_SIZE, k, op)
    requires Usable(TAB_SIZE, k, op) && PermittedRun(TAB_SIZE, Step(TAB_SIZE, k, op), ops)
    requires UsableRun(TAB_SIZE, Step(TAB_SIZE, k, op), ops)
    ensures PermittedRun(TAB_SIZE, k, [op] + ops) && UsableRun(TAB_SIZE, k, [op] + ops)
    ensures Run(TAB_SIZE, k, [op] + ops) == Run(TAB_SIZE, Step(TAB_SIZE, k, op), ops)
  {
    hide Usable, Step, Permitted, Tracked;
    assert ([op] + ops)[1..] == ops;
  }

  /** The steps of Undo(2) for the two records. */
  lemma TwoUndone(buffer: seq<UndoRecord>, u: UndoRecord)
    requires buffer == [DELETED_BREAK, u] && u.added == [SMALL_A] && u.removed == []
    requires u.addedStart == Coordinates(1, 0) && u.addedEnd.line == 1
    ensures var ms := UndoMoves(2, buffer, 2, 2);
            && |ms| == 2 && Rewrites(ms[0], 1) && Pending(AllWidened(SENTINEL, ms[..1]), 1)
            && Survives(ms[1..], 1) && Images(ms[1..], 1) == 2 && !Pending(AllWidened(SENTINEL, ms), 2)
  {
    var letter, linebreak := Joined(1, 0, 0, 2), Broken(0, 1, -1, 2);
    CountOne(NEWLINE);
    assert UndoMoves(2, buffer, 0, 0) == [];
    assert UndoneMoves(2, u) == [letter];
    assert UndoneMoves(2, DELETED_BREAK) == [linebreak];
    assert UndoMoves(2, buffer, 1, 1) == [linebreak];
    var ms := UndoMoves(2, buffer, 2, 2);
    assert ms == [letter, linebreak] && ms[..1] == [letter] && ms[1..] == [linebreak] && [linebreak][1..] == [];
    OneWidened(SENTINEL, letter);
    OneWidened(Range(0, 2), linebreak);
    assert AllWidened(SENTINEL, ms) == AllWidened(Range(0, 2), [linebreak]);
  }

  /** The blank line and the first letter of a text, selected. */
  lemma BreakSelected()
    ensures var t: seq<byte> := [NEWLINE, SMALL_A, SMALL_B];
            && CleanText(t) && Lines(t) == [[], [SMALL_A, SMALL_B]]
            && At(TAB_SIZE, t, ORIGIN) == 0 && At(TAB_SIZE, t, Coordinates(1, 1)) == 2
            && Remove(t, 0, 2) == [SMALL_B]
  {
    var t: seq<byte> := [NEWLINE, SMALL_A, SMALL_B];
    var s := [SMALL_A, SMALL_B];
    AsciiClean(t);
    LinesOfOne(s);
    assert t[1..] == s;
    var d := Lines(t);
    assert d == [[], s];
    EmptyLine(0);
    assert Before(d, 0, 0) == [[]];
    assert UTF8CharLength(s[0]) == 1 && NextColumn(TAB_SIZE, s[0], 0) == 1;
    assert IndexFrom(TAB_SIZE, s, 1, 1, 1) == 1;
    assert IndexAt(TAB_SIZE, d[1], 1) == 1;
    assert Before(d, 1, 1) == [[], [SMALL_A]];
    var two: Document := [[], [SMALL_A]];
    assert two[1..] == [[SMALL_A]];
    assert Flat(two) == [NEWLINE, SMALL_A];
  }

  /** A letter typed over another one behind a selected line break: the record has the wrong end, and Undo
      does not ask for the second line. */
  lemma UndoneOverwriteStaysPlain() returns (k: Snapshot, u: UndoRecord)
    ensures Placed(k) && EnterPrintable(TAB_SIZE, k, SMALL_A as wchar, true).undoBuffer == [u]
    ensures CanUndoIn(1, u) && !EndsOnLastLine(u.removed, u.removedStart, u.removedEnd)
    ensures var ms := UndoneMoves(1, u);
            |ms| == 2 && Rewrites(ms[1], 1) && !Pending(AllWidened(SENTINEL, ms), 1)
  {
    hide Lines, Flat, Framed;
    k := Fresh([NEWLINE, SMALL_A, SMALL_B], Selected(ORIGIN, Coordinates(1, 1)));
    BreakSelected();
    var b: seq<byte> := [SMALL_B];
    AsciiClean(b);
    OneLine(b, 0);
    EmptyLine(0);
    var d := DeleteSelection(TAB_SIZE, k);
    assert d.text == b && d.state == CursorAt(0, 0);
    OverwriteStep(TAB_SIZE, d, SelectionRecord(TAB_SIZE, k), [SMALL_A], ORIGIN, 0, 1);
    u := EnterPrintable(TAB_SIZE, k, SMALL_A as wchar, true).undoBuffer[0];
    assert b[0..1] == b && b[..1] == b;
    assert u.removed == [NEWLINE, SMALL_A] + b;
    assert Insert(Remove(b, 0, 1), 0, [SMALL_A])[..1] == [SMALL_A];
    EndLine(TAB_SIZE, b);
    EndLine(TAB_SIZE, [SMALL_A]);
    CountOne(SMALL_A);
    CountOne(SMALL_B);
    WrongEndMisses(u);
  }

  lemma WrongEndMisses(u: UndoRecord)
    requires u.added == [SMALL_A] && u.addedStart == ORIGIN && u.addedEnd.line == 0
    requires u.removed == [NEWLINE, SMALL_A] + [SMALL_B] && u.removedStart == ORIGIN && u.removedEnd.line == 0
    ensures CanUndoIn(1, u) && !EndsOnLastLine(u.removed, u.removedStart, u.removedEnd)
    ensures var ms := UndoneMoves(1, u);
            |ms| == 2 && Rewrites(ms[1], 1) && !Pending(AllWidened(SENTINEL, ms), 1)
  {
    CountThree();
    SecondHalf(1, u.added, u.addedStart, u.addedEnd, u.removed, u.removedStart, u.removedEnd, 2, 1, 1);
    SwapAsks(SENTINEL, 1, u.added, u.addedStart, u.addedEnd, u.removed, u.removedStart, u.removedEnd, 2, 1, 1);
  }

  lemma CountThree()
    ensures CountNewlines([NEWLINE, SMALL_A] + [SMALL_B]) == 1
  {
    CountOne(SMALL_A);
    CountOne(SMALL_B);
    CountAppend([NEWLINE, SMALL_A], [SMALL_B]);
    CountAppend([NEWLINE], [SMALL_A]);
    CountOne(NEWLINE);
    assert [NEWLINE] + [SMALL_A] == [NEWLINE, SMALL_A];
  }

  /** A quotation mark and a backslash: the comment pass takes a byte behind the end of the line along. */
  lemma StringRunsOver() returns (d: Document)
    ensures CleanDocument(d) && Comments.Overruns(d, 0)
  {
    var s: seq<byte> := [Tokenizers.QUOTE, Tokenizers.BACKSLASH];
    d := [s];
    AsciiClean(s);
    assert Comments.StateAt(d, 0, 0) == Comments.INITIAL;
    assert Comments.StateAt(d, 0, 1) == Comments.Visit(s, 0, Comments.INITIAL);
  }

  // ---------- Moving ----------

  /** Two letters per line; from the end of the first line, two moves to the right go one character too far. */
  lemma MoveRightGoesTooFar() returns (t: seq<byte>, w: Walk)
    ensures CleanText(t) && InRange(t, w.cursor) && InStep(TAB_SIZE, Lines(t), w) && !w.stopped
    ensures !StaysInLines(TAB_SIZE, t, w.cursor, 1)
    ensures RightSteps(TAB_SIZE, Lines(t), w, 2).cursor == Coordinates(1, 2)
    ensures RightTimes(TAB_SIZE, t, w.cursor, 2) == Coordinates(1, 1)
  {
    t, w := [SMALL_A, NEWLINE, SMALL_A, SMALL_B], Walk(Coordinates(0, 1), 1, false);
    var s, one: seq<byte>, d: Document := [SMALL_A, SMALL_B], [SMALL_A], [[SMALL_A], [SMALL_A, SMALL_B]];
    AsciiClean(t);
    LinesOfOne(one);
    LinesOfOne(s);
    assert t == one + ([NEWLINE] + s);
    assert ([NEWLINE] + s)[1..] == s;
    assert Lines([NEWLINE] + s) == [[], s];
    LinesAppend(one, [NEWLINE] + s);
    assert Lines(t) == d by { assert one + [] == one; }
    OneCharacter(SMALL_A);
    TwoCharacters();
    var v := Walk(Coordinates(1, 0), 1, false);
    assert RightStep(TAB_SIZE, d, w) == v;
    assert RightStep(TAB_SIZE, d, v) == Walk(Coordinates(1, 2), 2, false);
    assert RightSteps(TAB_SIZE, d, v, 1) == RightStep(TAB_SIZE, d, v);
    assert RightSteps(TAB_SIZE, d, w, 2) == RightSteps(TAB_SIZE, d, v, 1);
    var u := Walk(Coordinates(1, 0), 0, false);
    StepInStep(TAB_SIZE, t, w);
    StepInStep(TAB_SIZE, t, u);
    RightInStep(TAB_SIZE, t, u, 1);
    assert RightTimes(TAB_SIZE, t, w.cursor, 2) == RightTimes(TAB_SIZE, t, u.cursor, 1);
    assert RightSteps(TAB_SIZE, d, u, 1) == RightStep(TAB_SIZE, d, u) == Walk(Coordinates(1, 1), 1, false);
    LeavesFirst(t, w.cursor);
  }

  lemma LeavesFirst(t: seq<byte>, c: Coordinates)
    requires CleanText(t) && InRange(t, c) && LeavesLine(TAB_SIZE, t, c)
    ensures !StaysInLines(TAB_SIZE, t, c, 1)
  {
  }

  lemma TwoCharacters()
    ensures var s := [SMALL_A, SMALL_B];
            && IndexAt(TAB_SIZE, s, 0) == 0 && ColumnAt(TAB_SIZE, s, 1) == 1 && ColumnAt(TAB_SIZE, s, 2) == 2
  {
    var s := [SMALL_A, SMALL_B];
    assert UTF8CharLength(s[0]) == UTF8CharLength(s[1]) == 1;
    assert NextColumn(TAB_SIZE, s[0], 0) == 1 && NextColumn(TAB_SIZE, s[1], 1) == 2;
    assert ColumnFrom(TAB_SIZE, s, 2, 2, 2) == 2 && ColumnFrom(TAB_SIZE, s, 1, 1, 2) == 2;
    assert ColumnFrom(TAB_SIZE, s, 1, 1, 1) == 1;
  }

  // ---------- A selection that outlives its text ----------

  /** SetText clears the history and keeps the selection: with a selection of three lines and a text of one,
      no edit finds the lines it would delete. */
  lemma SelectionOutlivesText() returns (k: Snapshot)
    ensures k == Fresh([SMALL_A], Selected(ORIGIN, Coordinates(2, 0)))
    ensures CleanText(k.text) && HasSelection(k.state) && !Tracked(k) && !Usable(TAB_SIZE, k, DeleteOp)
  {
    k := Fresh([SMALL_A], Selected(ORIGIN, Coordinates(2, 0)));
    AsciiClean([SMALL_A]);
    OneLine([SMALL_A], 0);
    ClearedTracked(k);
  }

  // ---------- A run that gets stuck ----------

  function Newlines(n: nat): (r: seq<byte>)
    ensures |r| == n && forall i :: 0 <= i < n ==> r[i] == NEWLINE
  {
    seq(n, _ => NEWLINE)
  }

  lemma {:induction false} BlankLines(n: nat)
    ensures CleanText(Newlines(n)) && CountNewlines(Newlines(n)) == n && |Lines(Newlines(n))| == n + 1
    ensures EndOf(TAB_SIZE, Newlines(n)) == Coordinates(n, 0)
  {
    var t := Newlines(n);
    AsciiClean(t);
    if n == 0 {
      EmptyLine(0);
    } else {
      BlankLines(n - 1);
      assert t == Newlines(n - 1) + [NEWLINE];
      CountAppend(Newlines(n - 1), [NEWLINE]);
      CountOne(NEWLINE);
      EndAfterSequence(TAB_SIZE, Newlines(n - 1), [NEWLINE]);
    }
    CountIsLines(t);
  }

  lemma BlankLineStart(n: nat, l: nat)
    requires l <= n
    ensures CleanText(Newlines(n)) && InRange(Newlines(n), Coordinates(l, 0))
    ensures At(TAB_SIZE, Newlines(n), Coordinates(l, 0)) == l
    ensures Sanitize(TAB_SIZE, Newlines(n), Coordinates(l, 0)) == Coordinates(l, 0)
  {
    hide Lines, Flat, Framed;
    BlankLines(n);
    var o := At(TAB_SIZE, Newlines(n), Coordinates(l, 0));
    NewlinesBefore(TAB_SIZE, Newlines(n), Coordinates(l, 0));
    BlankLines(o);
    assert Newlines(n)[..o] == Newlines(o);
  }

  /** A line break at the end of blank lines. */
  lemma BreakBlankLine(k: Snapshot, n: nat)
    requires k.text == Newlines(n) && k.state == CursorAt(n, 0) && k.undoIndex <= |k.undoBuffer|
    ensures Usable(TAB_SIZE, k, BREAK)
    ensures var r := Step(TAB_SIZE, k, BREAK);
            && r.text == Newlines(n + 1) && r.state == CursorAt(n + 1, 0)
            && r.undoIndex == k.undoIndex + 1 == |r.undoBuffer|
            && r.undoBuffer[k.undoIndex].added == [NEWLINE]
            && r.undoBuffer[k.undoIndex].addedStart == Coordinates(n, 0)
            && r.undoBuffer[k.undoIndex].addedEnd == Coordinates(n + 1, 0)
  {
    hide Lines, Flat, Framed;
    BlankLines(n);
    BlankLines(n + 1);
    BlankLineStart(n, n);
    assert Insert(Newlines(n), n, [NEWLINE] + []) == Newlines(n + 1);
    assert Newlines(n + 1)[..n + 1] == Newlines(n + 1);
  }

  const BREAK := EnterOp(NEWLINE, false, false, false)

  const SELECT_ALL := MoveOp(Selected(ORIGIN, Coordinates(2, 0)))

  const TYPE_SURROGATE := EnterOp(SURROGATE, false, false, false)

  /** An unencodable character typed over two selected blank lines. */
  lemma LoseBlankLines(k: Snapshot)
    requires k.text == Newlines(2) && k.state == Selected(ORIGIN, Coordinates(2, 0))
    requires k.undoIndex <= |k.undoBuffer|
    ensures Usable(TAB_SIZE, k, TYPE_SURROGATE) && LosesLines(k, SURROGATE)
    ensures var r := Step(TAB_SIZE, k, TYPE_SURROGATE);
            r.text == [] && r.undoBuffer == k.undoBuffer && r.undoIndex == k.undoIndex
  {
    hide Lines, Flat, Framed;
    BlankLineStart(2, 0);
    BlankLineStart(2, 2);
    assert Remove(Newlines(2), 0, 2) == [];
  }

  lemma RunCons(k: Snapshot, op: Operation, ops: seq<Operation>)
    requires Usable(TAB_SIZE, k, op) && UsableRun(TAB_SIZE, Step(TAB_SIZE, k, op), ops)
    ensures UsableRun(TAB_SIZE, k, [op] + ops)
    ensures Run(TAB_SIZE, k, [op] + ops) == Run(TAB_SIZE, Step(TAB_SIZE, k, op), ops)
  {
    hide Usable, Step;
    assert ([op] + ops)[1..] == ops;
  }

  /** The one way to get stuck: two line breaks, then an unencodable character over everything. The text
      has one line left, and Undo meets a record of a break between the lines 1 and 2. */
  lemma LostLinesGetStuck() returns (k: Snapshot, ops: seq<Operation>)
    ensures k == Fresh([], CursorAt(0, 0))
    ensures ops == [BREAK, BREAK, SELECT_ALL, TYPE_SURROGATE]
    ensures UsableRun(TAB_SIZE, k, ops) && CleanSnapshot(Run(TAB_SIZE, k, ops))
    ensures Undo(TAB_SIZE, Run(TAB_SIZE, k, ops), 1).None?
    ensures !Usable(TAB_SIZE, Run(TAB_SIZE, k, ops), UndoOp(1))
  {
    hide Lines, Flat, Framed, Step, Undo;
    k := Fresh([], CursorAt(0, 0));
    assert [] == Newlines(0);
    BlankLines(0);
    BreakBlankLine(k, 0);
    var k1 := Step(TAB_SIZE, k, BREAK);
    BreakBlankLine(k1, 1);
    var k2 := Step(TAB_SIZE, k1, BREAK);
    var k3 := Step(TAB_SIZE, k2, SELECT_ALL);
    SelectsAll(k2);
    LoseBlankLines(k3);
    var k4 := Step(TAB_SIZE, k3, TYPE_SURROGATE);
    RunCons(k3, TYPE_SURROGATE, []);
    RunCons(k2, SELECT_ALL, [TYPE_SURROGATE] + []);
    RunCons(k1, BREAK, [SELECT_ALL] + ([TYPE_SURROGATE] + []));
    ops := [BREAK] + ([BREAK] + ([SELECT_ALL] + ([TYPE_SURROGATE] + [])));
    RunCons(k, BREAK, [BREAK] + ([SELECT_ALL] + ([TYPE_SURROGATE] + [])));
    RunKeepsClean(TAB_SIZE, k, ops);
    StepApplicable(TAB_SIZE, k4);
  }

  lemma SelectsAll(k: Snapshot)
    ensures Usable(TAB_SIZE, k, SELECT_ALL)
    ensures Step(TAB_SIZE, k, SELECT_ALL) == k.(state := Selected(ORIGIN, Coordinates(2, 0)))
  {
  }
}
