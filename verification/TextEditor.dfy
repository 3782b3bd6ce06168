/** The text editor: a mutable buffer of lines, with cursor, selection and undo buffer. */
module Editor {
  import opened Utf8
  import opened Columns
  import opened Documents
  import opened Positions
  import opened Glyphs
  import opened Buffer
  import Editing
  import Words
  import Pasting
  import EditSteps
  import Indenting
  import Caret
  import Edits = History
  import opened ColorRange
  import opened LineMoves
  import Recolouring
  import Applicable
  import Coloring
  import Comments
  import Tokenizers

  type EditorState = Editing.EditorState
  type UndoRecord = Editing.UndoRecord
  type Snapshot = Editing.Snapshot

  /** `result` is the text of `d` from offset `o` up to index `i` of line `l`; beyond the last line
      it has one more newline. */
  ghost predicate ReadSoFar(d: Document, o: nat, l: nat, i: int, result: seq<byte>) {
    && |d| > 0
    && l <= |d|
    && (if l < |d| then
          0 <= i <= |d[l]| && o <= Offset(d, l, i) <= |Flat(d)| && result == Flat(d)[o..Offset(d, l, i)]
        else i == 0 && o <= |Flat(d)| && result == Flat(d)[o..] + [NEWLINE])
  }

  /** The first line from `l` on with at least `j` characters. */
  function FirstLong(d: Document, l: nat, j: nat): (m: nat)
    requires l <= |d|
    ensures l <= m <= |d| && (m < |d| ==> j <= |d[m]|)
    decreases |d| - l
  {
    if l == |d| || |d[l]| >= j then l else FirstLong(d, l + 1, j)
  }

  /** What GetText reads from index `i` of line `l` for an end above that line, at index `j` there. */
  predicate ReadBackwards(d: Document, l: nat, i: nat, j: nat, result: seq<byte>) {
    && l < |d| && i <= |d[l]|
    && if j <= i then result == []
       else
         var m, o := FirstLong(d, l, j), Offset(d, l, i);
         if m < |d| then o <= Offset(d, m, j) <= |Flat(d)| && result == Flat(d)[o..Offset(d, m, j)]
         else o <= |Flat(d)| && result == Flat(d)[o..] + [NEWLINE]
  }

  lemma {:induction false} ShortLines(d: Document, l: nat, j: nat, x: nat)
    requires l <= x < |d| && x <= FirstLong(d, l, j)
    ensures |d[x]| >= j <==> x == FirstLong(d, l, j)
    decreases x - l
  {
    if l < x {
      ShortLines(d, l + 1, j, x);
    }
  }

  /** Where the loop of GetText ends. */
  lemma ReadAll(d: Document, l: nat, i: nat, j: nat, lstart: nat, istart: int, result: seq<byte>)
    requires l < |d| && i <= |d[l]| && ReadSoFar(d, Offset(d, l, i), lstart, istart, result)
    requires j <= i ==> result == []
    requires i < j ==> l <= lstart <= FirstLong(d, l, j) && istart <= j && (lstart < |d| ==> istart == j)
    ensures ReadBackwards(d, l, i, j, result)
  {
    hide Flat, Offset;
    if i < j && lstart < |d| {
      ShortLines(d, l, j, lstart);
    }
  }

  lemma ReadCharacter(d: Document, o: nat, l: nat, i: nat, result: seq<byte>)
    requires ReadSoFar(d, o, l, i, result) && l < |d| && i < |d[l]|
    ensures ReadSoFar(d, o, l, i + 1, result + [d[l][i]])
  {
    CharAt(d, l, i);
    OffsetInLine(d, l, i, i + 1);
    SliceSnoc(Flat(d), o, Offset(d, l, i));
  }

  lemma ReadLineEnd(d: Document, o: nat, l: nat, i: nat, result: seq<byte>)
    requires ReadSoFar(d, o, l, i, result) && l < |d| && i == |d[l]|
    ensures ReadSoFar(d, o, l + 1, 0, result + [NEWLINE])
  {
    CharAt(d, l, i);
    SliceSnoc(Flat(d), o, Offset(d, l, i));
  }

  lemma SliceSnoc(t: seq<byte>, o: nat, k: nat)
    requires o <= k <= |t|
    ensures k < |t| ==> t[o..k] + [t[k]] == t[o..k + 1]
    ensures k == |t| ==> t[o..k] == t[o..]
  {
  }

  lemma LinesSnoc(s: seq<byte>, c: byte)
    ensures Lines(s + [c]) == if c == NEWLINE then Lines(s) + [[]]
                              else Lines(s)[..|Lines(s)| - 1] + [Lines(s)[|Lines(s)| - 1] + [c]]
  {
    hide Lines, Flat, Framed;
    LinesAppend(s, [c]);
    LinesOfByte(c);
    assert Lines(s)[|Lines(s)| - 1] + [] == Lines(s)[|Lines(s)| - 1];
  }

  lemma LinesOfByte(c: byte)
    ensures Lines([c]) == if c == NEWLINE then [[], []] else [[c]]
  {
    assert [c][1..] == [] && Lines([]) == [[]];
    assert [c] + [] == [c];
  }

  lemma AppendToLast(ls: seq<Line>, g: Glyph)
    requires |ls| > 0
    ensures var last := |ls| - 1;
            Doc(ls[last := ls[last] + [g]]) == Doc(ls)[..last] + [Doc(ls)[last] + [g.ch]]
  {
    var last := |ls| - 1;
    assert Chars(ls[last] + [g]) == Chars(ls[last]) + [g.ch];
  }

  lemma AppendEmpty(ls: seq<Line>)
    ensures Doc(ls + [[]]) == Doc(ls) + [[]]
  {
  }

  /** One character of SetText. */
  lemma SplitStep(ls: seq<Line>, text: seq<byte>, p: nat)
    requires |ls| > 0 && p < |text| && Doc(ls) == Lines(Editing.StripReturns(text[..p]))
    ensures var last := |ls| - 1;
            Lines(Editing.StripReturns(text[..p + 1])) ==
            if text[p] == RETURN then Doc(ls)
            else if text[p] == NEWLINE then Doc(ls + [[]])
            else Doc(ls[last := ls[last] + [NewGlyph(text[p], Default)]])
  {
    assert text[..p + 1] == text[..p] + [text[p]];
    Editing.StripAppend(text[..p], [text[p]]);
    StripByte(text[p]);
    LinesSnoc(Editing.StripReturns(text[..p]), text[p]);
    AppendEmpty(ls);
    AppendToLast(ls, NewGlyph(text[p], Default));
    assert Editing.StripReturns(text[..p]) + [] == Editing.StripReturns(text[..p]);
  }

  lemma StripByte(c: byte)
    ensures Editing.StripReturns([c]) == if c == RETURN then [] else [c]
  {
    assert [c][1..] == [] && Editing.StripReturns([]) == [];
    assert [c] + [] == [c];
  }

  lemma DefaultLinesGood(ls: seq<Line>, t: seq<byte>)
    requires |ls| > 0 && Doc(ls) == Lines(t) && CleanText(t)
    requires forall l, i :: 0 <= l < |ls| && 0 <= i < |ls[l]| ==> ls[l][i].color == Default
    ensures GoodLines(ls)
  {
    LinesClean(t);
    forall l | 0 <= l < |ls|
      ensures GoodLine(ls[l])
    {
      assert CleanLine(Doc(ls)[l]);
    }
  }

  /** Lines coloured in one tick, for a language with a tokenizer callback. */
  const INCREMENT: nat := 10000

  class TextEditor {
    var lines: seq<Line>
    var state: EditorState
    var undoBuffer: seq<UndoRecord>
    var undoIndex: nat
    var tabSize: TabSize
    var overwrite: bool
    var readOnly: bool
    var autoIndentation: bool
    var colorRange: Range
    var checkComments: bool
    var colorizerEnabled: bool
    var interactiveStart: Coordinates
    var interactiveEnd: Coordinates
    const language: Coloring.Language

    ghost predicate Valid()
      reads this
    {
      && GoodLines(lines)
      && undoIndex <= |undoBuffer|
    }

    /** The characters of the lines. */
    ghost function Document(): Document
      reads this
    {
      Doc(lines)
    }

    /** The flat text the buffer stands for. */
    ghost function Text(): (t: seq<byte>)
      requires Valid()
      reads this
      ensures CleanText(t) && Lines(t) == Doc(lines)
    {
      GoodIsClean(lines);
      Flat(Doc(lines))
    }

    ghost function Contents(): Snapshot
      requires Valid()
      reads this
    {
      Editing.Snapshot(Text(), state, undoBuffer, undoIndex)
    }

    constructor (language: Coloring.Language)
      ensures Valid() && Text() == [] && undoBuffer == [] && undoIndex == 0
    {
      this.language := language;
      lines := [[]];
      state := Editing.EditorState(Editing.ORIGIN, Editing.ORIGIN, Editing.ORIGIN);
      undoBuffer, undoIndex := [], 0;
      tabSize, overwrite, readOnly, autoIndentation := 4, false, false, true;
      colorRange, checkComments, colorizerEnabled := Range(0, 0), true, true;
      interactiveStart, interactiveEnd := Editing.ORIGIN, Editing.ORIGIN;
    }

    // ---------- Columns and indices ----------

    method GetCharacterIndex(c: Coordinates) returns (i: int)
      requires Valid()
      ensures c.line >= |lines| ==> i == -1
      ensures c.line < |lines| ==>
                && i == IndexAt(tabSize, Chars(lines[c.line]), c.column)
                && Boundary(Chars(lines[c.line]), i)
    {
      if c.line >= |lines| {
        return -1;
      }
      var line := lines[c.line];
      assert GoodLine(line);
      var column: nat := 0;
      i := 0;
      while i < |line| && column < c.column
        invariant Boundary(Chars(line), i)
        invariant IndexFrom(tabSize, Chars(line), i, column, c.column) == IndexAt(tabSize, Chars(line), c.column)
        decreases |line| - i
      {
        NextBoundary(Chars(line), i);
        if line[i].ch == TAB {
          NextStopFormula(tabSize, column);
          column := column / tabSize * tabSize + tabSize;
        } else {
          column := column + 1;
        }
        i := i + UTF8CharLength(line[i].ch);
      }
    }

    method GetCharacterColumn(l: nat, index: nat) returns (column: nat)
      requires Valid()
      ensures column == if l < |lines| then ColumnAt(tabSize, Chars(lines[l]), index) else 0
    {
      column := 0;
      if l >= |lines| {
        return;
      }
      var line := lines[l];
      var i := 0;
      while i < index && i < |line|
        invariant ColumnFrom(tabSize, Chars(line), i, column, index) == ColumnAt(tabSize, Chars(line), index)
        decreases |line| - i
      {
        var c := line[i].ch;
        i := i + UTF8CharLength(c);
        if c == TAB {
          NextStopFormula(tabSize, column);
          column := column / tabSize * tabSize + tabSize;
        } else {
          column := column + 1;
        }
      }
    }

    method GetLineMaxColumn(l: nat) returns (column: nat)
      requires Valid()
      ensures column == if l < |lines| then MaxColumn(tabSize, Chars(lines[l])) else 0
    {
      column := 0;
      if l >= |lines| {
        return;
      }
      var line := lines[l];
      var i := 0;
      while i < |line|
        invariant ColumnFrom(tabSize, Chars(line), i, column, |line|) == MaxColumn(tabSize, Chars(line))
        decreases |line| - i
      {
        var c := line[i].ch;
        if c == TAB {
          NextStopFormula(tabSize, column);
          column := column / tabSize * tabSize + tabSize;
        } else {
          column := column + 1;
        }
        i := i + UTF8CharLength(c);
      }
    }

    method SanitizeCoordinates(c: Coordinates) returns (r: Coordinates)
      requires Valid()
      ensures r == Sanitize(tabSize, Text(), c)
      ensures r.line < |lines|
    {
      GoodIsClean(lines);
      if c.line >= |lines| {
        var last := |lines| - 1;
        var column := GetLineMaxColumn(last);
        r := Coordinates(last, column);
      } else {
        var column := GetLineMaxColumn(c.line);
        r := Coordinates(c.line, Min(c.column, column));
      }
    }

    method GetActualCursorCoordinates() returns (r: Coordinates)
      requires Valid()
      ensures r == Sanitize(tabSize, Text(), state.cursorPosition)
      ensures r.line < |lines|
    {
      r := SanitizeCoordinates(state.cursorPosition);
    }

    // ---------- Reading text ----------

    /** Resolving a coordinate by line and index. */
    lemma AtIs(c: Coordinates, i: nat)
      requires Valid() && c.line < |lines| && i == IndexAt(tabSize, Chars(lines[c.line]), c.column)
      ensures i <= |lines[c.line]|
      ensures At(tabSize, Text(), c) == Offset(Doc(lines), c.line, i)
    {
      GoodIsClean(lines);
      AtOfFlat(tabSize, Doc(lines), c);
    }

    /** The text from `start` to `end`; an `end` below the last line yields one more newline. Nothing is
        read from a start below the last line, or backwards within a line. From a start below `end` the
        loop reads on until it finds the index of `end` in some line. */
    method GetText(start: Coordinates, end: Coordinates) returns (result: seq<byte>)
      requires Valid() && (end.line <= |lines| || end.line <= start.line)
      ensures start.line >= |lines| || (end.Less(start) && start.line == end.line) ==> result == []
      ensures end.line < |lines| && start.AtMost(end) ==>
                && At(tabSize, Text(), start) <= At(tabSize, Text(), end)
                && result == Text()[At(tabSize, Text(), start)..At(tabSize, Text(), end)]
      ensures start.line < |lines| == end.line ==>
                result == Text()[At(tabSize, Text(), start)..] + [NEWLINE]
      ensures end.line < start.line < |lines| ==>
                var j := IndexAt(tabSize, Chars(lines[end.line]), end.column);
                ReadBackwards(Document(), start.line, IndexAt(tabSize, Chars(lines[start.line]), start.column), j,
                              result)
    {
      hide Lines, Flat, Framed, ReadBackwards;
      var istart := GetCharacterIndex(start);
      var iend := GetCharacterIndex(end);
      if start.line < |lines| {
        AtIs(start, istart);
        if end.line < |lines| {
          AtIs(end, iend);
          if start.line <= end.line {
            ReadBounds(start, end, istart, iend);
          }
        }
      }
      result := ReadText(start.line, istart, end.line, iend);
    }

    /** The indices of two coordinates, and what lies between them. */
    lemma ReadBounds(start: Coordinates, end: Coordinates, i: nat, j: nat)
      requires Valid() && start.line <= end.line < |lines|
      requires i == IndexAt(tabSize, Chars(lines[start.line]), start.column)
      requires j == IndexAt(tabSize, Chars(lines[end.line]), end.column)
      ensures i <= |lines[start.line]| && j <= |lines[end.line]|
      ensures start.line == end.line ==> if start.AtMost(end) then i <= j else j <= i
      ensures start.AtMost(end) ==>
                Offset(Doc(lines), start.line, i) <= Offset(Doc(lines), end.line, j) <= |Flat(Doc(lines))|
    {
      hide Lines, Flat;
      AtIs(start, i);
      AtIs(end, j);
      if start.AtMost(end) {
        SameLineOrder(start, end, i, j);
        FlatBetween(Doc(lines), start.line, i, end.line, j);
      } else {
        SameLineOrder(end, start, j, i);
      }
    }

    /** The loop of GetText. */
    method ReadText(l: nat, i: int, lend: nat, iend: int) returns (result: seq<byte>)
      requires |lines| > 0 && (l < |lines| ==> 0 <= i <= |lines[l]|)
      requires if lend < |lines| then 0 <= iend <= |lines[lend]| else iend == -1
      requires l >= |lines| ==> i == -1
      ensures l >= |lines| || (l == lend && iend <= i) ==> result == []
      ensures l < lend < |lines| || (l == lend < |lines| && i <= iend) ==>
                && Offset(Document(), l, i) <= Offset(Document(), lend, iend) <= |Flat(Document())|
                && result == Flat(Document())[Offset(Document(), l, i)..Offset(Document(), lend, iend)]
      ensures l < |lines| <= lend ==>
                && Offset(Document(), l, i) <= |Flat(Document())|
                && result == Flat(Document())[Offset(Document(), l, i)..] + [NEWLINE]
      ensures lend < l < |lines| ==> ReadBackwards(Document(), l, i, iend, result)
    {
      hide Lines, Flat, Framed, Offset, ReadBackwards;
      ghost var d := Document();
      ghost var o := if l < |lines| then Offset(d, l, i) else 0;
      if l < |lines| {
        SplitAt(d, l, i);
        if lend < |lines| && (l < lend || (l == lend && i <= iend)) {
          FlatBetween(d, l, i, lend, iend);
        }
      }
      var lstart, istart := l, i;
      result := [];
      assert Flat(d)[o..o] == [];
      while istart < iend || lstart < lend
        invariant l <= lend ==> lstart <= lend
        invariant l < |lines| ==> ReadSoFar(d, o, lstart, istart, result)
        invariant l >= |lines| || (l == lend && iend <= i) ==> result == [] && lstart == l && istart == i
        invariant lend < |lines| && lstart == lend ==> istart <= iend || (l == lend && istart == i)
        invariant lend < l < |lines| && iend <= i ==> result == [] && lstart == l && istart == i
        invariant lend < l < |lines| && i < iend ==> l <= lstart <= FirstLong(d, l, iend) && istart <= iend
        decreases |lines| - lstart, if lstart < |lines| then |lines[lstart]| - istart else 0
      {
        if lstart >= |lines| {
          break;
        }
        if lend < l && i < iend {
          ShortLines(d, l, iend, lstart);
        }
        var line := lines[lstart];
        if istart < |line| {
          ReadCharacter(d, o, lstart, istart, result);
          result := result + [line[istart].ch];
          istart := istart + 1;
        } else {
          ReadLineEnd(d, o, lstart, istart, result);
          istart := 0;
          lstart := lstart + 1;
          result := result + [NEWLINE];
        }
      }
      if lend < l < |lines| {
        ReadAll(d, l, i, iend, lstart, istart, result);
      }
    }

    lemma SameLineOrder(a: Coordinates, b: Coordinates, i: int, j: int)
      requires Valid() && a.line < |lines| && b.line < |lines| && a.AtMost(b)
      requires i == IndexAt(tabSize, Chars(lines[a.line]), a.column)
      requires j == IndexAt(tabSize, Chars(lines[b.line]), b.column)
      ensures a.line == b.line ==> i <= j
    {
      assert GoodLine(lines[a.line]);
      if a.line == b.line {
        IndexMonotone(tabSize, Chars(lines[a.line]), a.column, b.column);
      }
    }

    /** The whole text, with a newline after the last line as well. */
    method GetAllText() returns (result: seq<byte>)
      requires Valid()
      ensures result == Text() + [NEWLINE]
    {
      OffsetOrigin(Doc(lines));
      AtIs(Editing.ORIGIN, 0);
      result := GetText(Editing.ORIGIN, Coordinates(|lines|, 0));
    }

    method GetTextLines() returns (result: seq<seq<byte>>)
      ensures result == Document()
    {
      result := [];
      for l := 0 to |lines|
        invariant result == Doc(lines)[..l]
      {
        var text: seq<byte> := [];
        for i := 0 to |lines[l]|
          invariant text == Chars(lines[l])[..i]
        {
          text := text + [lines[l][i].ch];
        }
        assert text == Doc(lines)[l];
        result := result + [text];
      }
    }

    /** The text between the ends of the selection, which GetText reads. */
    method GetSelectedText() returns (result: seq<byte>)
      requires Valid() && state.selectionStart.AtMost(state.selectionEnd)
      requires state.selectionEnd.line <= |lines| || state.selectionEnd.line <= state.selectionStart.line
      ensures state.selectionStart.line >= |lines| ==> result == []
      ensures state.selectionEnd.line < |lines| ==>
                && At(tabSize, Text(), state.selectionStart) <= At(tabSize, Text(), state.selectionEnd)
                && result ==
                   Text()[At(tabSize, Text(), state.selectionStart)..At(tabSize, Text(), state.selectionEnd)]
      ensures state.selectionStart.line < |lines| == state.selectionEnd.line ==>
                result == Text()[At(tabSize, Text(), state.selectionStart)..] + [NEWLINE]
    {
      result := GetText(state.selectionStart, state.selectionEnd);
    }

    // ---------- Replacing the whole text ----------

    method SetText(text: seq<byte>)
      modifies this`lines, this`undoBuffer, this`undoIndex, this`colorRange, this`checkComments
      ensures Document() == Lines(Editing.StripReturns(text))
      ensures Editing.CString(text) ==> Valid() && Text() == Editing.StripReturns(text)
      ensures undoBuffer == [] && undoIndex == 0
      ensures colorRange == Request(old(colorRange), |lines|, 0, -1) && checkComments
      ensures forall l :: 0 <= l < |lines| ==> Pending(colorRange, l)
    {
      lines := [[]];
      for p := 0 to |text|
        invariant |lines| > 0 && Doc(lines) == Lines(Editing.StripReturns(text[..p]))
        invariant forall l, i :: 0 <= l < |lines| && 0 <= i < |lines[l]| ==> lines[l][i].color == Default
        invariant colorRange == old(colorRange)
      {
        SplitStep(lines, text, p);
        if text[p] == RETURN {
        } else if text[p] == NEWLINE {
          lines := lines + [[]];
        } else {
          var last := |lines| - 1;
          lines := lines[last := lines[last] + [NewGlyph(text[p], Default)]];
        }
      }
      undoBuffer, undoIndex := [], 0;
      assert text[..|text|] == text;
      if Editing.CString(text) {
        Editing.StripClean(text);
        DefaultLinesGood(lines, Editing.StripReturns(text));
        FlatLines(Editing.StripReturns(text));
      }
      Colorize(0, -1);
    }

    method SetTextLines(newLines: seq<seq<byte>>)
      modifies this`lines, this`undoBuffer, this`undoIndex, this`colorRange, this`checkComments
      ensures Document() == if newLines == [] then [[]] else newLines
      ensures (forall l :: 0 <= l < |newLines| ==> CleanLine(newLines[l])) ==> Valid()
      ensures undoBuffer == [] && undoIndex == 0
      ensures colorRange == Request(old(colorRange), |lines|, 0, -1) && checkComments
      ensures forall l :: 0 <= l < |lines| ==> Pending(colorRange, l)
    {
      lines := [];
      if newLines == [] {
        lines := [[]];
      } else {
        for l := 0 to |newLines|
          invariant |lines| == l && colorRange == old(colorRange)
          invariant forall k :: 0 <= k < l ==> lines[k] == Fresh(newLines[k], Default)
        {
          var line: Line := [];
          for i := 0 to |newLines[l]|
            invariant line == Fresh(newLines[l], Default)[..i]
          {
            line := line + [NewGlyph(newLines[l][i], Default)];
          }
          lines := lines + [line];
        }
      }
      if forall l :: 0 <= l < |newLines| ==> CleanLine(newLines[l]) {
        forall l | 0 <= l < |lines|
          ensures GoodLine(lines[l])
        {
          if newLines != [] {
            FreshGood(newLines[l], Default);
          }
        }
      }
      undoBuffer, undoIndex := [], 0;
      Colorize(0, -1);
    }

    /** Request recolouring of `count` lines from `from` on; -1 stands for all lines. */
    method Colorize(from: int, count: int)
      modifies this`colorRange, this`checkComments
      ensures colorRange == Request(old(colorRange), |lines|, from, count)
      ensures checkComments
    {
      var to := if count == -1 then |lines| else Min(|lines|, from + count);
      colorRange := Range(Min(colorRange.lo, from), MaxOf(colorRange.hi, to));
      colorRange := Range(MaxOf(0, colorRange.lo), colorRange.hi);
      colorRange := Range(colorRange.lo, MaxOf(colorRange.lo, colorRange.hi));
      checkComments := true;
    }

    // ---------- Edits by coordinates ----------

    method InsertLine(l: nat)
      requires !readOnly && l <= |lines|
      modifies this`lines
      ensures lines == old(lines[..l] + [[]] + lines[l..])
      ensures old(|lines|) > 0 ==> LineAdded(old(lines), lines, l)
    {
      hide Lines, Flat, LineAdded;
      if |lines| > 0 {
        LineInsertedText(lines, l);
      }
      lines := lines[..l] + [[]] + lines[l..];
    }

    /** RemoveLine on a range: lines start, ..., end - 1 go. */
    method RemoveLines(start: nat, end: nat)
      requires !readOnly && start <= end <= |lines| && end - start < |lines|
      modifies this`lines
      ensures lines == old(lines[..start] + lines[end..]) && LinesGone(old(lines), lines, start, end)
    {
      hide Lines, Flat, LinesGone;
      LinesRemovedText(lines, start, end);
      lines := lines[..start] + lines[end..];
    }

    method RemoveLine(l: nat)
      requires !readOnly && l < |lines| && |lines| > 1
      modifies this`lines
      ensures lines == old(lines[..l] + lines[l + 1..]) && LinesGone(old(lines), lines, l, l + 1)
    {
      hide Lines, Flat, LinesGone;
      LinesRemovedText(lines, l, l + 1);
      lines := lines[..l] + lines[l + 1..];
    }

    /** Delete what lies between two coordinates of the document. */
    method DeleteRange(start: Coordinates, end: Coordinates)
      requires Valid() && !readOnly && Editing.CanDelete(Text(), start, end)
      modifies this`lines
      ensures Valid() && Text() == Editing.DeleteRange(tabSize, old(Text()), start, end)
    {
      if end == start {
        return;
      }
      var i := GetCharacterIndex(start);
      var j := GetCharacterIndex(end);
      AtIs(start, i);
      AtIs(end, j);
      SameLineOrder(start, end, i, j);
      RemovedText(lines, start.line, i, end.line, j);
      if start.line == end.line {
        var n := GetLineMaxColumn(start.line);
        assert GoodLine(lines[start.line]);
        IndexOfMaxColumn(tabSize, Chars(lines[start.line]), end.column);
        EraseInLine(start.line, i, j, end.column >= n);
      } else {
        EraseAcross(start.line, i, end.line, j);
      }
    }

    /** DeleteRange within line `l`; `toEnd` says that the end coordinate is at or beyond the line end. */
    method EraseInLine(l: nat, i: nat, j: nat, toEnd: bool)
      requires l < |lines| && i <= j <= |lines[l]| && (toEnd ==> j == |lines[l]|)
      modifies this`lines
      ensures lines == RemoveGlyphs(old(lines), l, i, l, j)
    {
      var line := lines[l];
      RemoveInLine(lines, l, i, j);
      if toEnd {
        lines := lines[l := line[..i]];
      } else {
        lines := lines[l := line[..i] + line[j..]];
      }
    }

    /** DeleteRange across lines: the rest of the last line moves up to the first. */
    method EraseAcross(l: nat, i: nat, m: nat, j: nat)
      requires !readOnly && l < m < |lines| && i <= |lines[l]| && j <= |lines[m]|
      modifies this`lines
      ensures lines == RemoveGlyphs(old(lines), l, i, m, j)
    {
      RemoveInSteps(lines, l, i, m, j);
      var firstLine := lines[l][..i];
      var lastLine := lines[m][j..];
      firstLine := firstLine + lastLine;
      lines := lines[l := firstLine][m := lastLine];
      RemoveLines(l + 1, m + 1);
    }

    lemma RemoveInSteps(ls: seq<Line>, l: nat, i: nat, m: nat, j: nat)
      requires l < m < |ls| && i <= |ls[l]| && j <= |ls[m]|
      ensures var r := ls[l := ls[l][..i] + ls[m][j..]][m := ls[m][j..]];
              r[..l + 1] + r[m + 1..] == RemoveGlyphs(ls, l, i, m, j)
    {
    }

    /** Insert the bytes of `s` one glyph at a time. */
    method InsertBytes(l: nat, i: nat, s: seq<byte>)
      requires !readOnly && l < |lines| && i <= |lines[l]|
      modifies this`lines
      ensures lines == InsertGlyphs(old(lines), l, i, Fresh(s, Default))
    {
      ghost var before := lines;
      var cindex := i;
      assert lines[l] == before[l][..i] + Fresh(s, Default)[..0] + before[l][i..];
      for k := 0 to |s|
        invariant |lines| == |before| && cindex == i + k
        invariant lines == before[l := before[l][..i] + Fresh(s, Default)[..k] + before[l][i..]]
      {
        InsertOneMore(before[l], i, Fresh(s, Default), k);
        var line := lines[l];
        lines := lines[l := line[..cindex] + [NewGlyph(s[k], Default)] + line[cindex..]];
        cindex := cindex + 1;
      }
      assert Fresh(s, Default)[..|s|] == Fresh(s, Default);
    }

    /** Start a new line at index `cindex` of line `l`. */
    method BreakLine(l: nat, cindex: nat)
      requires !readOnly && l < |lines| && cindex <= |lines[l]|
      modifies this`lines
      ensures lines == SplitGlyphs(old(lines), l, cindex)
    {
      if cindex < |lines[l]| {
        InsertLine(l + 1);
        var line := lines[l];
        lines := lines[l + 1 := line[cindex..]];
        lines := lines[l := line[..cindex]];
      } else {
        assert lines[l][..cindex] == lines[l] && lines[l][cindex..] == [];
        InsertLine(l + 1);
      }
    }

    /** Insert a text at a coordinate; returns where the coordinate is left, and the newlines inserted. */
    method InsertTextAt(start: Coordinates, value: seq<byte>) returns (where: Coordinates, totalLines: nat)
      requires Valid() && !readOnly && start.line < |lines| && Editing.CString(value)
      modifies this`lines
      ensures Valid() && Text() == Editing.InsertTextAt(tabSize, old(Text()), start, value)
      ensures where == Editing.CountedEnd(start, value) && where.line < |lines|
      ensures totalLines == Editing.CountNewlines(value)
    {
      var cindex := GetCharacterIndex(start);
      ghost var t, o := Text(), Offset(Doc(lines), start.line, cindex);
      AtIs(start, cindex);
      InsertBegin(lines, start, cindex, value);
      where, totalLines := InsertAll(start, cindex, value, t, o);
      InsertEnd(tabSize, t, o, start, value, lines, where, totalLines);
    }

    /** The loop over the inserted text, from index `i` of the line of `start` on. */
    method InsertAll(start: Coordinates, i: nat, value: seq<byte>, ghost t: seq<byte>, ghost o: nat)
      returns (where: Coordinates, totalLines: nat)
      requires Valid() && !readOnly && InsertedUpTo(t, o, start, value, 0, lines, start, i, 0)
      modifies this`lines
      ensures exists cindex :: InsertedUpTo(t, o, start, value, |value|, lines, where, cindex, totalLines)
    {
      hide Lines, Flat;
      where, totalLines := start, 0;
      var cindex, p := i, 0;
      while p < |value|
        invariant p <= |value| && InsertedUpTo(t, o, start, value, p, lines, where, cindex, totalLines)
        decreases |value| - p
      {
        InsertStep(t, o, start, value, p, lines, where, cindex, totalLines);
        if value[p] == RETURN {
          p := p + 1;
        } else if value[p] == NEWLINE {
          BreakLine(where.line, cindex);
          where := Coordinates(where.line + 1, 0);
          cindex := 0;
          totalLines := totalLines + 1;
          p := p + 1;
        } else {
          var d := UTF8CharLength(value[p]);
          InsertBytes(where.line, cindex, value[p..p + d]);
          p, cindex := p + d, cindex + d;
          where := Coordinates(where.line, where.column + 1);
        }
      }
    }

    // ---------- Cursor and selection ----------

    predicate HasSelection()
      reads this
    {
      state.selectionStart.Less(state.selectionEnd)
    }

    method SetCursorPosition(position: Coordinates)
      modifies this`state
      ensures state == old(state).(cursorPosition := position)
    {
      if state.cursorPosition != position {
        state := state.(cursorPosition := position);
      }
    }

    method FindWordStart(from: Coordinates) returns (r: Coordinates)
      requires Valid()
      ensures r == Words.FindWordStart(tabSize, lines, from)
    {
      if from.line >= |lines| {
        return from;
      }
      var line := lines[from.line];
      var cindex := GetCharacterIndex(from);
      if cindex >= |line| {
        return from;
      }
      ghost var i := cindex;
      while cindex > 0 && Words.IsSpace(line[cindex].ch)
        invariant 0 <= cindex < |line|
        invariant Words.SkipSpacesLeft(line, cindex) == Words.SkipSpacesLeft(line, i)
      {
        cindex := cindex - 1;
      }
      var cstart := line[cindex].color;
      ghost var k := cindex;
      while cindex > 0
        invariant 0 <= cindex < |line|
        invariant Words.WalkLeft(line, cindex, cstart) == Words.WalkLeft(line, k, cstart)
      {
        var c := line[cindex].ch;
        if !IsUTFSequence(c) {
          if c <= 32 && Words.IsSpace(c) {
            cindex := cindex + 1;
            break;
          }
          if cstart != line[cindex - 1].color {
            break;
          }
        }
        cindex := cindex - 1;
      }
      assert cindex == Words.WordStartIndex(line, i);
      var column := GetCharacterColumn(from.line, cindex);
      r := Coordinates(from.line, column);
    }

    method FindWordEnd(from: Coordinates) returns (r: Coordinates)
      requires Valid()
      ensures r == Words.FindWordEnd(tabSize, lines, from)
    {
      if from.line >= |lines| {
        return from;
      }
      var line := lines[from.line];
      var cindex := GetCharacterIndex(from);
      if cindex >= |line| {
        return from;
      }
      ghost var i := cindex;
      var prevspace := Words.IsSpace(line[cindex].ch);
      var cstart := line[cindex].color;
      while cindex < |line|
        invariant 0 <= cindex
        invariant Words.WalkRight(line, cindex, cstart, prevspace) == Words.WordEndIndex(line, i)
        decreases |line| - cindex
      {
        var c := line[cindex].ch;
        var d := UTF8CharLength(c);
        if cstart != line[cindex].color {
          break;
        }
        if prevspace != Words.IsSpace(c) {
          if Words.IsSpace(c) {
            ghost var s := cindex;
            while cindex < |line| && Words.IsSpace(line[cindex].ch)
              invariant cindex <= |line|
              invariant Words.SkipSpacesRight(line, cindex) == Words.SkipSpacesRight(line, s)
            {
              cindex := cindex + 1;
            }
          }
          break;
        }
        cindex := cindex + d;
      }
      assert cindex == Words.WordEndIndex(line, i);
      var column := GetCharacterColumn(from.line, cindex);
      r := Coordinates(from.line, column);
    }

    method IsOnWordBoundary(at: Coordinates) returns (r: bool)
      requires Valid()
      ensures r == Words.IsOnWordBoundary(tabSize, lines, at, colorizerEnabled)
    {
      if at.line >= |lines| || at.column == 0 {
        return true;
      }
      var line := lines[at.line];
      var cindex := GetCharacterIndex(at);
      if cindex >= |line| {
        return true;
      }
      assert cindex > 0;
      if colorizerEnabled {
        return line[cindex].color != line[cindex - 1].color;
      }
      return Words.IsSpace(line[cindex].ch) != Words.IsSpace(line[cindex - 1].ch);
    }

    /** Select from one coordinate to another, in either order; Word and Line mode extend the
        selection. Aligned coordinates give an ordered selection inside the document. */
    method SetSelection(start: Coordinates, end: Coordinates, mode: Words.SelectionMode)
      requires Valid()
      modifies this`state
      ensures state.cursorPosition == old(state).cursorPosition
      ensures (state.selectionStart, state.selectionEnd) ==
              var a, b := Sanitize(tabSize, Text(), start), Sanitize(tabSize, Text(), end);
              if b.Less(a) then Words.Selection(tabSize, lines, b, a, mode, colorizerEnabled)
              else Words.Selection(tabSize, lines, a, b, mode, colorizerEnabled)
      ensures Words.AlignedIn(tabSize, lines, Sanitize(tabSize, Text(), start)) &&
              Words.AlignedIn(tabSize, lines, Sanitize(tabSize, Text(), end)) ==>
                && Words.AlignedIn(tabSize, lines, state.selectionStart)
                && Words.AlignedIn(tabSize, lines, state.selectionEnd)
                && state.selectionStart.AtMost(state.selectionEnd)
    {
      hide Lines, Flat, Framed, MaxColumn, Words.Selection;
      var a := SanitizeCoordinates(start);
      var b := SanitizeCoordinates(end);
      if b.Less(a) {
        a, b := b, a;
      }
      if Words.AlignedIn(tabSize, lines, a) && Words.AlignedIn(tabSize, lines, b) {
        Words.SelectionOrdered(tabSize, lines, a, b, mode, colorizerEnabled);
      }
      var s, e := Extend(a, b, mode);
      state := state.(selectionStart := s, selectionEnd := e);
    }

    /** The selection from `a` to `b`, extended as the mode asks for. */
    method Extend(a: Coordinates, b: Coordinates, mode: Words.SelectionMode) returns (s: Coordinates, e: Coordinates)
      requires Valid() && b.line < |lines|
      ensures (s, e) == Words.Selection(tabSize, lines, a, b, mode, colorizerEnabled)
    {
      hide Lines, Flat, Framed, MaxColumn, Words.FindWordStart, Words.FindWordEnd, Words.IsOnWordBoundary;
      s, e := a, b;
      match mode
      case Normal =>
      case Word =>
        s := FindWordStart(a);
        var onBoundary := IsOnWordBoundary(b);
        if !onBoundary {
          e := FindWordStart(b);
          e := FindWordEnd(e);
        }
      case Line =>
        var column := GetLineMaxColumn(b.line);
        s, e := Coordinates(a.line, 0), Coordinates(b.line, column);
    }

    /** Collapse the selection to one place of the document. */
    method SelectNothing(at: Coordinates)
      requires Valid()
      modifies this`state
      ensures state == var c := Sanitize(tabSize, Text(), at);
                       old(state).(selectionStart := c, selectionEnd := c)
    {
      SetSelection(at, at, Words.Normal);
    }

    // ---------- Editing ----------

    method DeleteSelection()
      requires Valid() && !readOnly && Editing.Placed(Contents()) && HasSelection()
      modifies this`lines, this`state, this`colorRange, this`checkComments
      ensures Valid() && Contents() == Editing.DeleteSelection(tabSize, old(Contents()))
      ensures colorRange == AllWidened(old(colorRange), Recolouring.SelectionMoves(tabSize, old(Contents())))
    {
      hide Lines, Flat;
      EditSteps.SelectionDeleted(tabSize, Contents());
      Recolouring.CursorAtSelection(tabSize, Contents());
      OneWidened(colorRange, Recolouring.SelectionMoves(tabSize, Contents())[0]);
      if state.selectionEnd == state.selectionStart {
        return;
      }
      DeleteRange(state.selectionStart, state.selectionEnd);
      SelectNothing(state.selectionStart);
      SetCursorPosition(state.selectionStart);
      Colorize(state.selectionStart.line, 1);
    }

    method AddUndo(u: UndoRecord)
      requires Valid() && !readOnly
      modifies this`undoBuffer, this`undoIndex
      ensures undoBuffer == old(undoBuffer[..undoIndex] + [u]) && undoIndex == old(undoIndex) + 1
    {
      undoBuffer := undoBuffer[..undoIndex] + [u];
      undoIndex := undoIndex + 1;
    }

    /** The characters of one line. */
    method CopyLine(l: nat) returns (text: seq<byte>)
      requires l < |lines|
      ensures text == Chars(lines[l])
    {
      text := [];
      var line := lines[l];
      for i := 0 to |line|
        invariant text == Chars(line)[..i]
      {
        text := text + [line[i].ch];
      }
    }

    /** The clipboard gets the selection, or the line of the cursor. */
    method Copy() returns (clipboard: seq<byte>)
      requires Valid() && Editing.Placed(Contents())
      ensures clipboard == if HasSelection() then Editing.SelectedText(tabSize, Contents())
                           else Chars(lines[Sanitize(tabSize, Text(), state.cursorPosition).line])
    {
      if HasSelection() {
        EditSteps.SelectionDeleted(tabSize, Contents());
        clipboard := GetSelectedText();
      } else {
        var c := GetActualCursorCoordinates();
        clipboard := CopyLine(c.line);
      }
    }

    /** Delete the selection, with a record of it. */
    method RemoveSelection()
      requires Valid() && !readOnly && Editing.Placed(Contents()) && HasSelection()
      modifies this`lines, this`state, this`undoBuffer, this`undoIndex, this`colorRange, this`checkComments
      ensures Valid() && Contents() == Editing.Cut(tabSize, old(Contents()))
      ensures colorRange == AllWidened(old(colorRange), Recolouring.SelectionMoves(tabSize, old(Contents())))
    {
      hide Lines, Flat, Framed;
      var before := state;
      EditSteps.SelectionDeleted(tabSize, Contents());
      var removed := GetSelectedText();
      DeleteSelection();
      AddUndo(Editing.UndoRecord([], Editing.ORIGIN, Editing.ORIGIN,
                                 removed, before.selectionStart, before.selectionEnd, before, state));
    }

    /** Cut the selection to the clipboard; a read-only editor only copies. */
    method Cut() returns (clipboard: Editing.Option<seq<byte>>)
      requires Valid() && Editing.Placed(Contents())
      modifies this`lines, this`state, this`undoBuffer, this`undoIndex, this`colorRange, this`checkComments
      ensures Valid()
      ensures Contents() == if readOnly then old(Contents()) else Editing.Cut(tabSize, old(Contents()))
      ensures old(HasSelection()) ==>
                clipboard == Editing.Some(Editing.SelectedText(tabSize, old(Contents())))
      ensures !readOnly && !old(HasSelection()) ==> clipboard == Editing.None
      ensures colorRange == if readOnly then old(colorRange)
                            else AllWidened(old(colorRange),
                                            Recolouring.OpMoves(tabSize, old(Contents()), Edits.CutOp))
    {
      clipboard := Editing.None;
      if readOnly {
        var text := Copy();
        clipboard := Editing.Some(text);
      } else if HasSelection() {
        var text := Copy();
        clipboard := Editing.Some(text);
        RemoveSelection();
      }
    }

    /** Erase up to `n` glyphs of line `l` from index `i` on, one at a time; returns their characters. */
    method EraseGlyphs(l: nat, i: nat, n: nat) returns (removed: seq<byte>)
      requires l < |lines| && i <= |lines[l]|
      modifies this`lines
      ensures var line := old(lines[l]);
              var j := if i + n <= |line| then i + n else |line|;
              lines == old(lines)[l := line[..i] + line[j..]] && removed == Chars(line)[i..j]
    {
      ghost var before := lines;
      var d := 0;
      removed := [];
      assert before[l][..i] + before[l][i..] == before[l];
      while d < n && i < |lines[l]|
        invariant d <= n && i + d <= |before[l]|
        invariant |lines| == |before| && lines == before[l := before[l][..i] + before[l][i + d..]]
        invariant removed == Chars(before[l])[i..i + d]
        decreases n - d
      {
        EraseOneMore(before[l], i, d);
        removed := removed + [lines[l][i].ch];
        lines := lines[l := lines[l][..i] + lines[l][i + 1..]];
        d := d + 1;
      }
    }

    lemma EraseOneMore(line: Line, i: nat, d: nat)
      requires i + d < |line|
      ensures var m := line[..i] + line[i + d..];
              && m[..i] + m[i + 1..] == line[..i] + line[i + d + 1..]
              && Chars(line)[i..i + d] + [m[i].ch] == Chars(line)[i..i + d + 1]
    {
    }

    /** One character further on, or to the next line from a line's last character on. */
    method Advance(c: Coordinates) returns (r: Coordinates)
      requires Valid()
      ensures c.line < |lines| && IndexAt(tabSize, Chars(lines[c.line]), c.column) + 1 >= |lines[c.line]| ==>
                r == Coordinates(c.line + 1, 0)
    {
      r := c;
      if c.line < |lines| {
        var line := lines[c.line];
        var cindex := GetCharacterIndex(c);
        if cindex + 1 < |line| {
          var delta := UTF8CharLength(line[cindex].ch);
          var column := GetCharacterColumn(c.line, Min(cindex + delta, |line| - 1));
          r := Coordinates(c.line, column);
        } else {
          r := Coordinates(c.line + 1, 0);
          var column := GetCharacterColumn(r.line, 0);
          r := Coordinates(r.line, column);
        }
      }
    }

    /** Append the next line to line `l`: the newline between them goes. */
    method JoinNextLine(l: nat)
      requires Valid() && !readOnly && l + 1 < |lines|
      modifies this`lines
      ensures Valid()
      ensures var o := old(Offset(Doc(lines), l, |lines[l]|));
              o + 1 <= |old(Text())| && Text() == Editing.Remove(old(Text()), o, o + 1)
      ensures |lines| == old(|lines|) - 1
    {
      MergeText(lines, l);
      lines := lines[l := lines[l] + lines[l + 1]];
      RemoveLine(l + 1);
    }

    /** Erase the `n` bytes of whole characters at index `i` of line `l`. */
    method EraseCharacters(l: nat, i: nat, n: nat) returns (removed: seq<byte>)
      requires Valid() && !readOnly && l < |lines|
      requires Boundary(Chars(lines[l]), i) && Boundary(Chars(lines[l]), i + n)
      modifies this`lines
      ensures Valid()
      ensures var t, o := old(Text()), old(Offset(Doc(lines), l, i));
              o + n <= |t| && Text() == Editing.Remove(t, o, o + n) && removed == t[o..o + n]
      ensures |lines| == old(|lines|)
    {
      hide Lines, Flat;
      RemoveInLineText(lines, l, i, i + n);
      OffsetInLine(Doc(lines), l, i, i + n);
      removed := EraseGlyphs(l, i, n);
    }

    /** Take away the newline at `pos`. */
    method TakeLineEnd(pos: Coordinates) returns (removed: seq<byte>, end: Coordinates)
      requires Valid() && !readOnly && InRange(Text(), pos) && pos.line + 1 < |lines|
      requires IndexAt(tabSize, Chars(lines[pos.line]), pos.column) == |lines[pos.line]|
      modifies this`lines
      ensures Valid() && EditSteps.NextTaken(tabSize, old(Text()), pos, true, removed, end, Text())
      ensures |lines| == old(|lines|) - 1
    {
      hide Lines, Flat;
      AtIs(pos, |lines[pos.line]|);
      assert GoodLine(lines[pos.line]);
      CharacterAt(lines, pos.line, |lines[pos.line]|);
      removed := [NEWLINE];
      end := Advance(pos);
      JoinNextLine(pos.line);
    }

    /** Take away the character at `pos`; what is returned is the text of one column. */
    method TakeCharacter(pos: Coordinates) returns (removed: seq<byte>, end: Coordinates)
      requires Valid() && !readOnly && InRange(Text(), pos) && pos.line < |lines|
      requires IndexAt(tabSize, Chars(lines[pos.line]), pos.column) < |lines[pos.line]|
      modifies this`lines
      ensures Valid() && EditSteps.NextTaken(tabSize, old(Text()), pos, true, removed, end, Text())
      ensures |lines| == old(|lines|)
    {
      hide Lines, Flat;
      var cindex := GetCharacterIndex(pos);
      AtIs(pos, cindex);
      CharacterAt(lines, pos.line, cindex);
      end := Coordinates(pos.line, pos.column + 1);
      removed := GetText(pos, end);
      var _ := EraseCharacters(pos.line, cindex, UTF8CharLength(lines[pos.line][cindex].ch));
    }

    /** Take away the character at `pos`, or the newline if the line ends there. */
    method RemoveNext(pos: Coordinates) returns (taken: bool, removed: seq<byte>, end: Coordinates)
      requires Valid() && !readOnly && pos.line < |lines|
      requires pos.column <= MaxColumn(tabSize, Chars(lines[pos.line]))
      requires pos.column != MaxColumn(tabSize, Chars(lines[pos.line])) ==>
                 IndexAt(tabSize, Chars(lines[pos.line]), pos.column) < |lines[pos.line]|
      modifies this`lines
      ensures Valid() && InRange(old(Text()), pos)
      ensures EditSteps.NextTaken(tabSize, old(Text()), pos, taken, removed, end, Text())
      ensures pos.line < |lines| && (!taken ==> lines == old(lines))
    {
      hide Lines, Flat;
      ghost var i, o := PlacedPosition(tabSize, lines, pos);
      var maxColumn := GetLineMaxColumn(pos.line);
      if pos.column == maxColumn {
        if pos.line == |lines| - 1 {
          CharacterAt(lines, pos.line, i);
          return false, [], pos;
        }
        removed, end := TakeLineEnd(pos);
      } else {
        removed, end := TakeCharacter(pos);
      }
      taken := true;
    }

    /** Clip the cursor to the document. */
    method PlaceCursor() returns (pos: Coordinates)
      requires Valid()
      modifies this`state
      ensures pos == Sanitize(tabSize, Text(), old(state).cursorPosition)
      ensures state == old(state).(cursorPosition := pos)
    {
      pos := GetActualCursorCoordinates();
      SetCursorPosition(pos);
    }

    /** Ask for recolouring and record the edit. */
    method FinishEdit(u: UndoRecord, from: int, count: int)
      requires Valid() && !readOnly
      modifies this`undoBuffer, this`undoIndex, this`colorRange, this`checkComments
      ensures undoBuffer == old(undoBuffer[..undoIndex] + [u]) && undoIndex == old(undoIndex) + 1
      ensures colorRange == Request(old(colorRange), |lines|, from, count)
    {
      Colorize(from, count);
      AddUndo(u);
    }

    /** Delete the selection, or the character at the cursor. */
    method Delete()
      requires Valid() && !readOnly && Editing.Placed(Contents())
      requires !Editing.ReadsPastEnd(tabSize, Contents())
      modifies this`lines, this`state, this`undoBuffer, this`undoIndex, this`colorRange, this`checkComments
      ensures Valid() && Contents() == Editing.Delete(tabSize, old(Contents()))
      ensures colorRange ==
              AllWidened(old(colorRange), Recolouring.OpMoves(tabSize, old(Contents()), Edits.DeleteOp))
    {
      if HasSelection() {
        RemoveSelection();
      } else {
        DeleteCharacter();
      }
    }

    method DeleteCharacter()
      requires Valid() && !readOnly && Editing.Placed(Contents()) && !HasSelection()
      requires !Editing.ReadsPastEnd(tabSize, Contents())
      modifies this`lines, this`state, this`undoBuffer, this`undoIndex, this`colorRange, this`checkComments
      ensures Valid() && Contents() == Editing.Delete(tabSize, old(Contents()))
      ensures colorRange ==
              AllWidened(old(colorRange), Recolouring.OpMoves(tabSize, old(Contents()), Edits.DeleteOp))
    {
      hide Lines, Flat;
      ghost var k := Contents();
      var before := state;
      var pos := PlaceCursor();
      ghost var i, o := PlacedPosition(tabSize, lines, pos);
      var taken, removed, end := RemoveNext(pos);
      EditSteps.DeleteIs(tabSize, k, taken, removed, end, Text());
      if !taken {
        return;
      }
      OneWidened(colorRange, Recolouring.DeleteMoves(tabSize, k.text, pos)[0]);
      FinishEdit(Editing.UndoRecord([], Editing.ORIGIN, Editing.ORIGIN, removed, pos, end, before, state),
                 pos.line, 1);
    }

    // ---------- Backspace ----------

    /** Where the character that ends before index `i` of line `l` starts. */
    method StepBack(l: nat, i: nat) returns (cindex: nat)
      requires l < |lines| && 0 < i <= |lines[l]|
      ensures cindex == PreviousBoundary(Chars(lines[l]), i)
    {
      var line := lines[l];
      cindex := i - 1;
      while cindex > 0 && IsUTFSequence(line[cindex].ch)
        invariant 0 <= cindex < i
        invariant PreviousBoundary(Chars(line), cindex + 1) == PreviousBoundary(Chars(line), i)
      {
        cindex := cindex - 1;
      }
    }

    /** Take away the newline before the line of `pos`. */
    method TakeLineStart(pos: Coordinates) returns (removed: seq<byte>, start: Coordinates)
      requires Valid() && !readOnly && InRange(Text(), pos) && 0 < pos.line < |lines| && pos.column == 0
      modifies this`lines
      ensures Valid() && EditSteps.PreviousTaken(tabSize, old(Text()), pos, removed, start, Text())
      ensures start.line == pos.line - 1 && |lines| == old(|lines|) - 1
    {
      hide Lines, Flat;
      AtIs(pos, 0);
      assert GoodLine(lines[pos.line]) && GoodLine(lines[pos.line - 1]);
      CharacterBefore(lines, pos.line, 0);
      removed := [NEWLINE];
      var prevSize := GetLineMaxColumn(pos.line - 1);
      start := Coordinates(pos.line - 1, prevSize);
      PositionCoordinate(tabSize, lines, pos.line - 1, |lines[pos.line - 1]|);
      JoinNextLine(pos.line - 1);
    }

    /** Take away the character before `pos`. */
    method TakeCharacterBefore(pos: Coordinates) returns (removed: seq<byte>, start: Coordinates)
      requires Valid() && !readOnly && pos.line < |lines|
      requires 0 < pos.column <= MaxColumn(tabSize, Chars(lines[pos.line]))
      modifies this`lines
      ensures Valid() && InRange(old(Text()), pos)
      ensures EditSteps.PreviousTaken(tabSize, old(Text()), pos, removed, start, Text())
      ensures start.line == pos.line && |lines| == old(|lines|)
    {
      hide Lines, Flat;
      ghost var i, o := PlacedPosition(tabSize, lines, pos);
      CharacterBefore(lines, pos.line, i);
      var cend := GetCharacterIndex(pos);
      var cindex := StepBack(pos.line, cend);
      start := Coordinates(pos.line, pos.column - 1);
      removed := EraseCharacters(pos.line, cindex, cend - cindex);
    }

    /** Take away the character before `pos`, or the newline before its line. */
    method RemovePrevious(pos: Coordinates) returns (removed: seq<byte>, start: Coordinates)
      requires Valid() && !readOnly && pos.line < |lines|
      requires pos.column <= MaxColumn(tabSize, Chars(lines[pos.line]))
      modifies this`lines
      ensures Valid() && InRange(old(Text()), pos)
      ensures EditSteps.PreviousTaken(tabSize, old(Text()), pos, removed, start, Text())
      ensures start.line < |lines| && (removed == [] ==> lines == old(lines))
    {
      ghost var i, o := PlacedPosition(tabSize, lines, pos);
      if pos.column == 0 {
        if pos.line == 0 {
          CharacterBefore(lines, pos.line, i);
          return [], pos;
        }
        removed, start := TakeLineStart(pos);
      } else {
        removed, start := TakeCharacterBefore(pos);
      }
    }

    /** Delete the selection, or the character before the cursor. */
    method Backspace()
      requires Valid() && !readOnly && Editing.Placed(Contents())
      modifies this`lines, this`state, this`undoBuffer, this`undoIndex, this`colorRange, this`checkComments
      ensures Valid() && Contents() == Editing.Backspace(tabSize, old(Contents()))
      ensures colorRange ==
              AllWidened(old(colorRange), Recolouring.OpMoves(tabSize, old(Contents()), Edits.BackspaceOp))
    {
      if HasSelection() {
        RemoveSelection();
      } else {
        BackspaceCharacter();
      }
    }

    method BackspaceCharacter()
      requires Valid() && !readOnly && Editing.Placed(Contents()) && !HasSelection()
      modifies this`lines, this`state, this`undoBuffer, this`undoIndex, this`colorRange, this`checkComments
      ensures Valid() && Contents() == Editing.Backspace(tabSize, old(Contents()))
      ensures colorRange ==
              AllWidened(old(colorRange), Recolouring.OpMoves(tabSize, old(Contents()), Edits.BackspaceOp))
    {
      hide Lines, Flat;
      ghost var k := Contents();
      var before := state;
      var pos := PlaceCursor();
      var removed, start := RemovePrevious(pos);
      EditSteps.BackspaceIs(tabSize, k, removed, start, Text());
      if removed == [] {
        return;
      }
      OneWidened(colorRange, Recolouring.BackspaceMoves(tabSize, k.text, pos)[0]);
      state := state.(cursorPosition := start);
      FinishEdit(Editing.UndoRecord([], Editing.ORIGIN, Editing.ORIGIN, removed, start, pos, before, state),
                 start.line, 1);
    }

    // ---------- Pasting and typing ----------

    /** Delete the selection, if there is one; returns the removed half of an undo record. */
    method TakeSelection() returns (u: UndoRecord)
      requires Valid() && !readOnly && Editing.Placed(Contents())
      modifies this`lines, this`state, this`colorRange, this`checkComments
      ensures Valid() && Contents() == Editing.DeleteSelection(tabSize, old(Contents()))
      ensures u == Editing.SelectionRecord(tabSize, old(Contents()))
      ensures colorRange == AllWidened(old(colorRange), Recolouring.SelectionMoves(tabSize, old(Contents())))
    {
      u := Editing.UndoRecord([], Editing.ORIGIN, Editing.ORIGIN, [], Editing.ORIGIN, Editing.ORIGIN, state, state);
      if HasSelection() {
        EditSteps.SelectionDeleted(tabSize, Contents());
        var removed := GetSelectedText();
        u := u.(removed := removed, removedStart := state.selectionStart, removedEnd := state.selectionEnd);
        DeleteSelection();
      }
    }

    /** Insert a text at the cursor; cursor and selection go to where InsertTextAt ends. */
    method InsertText(value: seq<byte>)
      requires Valid() && !readOnly && Editing.CString(value)
      modifies this`lines, this`state, this`colorRange, this`checkComments
      ensures Valid()
      ensures var pos := Sanitize(tabSize, old(Text()), old(state).cursorPosition);
              && Text() == Editing.InsertTextAt(tabSize, old(Text()), pos, value)
              && var end := Editing.CountedEnd(pos, value);
                 var sel := Sanitize(tabSize, Text(), end);
                 state == Editing.EditorState(sel, sel, end)
      ensures colorRange == AllWidened(old(colorRange), Recolouring.PasteMoves(tabSize, old(Contents()), value))
    {
      hide Lines, Flat, Framed, Sanitize, Editing.CountedEnd;
      ghost var k := Contents();
      var pos := GetActualCursorCoordinates();
      Applicable.InsertedLines(tabSize, Text(), pos, value);
      Applicable.CountedLine(pos, value);
      var start := if pos.Less(state.selectionStart) then pos else state.selectionStart;
      var totalLines := pos.line - start.line;
      var end, inserted := InsertTextAt(pos, value);
      totalLines := totalLines + inserted;
      SelectNothing(end);
      SetCursorPosition(end);
      OneWidened(colorRange, Recolouring.PasteMoves(tabSize, k, value)[0]);
      Colorize(start.line - 1, totalLines + 2);
    }

    method PasteInto(u: UndoRecord, clip: seq<byte>)
      requires Valid() && !readOnly && Editing.CString(clip)
      modifies this`lines, this`state, this`undoBuffer, this`undoIndex, this`colorRange, this`checkComments
      ensures Valid() && Contents() == Editing.PasteInto(tabSize, old(Contents()), u, clip)
      ensures colorRange == AllWidened(old(colorRange), Recolouring.PasteMoves(tabSize, old(Contents()), clip))
    {
      hide Lines, Flat;
      var addedStart := GetActualCursorCoordinates();
      InsertText(clip);
      var addedEnd := GetActualCursorCoordinates();
      AddUndo(u.(added := clip, addedStart := addedStart, addedEnd := addedEnd, after := state));
    }

    /** Paste the clipboard text; nothing happens for an empty one or in a read-only editor. */
    method Paste(clip: seq<byte>)
      requires Valid() && Editing.Placed(Contents()) && Editing.CString(clip)
      modifies this`lines, this`state, this`undoBuffer, this`undoIndex, this`colorRange, this`checkComments
      ensures Valid()
      ensures Contents() == if readOnly then old(Contents()) else Editing.Paste(tabSize, old(Contents()), clip)
      ensures colorRange == if readOnly then old(colorRange)
                            else AllWidened(old(colorRange),
                                            Recolouring.OpMoves(tabSize, old(Contents()), Edits.PasteOp(clip)))
    {
      hide Lines, Flat, Framed, AllWidened, Recolouring.SelectionMoves, Recolouring.PasteMoves, Editing.PasteInto,
           Editing.DeleteSelection, Editing.SelectionRecord;
      NoneWidened(colorRange);
      if readOnly {
        return;
      }
      if clip != [] {
        ghost var r, k := colorRange, Contents();
        var u := TakeSelection();
        ghost var d := Contents();
        PasteInto(u, clip);
        WidenedThen(r, Recolouring.SelectionMoves(tabSize, k), Recolouring.PasteMoves(tabSize, d, clip));
      }
    }

    /** The number of leading spaces and tabs of line `l` that a new line below copies. */
    method IndentationOf(l: nat) returns (n: nat)
      requires Valid() && l < |lines|
      ensures n == if autoIndentation then |Editing.LeadingBlanks(Chars(lines[l]))| else 0
    {
      n := 0;
      if autoIndentation {
        var line := lines[l];
        var s := Chars(line);
        while n < |line| && line[n].ch < 0x80 && (line[n].ch == SPACE || line[n].ch == TAB)
          invariant n <= |line|
          invariant n + |Editing.LeadingBlanks(s[n..])| == |Editing.LeadingBlanks(s)|
        {
          assert s[n..][1..] == s[n + 1..];
          n := n + 1;
        }
      }
    }

    /** Break line `l` at index `i`; the new line starts with the first `n` glyphs of the line. */
    method BreakWithIndentation(l: nat, i: nat, n: nat)
      requires !readOnly && l < |lines| && i <= |lines[l]| && n <= |lines[l]|
      modifies this`lines
      ensures lines == BreakGlyphs(old(lines), l, i, old(lines[l][..n]))
    {
      InsertLine(l + 1);
      var line := lines[l];
      var newLine := line[..n] + line[i..];
      lines := lines[l := line[..i]][l + 1 := newLine];
    }

    /** Break the line at the cursor; the cursor goes behind the copied indentation. */
    method InsertBreak() returns (coord: Coordinates, end: Coordinates)
      requires Valid() && !readOnly
      modifies this`lines
      ensures Valid()
      ensures coord == Sanitize(tabSize, old(Text()), state.cursorPosition)
      ensures var t := old(Text());
              var o, indent := At(tabSize, t, coord), Editing.Indentation(autoIndentation, t, coord);
              && Text() == Editing.Insert(t, o, [NEWLINE] + indent)
              && end == EndOf(tabSize, Text()[..o + 1 + |indent|])
      ensures end.line == coord.line + 1 < |lines|
    {
      hide Lines, Flat;
      coord := GetActualCursorCoordinates();
      var whitespaceSize := IndentationOf(coord.line);
      var cindex := GetCharacterIndex(coord);
      AtIs(coord, cindex);
      IndentGlyphs(lines, coord.line, whitespaceSize, autoIndentation);
      BreakText(lines, coord.line, cindex, lines[coord.line][..whitespaceSize]);
      BreakWithIndentation(coord.line, cindex, whitespaceSize);
      PositionCoordinate(tabSize, lines, coord.line + 1, whitespaceSize);
      var column := GetCharacterColumn(coord.line + 1, whitespaceSize);
      end := Coordinates(coord.line + 1, column);
    }

    method NewlineInto(u: UndoRecord)
      requires Valid() && !readOnly
      modifies this`lines, this`state, this`undoBuffer, this`undoIndex, this`colorRange, this`checkComments
      ensures Valid() && Contents() == Editing.NewlineInto(tabSize, old(Contents()), u, autoIndentation)
      ensures colorRange == AllWidened(old(colorRange), Recolouring.TypeMoves(tabSize, old(Contents()), Contents(), 1))
    {
      hide Lines, Flat;
      ghost var r, d := colorRange, Contents();
      var coord, end := InsertBreak();
      state := state.(cursorPosition := end);
      FinishEdit(u.(added := [NEWLINE], addedStart := coord, addedEnd := end, after := state), coord.line - 1, 3);
      OneWidened(r, Recolouring.TypeMoves(tabSize, d, Contents(), 1)[0]);
    }

    /** Take away the character at index `i` of line `l` in overwrite mode; returns its characters and
        the coordinate of its end. */
    method EraseOverwritten(l: nat, i: nat) returns (removed: seq<byte>, end: Coordinates)
      requires Valid() && !readOnly && l < |lines| && i < |lines[l]| && Boundary(Chars(lines[l]), i)
      modifies this`lines
      ensures Valid() && |lines| == old(|lines|) && i <= |lines[l]| && Boundary(Chars(lines[l]), i)
      ensures Offset(Doc(lines), l, i) == old(Offset(Doc(lines), l, i))
      ensures var t, o := old(Text()), old(Offset(Doc(lines), l, i));
              && o < |t|
              && var m := o + UTF8CharLength(t[o]);
                 && m <= |t| && Text() == Editing.Remove(t, o, m) && removed == t[o..m]
                 && end == EndOf(tabSize, t[..m])
    {
      hide Lines, Flat;
      CharacterAt(lines, l, i);
      var d := UTF8CharLength(lines[l][i].ch);
      PositionCoordinate(tabSize, lines, l, i + d);
      var column := GetCharacterColumn(l, i + d);
      end := Coordinates(l, column);
      RemoveInLineText(lines, l, i, i + d);
      OffsetInLine(Doc(lines), l, i, i + d);
      OffsetKept(lines, lines[l := lines[l][..i] + lines[l][i + d..]], l, i);
      removed := EraseGlyphs(l, i, d);
    }

    /** Insert one character at index `i` of line `l`; returns the coordinate of its end. */
    method InsertCharacter(l: nat, i: nat, e: seq<byte>) returns (end: Coordinates)
      requires Valid() && !readOnly && l < |lines| && Boundary(Chars(lines[l]), i)
      requires GoodLine(Fresh(e, Default))
      modifies this`lines
      ensures Valid()
      ensures var t, o := old(Text()), old(Offset(Doc(lines), l, i));
              && o <= |t| && Text() == Editing.Insert(t, o, e)
              && end == EndOf(tabSize, Text()[..o + |e|])
      ensures end.line == l && |lines| == old(|lines|)
    {
      hide Lines, Flat;
      InsertedText(lines, l, i, Fresh(e, Default));
      InsertBytes(l, i, e);
      PositionCoordinate(tabSize, lines, l, i + |e|);
      var column := GetCharacterColumn(l, i + |e|);
      end := Coordinates(l, column);
    }

    /** Insert one character, move the cursor behind it and complete the record. */
    method EnterAt(l: nat, i: nat, e: seq<byte>, u: UndoRecord)
      requires Valid() && !readOnly && l < |lines| && Boundary(Chars(lines[l]), i)
      requires GoodLine(Fresh(e, Default))
      modifies this`lines, this`state, this`undoBuffer, this`undoIndex, this`colorRange, this`checkComments
      ensures Valid() && old(Offset(Doc(lines), l, i)) <= |old(Text())|
      ensures Contents() == Editing.Entered(tabSize, old(Contents()), old(Text()),
                                            old(Offset(Doc(lines), l, i)), e, u)
      ensures colorRange == Request(old(colorRange), |lines|, l - 1, 3)
    {
      var end := InsertCharacter(l, i, e);
      state := state.(cursorPosition := end);
      FinishEdit(u.(addedEnd := end, after := state), l - 1, 3);
    }

    /** Where the cursor is: its coordinate in the document, and the index there. */
    method LocateCursor() returns (coord: Coordinates, cindex: nat)
      requires Valid()
      ensures coord == Sanitize(tabSize, Text(), state.cursorPosition) && coord.line < |lines|
      ensures Boundary(Chars(lines[coord.line]), cindex)
      ensures At(tabSize, Text(), coord) == Offset(Doc(lines), coord.line, cindex)
      ensures cindex < |lines[coord.line]| <==>
              (At(tabSize, Text(), coord) < |Text()| && Text()[At(tabSize, Text(), coord)] != NEWLINE)
      ensures cindex < |lines[coord.line]| ==> coord == state.cursorPosition
    {
      coord := GetActualCursorCoordinates();
      cindex := GetCharacterIndex(coord);
      AtIs(coord, cindex);
      CharacterAt(lines, coord.line, cindex);
      CursorNotClipped(tabSize, lines, state.cursorPosition);
    }

    /** Overwrite mode: take the character at the cursor away, and note it in the record `u`. */
    method EraseAtCursor(coord: Coordinates, cindex: nat, ghost o: nat, u: UndoRecord, e: seq<byte>)
      returns (v: UndoRecord)
      requires Valid() && !readOnly && coord.line < |lines| && cindex < |lines[coord.line]|
      requires Boundary(Chars(lines[coord.line]), cindex)
      requires coord == state.cursorPosition == Sanitize(tabSize, Text(), state.cursorPosition)
      requires o == Offset(Doc(lines), coord.line, cindex) == At(tabSize, Text(), coord)
      requires Editing.Overwrites(true, Text(), o)
      modifies this`lines
      ensures Valid() && coord.line < |lines| && Boundary(Chars(lines[coord.line]), cindex)
      ensures Offset(Doc(lines), coord.line, cindex) == o <= |Text()|
      ensures Editing.CharacterInto(tabSize, old(Contents()), u, e, true) ==
              Editing.Entered(tabSize, Contents(), Text(), o, e, v)
    {
      hide Lines, Flat;
      ghost var d := Contents();
      var removed, end := EraseOverwritten(coord.line, cindex);
      EditSteps.OverwriteIs(tabSize, d, u, e, coord, o, removed, end, Text());
      v := u.(added := e, addedStart := coord, removed := u.removed + removed, removedStart := state.cursorPosition,
              removedEnd := end);
    }

    method CharacterInto(u: UndoRecord, e: seq<byte>)
      requires Valid() && !readOnly && GoodLine(Fresh(e, Default))
      modifies this`lines, this`state, this`undoBuffer, this`undoIndex, this`colorRange, this`checkComments
      ensures Valid() && Contents() == Editing.CharacterInto(tabSize, old(Contents()), u, e, overwrite)
      ensures colorRange == AllWidened(old(colorRange), Recolouring.TypeMoves(tabSize, old(Contents()), Contents(), 0))
    {
      ghost var r, d := colorRange, Contents();
      var coord, cindex := LocateCursor();
      EditSteps.CharacterIs(tabSize, Contents(), u, e, overwrite, coord);
      var v := u.(added := e, addedStart := coord);
      if overwrite && cindex < |lines[coord.line]| {
        v := EraseAtCursor(coord, cindex, Offset(Doc(lines), coord.line, cindex), u, e);
      }
      EnterAt(coord.line, cindex, e, v);
      OneWidened(r, Recolouring.TypeMoves(tabSize, d, Contents(), 0)[0]);
    }

    // ---------- Tab and Shift+Tab over several lines ----------

    /** One line under Tab or Shift+Tab. */
    static method IndentOne(tab: TabSize, shift: bool, line: Line) returns (r: Line, modified: bool)
      requires GoodLine(line)
      ensures GoodLine(r) && Chars(r) == Indenting.IndentLine(tab, shift, Chars(line))
      ensures modified <==> Chars(r) != Chars(line)
    {
      r, modified := line, false;
      if shift {
        if |r| > 0 {
          if r[0].ch == TAB {
            Dedented(r);
            r := r[1..];
            modified := true;
          } else {
            var j := 0;
            while j < tab && |r| > 0 && r[0].ch == SPACE
              invariant j <= tab && GoodLine(r) && j + |r| == |line|
              invariant Indenting.DropSpaces(Chars(r), tab - j) == Indenting.DropSpaces(Chars(line), tab)
              invariant (modified <==> j > 0) && (j == 0 ==> r == line)
            {
              Dedented(r);
              r := r[1..];
              modified := true;
              j := j + 1;
            }
          }
        }
      } else {
        var g := [NewGlyph(TAB, Background)];
        assert Chars(g) == [TAB];
        assert GoodLine(g);
        GoodConcat(g, line);
        r := g + line;
        modified := true;
      }
    }

    /** The lines lo, ..., hi under Tab or Shift+Tab. */
    method IndentRange(lo: nat, hi: nat, shift: bool) returns (modified: bool)
      requires Valid() && !readOnly && lo <= hi < |lines|
      modifies this`lines
      ensures Valid()
      ensures Doc(lines) == Indenting.IndentLines(tabSize, shift, old(Doc(lines)), lo, hi)
      ensures modified <==> Doc(lines) != old(Doc(lines))
    {
      hide Lines, Flat, Framed, Indenting.IndentLine;
      ghost var before := lines;
      modified := false;
      for l := lo to hi + 1
        invariant GoodLines(lines) && |lines| == |before|
        invariant forall k :: 0 <= k < |lines| && !(lo <= k < l) ==> lines[k] == before[k]
        invariant forall k :: lo <= k < l ==>
                    Chars(lines[k]) == Indenting.IndentLine(tabSize, shift, Chars(before[k]))
        invariant modified <==> exists k :: lo <= k < l && Chars(lines[k]) != Chars(before[k])
      {
        assert GoodLine(lines[l]);
        ghost var prior := lines;
        var line, changed := IndentOne(tabSize, shift, lines[l]);
        lines := lines[l := line];
        modified := modified || changed;
        StillGood(prior, lines, l);
      }
      if modified {
        ghost var k :| lo <= k < hi + 1 && Chars(lines[k]) != Chars(before[k]);
        assert Doc(lines)[k] != Doc(before)[k];
      }
    }

    lemma StillGood(ls: seq<Line>, ms: seq<Line>, l: nat)
      requires GoodLines(ls) && l < |ls| && |ms| == |ls| && ms == ls[l := ms[l]] && GoodLine(ms[l])
      ensures GoodLines(ms)
    {
      forall k | 0 <= k < |ms|
        ensures GoodLine(ms[k])
      {
        assert k != l ==> GoodLine(ls[k]);
      }
    }

    /** The lines lo, ..., hi under Tab or Shift+Tab, with their texts before and after; the text after goes
        up to the end of line `last`. */
    method IndentBlock(lo: nat, hi: nat, last: nat, shift: bool)
      returns (modified: bool, removed: seq<byte>, removedEnd: Coordinates, added: seq<byte>, addedEnd: Coordinates)
      requires Valid() && !readOnly && lo <= hi < |lines| && lo <= last <= |lines|
      modifies this`lines
      ensures Valid()
      ensures Doc(lines) == Indenting.IndentLines(tabSize, shift, old(Doc(lines)), lo, hi)
      ensures modified <==> Doc(lines) != old(Doc(lines))
      ensures removed == Flat(old(Doc(lines))[lo..hi + 1])
      ensures removedEnd == Coordinates(hi, MaxColumn(tabSize, old(Doc(lines))[hi]))
      ensures modified ==> TextOfLines(lo, last, added, addedEnd)
    {
      hide Flat, Indenting.IndentLine;
      removed, removedEnd := TextOfBlock(lo, hi);
      added, addedEnd := [], removedEnd;
      modified := IndentRange(lo, hi, shift);
      if modified {
        added, addedEnd := TextOfBlock(lo, last);
      }
    }

    /** The text of the lines lo, ..., last, and its end; below the last line there is one more newline. */
    ghost predicate TextOfLines(lo: nat, last: nat, text: seq<byte>, end: Coordinates)
      requires lo <= last <= |lines| && lo < |lines|
      reads this
    {
      if last < |lines| then
        text == Flat(Doc(lines)[lo..last + 1]) && end == Coordinates(last, MaxColumn(tabSize, Doc(lines)[last]))
      else text == Flat(Doc(lines)[lo..]) + [NEWLINE] && end == Coordinates(last, 0)
    }

    method TextOfBlock(lo: nat, last: nat) returns (text: seq<byte>, end: Coordinates)
      requires Valid() && lo <= last <= |lines| && lo < |lines|
      ensures TextOfLines(lo, last, text, end)
    {
      hide Lines, Flat;
      BlockOf(tabSize, lines, lo, if last < |lines| then last else |lines| - 1);
      BlockEnd(tabSize, lines, lo);
      var column := GetLineMaxColumn(last);
      end := Coordinates(last, column);
      text := GetText(Coordinates(lo, 0), end);
    }

    /** The new selection and the record, once the lines are indented. */
    method RecordIndent(ghost d: Document, lo: nat, hi: nat, last: nat, removed: seq<byte>, removedEnd: Coordinates,
                        added: seq<byte>, rangeEnd: Coordinates)
      requires Valid() && !readOnly && lo <= hi < |lines| && |d| == |lines|
      requires removed == Flat(d[lo..hi + 1]) && removedEnd == Coordinates(hi, MaxColumn(tabSize, d[hi]))
      requires last == (if Indenting.EndsBelow(state, |d|) then |d| else hi) && TextOfLines(lo, last, added, rangeEnd)
      modifies this`state, this`undoBuffer, this`undoIndex
      ensures Valid()
      ensures Contents() == Indenting.Indented(tabSize, old(Contents()), d, Doc(lines), lo, hi)
    {
      hide Lines, Flat;
      var before := state;
      var start := Coordinates(lo, 0);
      var end := if state.selectionEnd.column != 0 then rangeEnd else Coordinates(state.selectionEnd.line, 0);
      state := state.(selectionStart := start, selectionEnd := end);
      AddUndo(Editing.UndoRecord(added, start, rangeEnd, removed, start, removedEnd, before, before));
    }

    /** EnterCharacter('\t') with a selection that spans lines. */
    method IndentSelection(shift: bool)
      requires Valid() && !readOnly && Indenting.Spans(Contents())
      modifies this`lines, this`state, this`undoBuffer, this`undoIndex
      ensures Valid() && Contents() == Indenting.IndentSelection(tabSize, old(Contents()), shift)
    {
      hide Lines, Flat, Framed, Indenting.IndentLines, Indenting.Indented, MaxColumn, TextOfLines;
      var start, end := state.selectionStart, state.selectionEnd;
      if end.column == 0 && end.line > 0 {
        end := Coordinates(end.line - 1, end.column);
      }
      if end.line >= |lines| {
        end := Coordinates(|lines| - 1, end.column);
      }
      if start.line <= end.line {
        ghost var d, k := Doc(lines), Contents();
        var last := if state.selectionEnd.column != 0 then end.line else state.selectionEnd.line - 1;
        var modified, removed, removedEnd, added, rangeEnd := IndentBlock(start.line, end.line, last, shift);
        if modified {
          Indenting.IndentedLines(tabSize, k, Text(), d, Doc(lines), start.line, end.line);
          RecordIndent(d, start.line, end.line, last, removed, removedEnd, added, rangeEnd);
        }
      }
    }

    /** A key press: indent whole lines, or replace the selection by a newline or a character. */
    method EnterCharacter(c: wchar, shift: bool)
      requires Valid() && !readOnly && Edits.Typed(c)
      requires Editing.Placed(Contents())
      modifies this`lines, this`state, this`undoBuffer, this`undoIndex, this`colorRange, this`checkComments
      ensures Valid()
      ensures Contents() ==
              Edits.EnterCharacter(tabSize, old(Contents()), c, shift, overwrite, autoIndentation)
      ensures colorRange == AllWidened(old(colorRange), Recolouring.OpMoves(
                                tabSize, old(Contents()), Edits.EnterOp(c, shift, overwrite, autoIndentation)))
    {
      hide Lines, Flat, Framed, AllWidened, Recolouring.SelectionMoves, Recolouring.TypeMoves, Editing.NewlineInto,
           Editing.DeleteSelection, Editing.SelectionRecord, Editing.EnterPrintable, Indenting.IndentSelection;
      if HasSelection() && c == TAB && state.selectionStart.line != state.selectionEnd.line {
        OneWidened(colorRange, Changed(state.selectionStart.line, Indenting.LastSelectedLine(state)));
        IndentSelection(shift);
      } else if c == NEWLINE {
        ghost var r, k := colorRange, Contents();
        var u := TakeSelection();
        ghost var d := Contents();
        NewlineInto(u);
        WidenedThen(r, Recolouring.SelectionMoves(tabSize, k), Recolouring.TypeMoves(tabSize, d, Contents(), 1));
      } else {
        EnterPrintable(c);
      }
    }

    method EnterPrintable(c: wchar)
      requires Valid() && !readOnly && Editing.Placed(Contents())
      requires Edits.Typed(c) && c != NEWLINE
      modifies this`lines, this`state, this`undoBuffer, this`undoIndex, this`colorRange, this`checkComments
      ensures Valid() && Contents() == Editing.EnterPrintable(tabSize, old(Contents()), c, overwrite)
      ensures var d, ms := Editing.DeleteSelection(tabSize, old(Contents())),
                           Recolouring.SelectionMoves(tabSize, old(Contents()));
              colorRange == AllWidened(old(colorRange), if ImTextCharToUtf8(c) == [] then ms
                                                        else ms + Recolouring.TypeMoves(tabSize, d, Contents(), 0))
    {
      hide Lines, Flat;
      ghost var r, k := colorRange, Contents();
      var u := TakeSelection();
      ghost var d := Contents();
      var e := ImTextCharToUtf8(c);
      if e != [] {
        EncodedGood(c);
        CharacterInto(u, e);
        WidenedThen(r, Recolouring.SelectionMoves(tabSize, k), Recolouring.TypeMoves(tabSize, d, Contents(), 0));
      }
    }

    // ---------- Undo and redo ----------

    /** The deleting half of a record. */
    method CutText(cut: seq<byte>, a: Coordinates, b: Coordinates, extra: nat)
      requires Valid() && !readOnly && (cut != [] ==> Editing.CanDelete(Text(), a, b))
      modifies this`lines, this`colorRange, this`checkComments
      ensures Valid()
      ensures Text() == if cut == [] then old(Text()) else Editing.DeleteRange(tabSize, old(Text()), a, b)
      ensures |lines| == old(|lines|) - Applicable.Cuts(cut, a, b)
      ensures colorRange == AllWidened(old(colorRange), Recolouring.CutMoves(|lines|, cut, a, b, extra))
    {
      hide Lines, Flat, Framed;
      if cut != [] {
        Applicable.DeletedLines(tabSize, Text(), a, b);
        DeleteRange(a, b);
        OneWidened(colorRange, Recolouring.CutMoves(|lines|, cut, a, b, extra)[0]);
        Colorize(a.line - 1, b.line - a.line + extra);
      }
    }

    /** The inserting half. */
    method PutText(put: seq<byte>, c: Coordinates, d: Coordinates, extra: nat)
      requires Valid() && !readOnly && Editing.CString(put) && (put != [] ==> InRange(Text(), c))
      modifies this`lines, this`colorRange, this`checkComments
      ensures Valid()
      ensures Text() == if put == [] then old(Text()) else Editing.InsertTextAt(tabSize, old(Text()), c, put)
      ensures |lines| == old(|lines|) + Editing.CountNewlines(put)
      ensures colorRange == AllWidened(old(colorRange), Recolouring.PutMoves(|lines|, put, c, d, extra))
    {
      hide Lines, Flat, Framed;
      if put != [] {
        Applicable.InsertedLines(tabSize, Text(), c, put);
        var _, _ := InsertTextAt(c, put);
        OneWidened(colorRange, Recolouring.PutMoves(|lines|, put, c, d, extra)[0]);
        Colorize(c.line - 1, d.line - c.line + extra);
      }
    }

    /** Both directions of an undo record: delete one text and insert another; `extra` is how many
        lines beyond the edited ones are recoloured. */
    method Swap(cut: seq<byte>, a: Coordinates, b: Coordinates, put: seq<byte>, c: Coordinates, d: Coordinates,
                extra: nat)
      requires Valid() && !readOnly && Editing.CanSwap(tabSize, Text(), cut, a, b, put, c)
      modifies this`lines, this`colorRange, this`checkComments
      ensures Valid() && Text() == Editing.Swap(tabSize, old(Text()), cut, a, b, put, c)
      ensures |lines| == old(|lines|) - Applicable.Cuts(cut, a, b) + Editing.CountNewlines(put)
      ensures colorRange ==
              AllWidened(old(colorRange), Recolouring.SwapMoves(old(|lines|), cut, a, b, put, c, d, extra))
    {
      hide Lines, Flat, Framed, InRange, Editing.CanDelete, Editing.DeleteRange, Editing.InsertTextAt, AllWidened,
           Recolouring.CutMoves, Recolouring.PutMoves;
      ghost var r := colorRange;
      CutText(cut, a, b, extra);
      ghost var m := |lines|;
      PutText(put, c, d, extra);
      WidenedThen(r, Recolouring.CutMoves(m, cut, a, b, extra), Recolouring.PutMoves(|lines|, put, c, d, extra));
    }

    method UndoOne(u: UndoRecord)
      requires Valid() && !readOnly && Editing.CanUndoRecord(tabSize, Text(), u)
      modifies this`lines, this`state, this`colorRange, this`checkComments
      ensures Valid() && Text() == Editing.UndoText(tabSize, old(Text()), u) && state == u.before
      ensures |lines| == Recolouring.UndoneLines(old(|lines|), u)
      ensures colorRange == AllWidened(old(colorRange), Recolouring.UndoneMoves(old(|lines|), u))
    {
      hide Lines, Flat, Framed;
      Swap(u.added, u.addedStart, u.addedEnd, u.removed, u.removedStart, u.removedEnd, 2);
      state := u.before;
    }

    method RedoOne(u: UndoRecord)
      requires Valid() && !readOnly && Editing.CanRedoRecord(tabSize, Text(), u)
      modifies this`lines, this`state, this`colorRange, this`checkComments
      ensures Valid() && Text() == Editing.RedoText(tabSize, old(Text()), u) && state == u.after
      ensures |lines| == Recolouring.RedoneLines(old(|lines|), u)
      ensures colorRange == AllWidened(old(colorRange), Recolouring.RedoneMoves(old(|lines|), u))
    {
      hide Lines, Flat, Framed;
      Swap(u.removed, u.removedStart, u.removedEnd, u.added, u.addedStart, u.addedEnd, 1);
      state := u.after;
    }

    predicate CanUndo()
      reads this
    {
      !readOnly && undoIndex > 0
    }

    predicate CanRedo()
      reads this
    {
      !readOnly && undoIndex < |undoBuffer|
    }

    /** The lines that Undo(n) leaves waiting. */
    ghost function UndoRangeLeft(n: nat): Range
      requires undoIndex <= |undoBuffer|
      reads this
    {
      AllWidened(colorRange, Recolouring.UndoMoves(|lines|, undoBuffer, undoIndex, n))
    }

    ghost function RedoRangeLeft(n: nat): Range
      requires undoIndex <= |undoBuffer|
      reads this
    {
      AllWidened(colorRange, Recolouring.RedoMoves(|lines|, undoBuffer, undoIndex, n))
    }

    /** The body of the loop of Undo, with `n` steps to go. */
    method UndoStep(ghost n: nat)
      requires Valid() && CanUndo() && 0 < n && Editing.Undo(tabSize, Contents(), n).Some?
      modifies this`lines, this`state, this`undoIndex, this`colorRange, this`checkComments
      ensures Valid() && Editing.Undo(tabSize, Contents(), n - 1) == Editing.Undo(tabSize, old(Contents()), n)
      ensures UndoRangeLeft(n - 1) == old(UndoRangeLeft(n))
    {
      hide Lines, Flat, Editing.CanUndoRecord, Editing.CanRedoRecord, Editing.UndoText, Editing.RedoText,
           Editing.Undo, Editing.Redo, Recolouring.UndoneMoves, Recolouring.RedoneMoves,
           AllWidened;
      EditSteps.UndoUnrolls(tabSize, Contents(), n);
      ghost var r, u := colorRange, undoBuffer[undoIndex - 1];
      WidenedThen(r, Recolouring.UndoneMoves(|lines|, u),
                  Recolouring.UndoMoves(Recolouring.UndoneLines(|lines|, u), undoBuffer, undoIndex - 1, n - 1));
      undoIndex := undoIndex - 1;
      UndoOne(undoBuffer[undoIndex]);
    }

    /** The body of the loop of Redo. */
    method RedoStep(ghost n: nat)
      requires Valid() && CanRedo() && 0 < n && Editing.Redo(tabSize, Contents(), n).Some?
      modifies this`lines, this`state, this`undoIndex, this`colorRange, this`checkComments
      ensures Valid() && Editing.Redo(tabSize, Contents(), n - 1) == Editing.Redo(tabSize, old(Contents()), n)
      ensures RedoRangeLeft(n - 1) == old(RedoRangeLeft(n))
    {
      hide Lines, Flat, Editing.CanUndoRecord, Editing.CanRedoRecord, Editing.UndoText, Editing.RedoText,
           Editing.Undo, Editing.Redo, Recolouring.UndoneMoves, Recolouring.RedoneMoves,
           AllWidened;
      EditSteps.RedoUnrolls(tabSize, Contents(), n);
      ghost var r, u := colorRange, undoBuffer[undoIndex];
      WidenedThen(r, Recolouring.RedoneMoves(|lines|, u),
                  Recolouring.RedoMoves(Recolouring.RedoneLines(|lines|, u), undoBuffer, undoIndex + 1, n - 1));
      undoIndex := undoIndex + 1;
      RedoOne(undoBuffer[undoIndex - 1]);
    }

    method Undo(steps: nat)
      requires Valid() && (readOnly || Editing.Undo(tabSize, Contents(), steps).Some?)
      modifies this`lines, this`state, this`undoIndex, this`colorRange, this`checkComments
      ensures Valid()
      ensures Contents() == if readOnly then old(Contents())
                            else Editing.Undo(tabSize, old(Contents()), steps).value
      ensures colorRange == if readOnly then old(colorRange) else old(UndoRangeLeft(steps))
    {
      hide Lines, Flat, Framed, Editing.UndoRecordOn, Editing.RedoRecordOn, AllWidened;
      ghost var goal := Editing.Undo(tabSize, Contents(), steps);
      var n := steps;
      while CanUndo() && n > 0
        invariant Valid()
        invariant readOnly ==> Contents() == old(Contents())
        invariant !readOnly ==> Editing.Undo(tabSize, Contents(), n) == goal
        invariant readOnly ==> colorRange == old(colorRange)
        invariant !readOnly ==> UndoRangeLeft(n) == old(UndoRangeLeft(steps))
        decreases n
      {
        UndoStep(n);
        n := n - 1;
      }
      NoneWidened(colorRange);
    }

    method Redo(steps: nat)
      requires Valid() && (readOnly || Editing.Redo(tabSize, Contents(), steps).Some?)
      modifies this`lines, this`state, this`undoIndex, this`colorRange, this`checkComments
      ensures Valid()
      ensures Contents() == if readOnly then old(Contents())
                            else Editing.Redo(tabSize, old(Contents()), steps).value
      ensures colorRange == if readOnly then old(colorRange) else old(RedoRangeLeft(steps))
    {
      hide Lines, Flat, Framed, Editing.UndoRecordOn, Editing.RedoRecordOn, AllWidened;
      ghost var goal := Editing.Redo(tabSize, Contents(), steps);
      var n := steps;
      while CanRedo() && n > 0
        invariant Valid()
        invariant readOnly ==> Contents() == old(Contents())
        invariant !readOnly ==> Editing.Redo(tabSize, Contents(), n) == goal
        invariant readOnly ==> colorRange == old(colorRange)
        invariant !readOnly ==> RedoRangeLeft(n) == old(RedoRangeLeft(steps))
        decreases n
      {
        RedoStep(n);
        n := n - 1;
      }
      NoneWidened(colorRange);
    }

    // ---------- Colouring ----------

    /** Colour the lines from `from` up to `to`. */
    method ColorizeRange(from: nat, to: int)
      requires Valid()
      modifies this`lines
      ensures Valid() && Doc(lines) == old(Doc(lines))
      ensures |lines| == |old(lines)|
      ensures forall l {:trigger lines[l]} :: 0 <= l < |lines| ==>
                lines[l] == if from <= l < to then Coloring.Colored(language, old(lines)[l]) else old(lines)[l]
    {
      hide Coloring.Colored, GoodLine;
      ghost var before := lines;
      var endLine := MaxOf(0, Min(|lines|, to));
      var l: int := from;
      while l < endLine
        invariant |lines| == |before| && (from < endLine ==> from <= l <= endLine) && (endLine <= from ==> l == from)
        invariant forall k {:trigger lines[k]} :: 0 <= k < |lines| ==>
                    lines[k] == if from <= k < l && k < endLine then Coloring.Colored(language, before[k])
                                else before[k]
      {
        var line := Coloring.ColorizeLine(language, lines[l]);
        lines := lines[l := line];
        l := l + 1;
      }
      RangeColored(before, lines, from, endLine);
    }

    lemma RangeColored(before: seq<Line>, ls: seq<Line>, from: nat, to: int)
      requires GoodLines(before) && |ls| == |before|
      requires forall k {:trigger ls[k]} :: 0 <= k < |ls| ==>
                 ls[k] == if from <= k < to then Coloring.Colored(language, before[k]) else before[k]
      ensures GoodLines(ls) && Doc(ls) == Doc(before)
    {
      hide Coloring.Colored, CleanLine, Uniform;
      forall k | 0 <= k < |ls|
        ensures GoodLine(ls[k]) && Chars(ls[k]) == Chars(before[k])
      {
        assert GoodLine(before[k]);
        Coloring.ColoredGood(language, before[k]);
      }
    }

    /** A character in a string; returns the index of the last byte taken, and whether the string goes on. */
    method FlagInString(l: nat, i: nat, inComment: bool) returns (index: nat, inString: bool)
      requires l < |lines| && i < |lines[l]|
      requires lines[l][i].ch == Tokenizers.BACKSLASH ==> i + 1 < |lines[l]|
      modifies this`lines
      ensures var line, s := old(lines)[l], old(Chars(lines[l]));
              var one := line[i := line[i].(multiLineComment := inComment)];
              && index == (if Comments.Pairs(s, i) then i + 1 else i) < |line|
              && inString == (Comments.Pairs(s, i) || s[i] != Tokenizers.QUOTE)
              && lines == old(lines)[l := if index == i then one
                                          else one[index := one[index].(multiLineComment := inComment)]]
    {
      var c := lines[l][i].ch;
      assert forall k :: 0 <= k < |lines[l]| ==> Chars(lines[l])[k] == lines[l][k].ch;
      lines := lines[l := lines[l][i := lines[l][i].(multiLineComment := inComment)]];
      index, inString := i, true;
      if c == Tokenizers.QUOTE {
        if i + 1 < |lines[l]| && lines[l][i + 1].ch == Tokenizers.QUOTE {
          index := i + 1;
          if index < |lines[l]| {
            lines := lines[l := lines[l][index := lines[l][index].(multiLineComment := inComment)]];
          }
        } else {
          inString := false;
        }
      } else if c == Tokenizers.BACKSLASH {
        index := i + 1;
        if index < |lines[l]| {
          lines := lines[l := lines[l][index := lines[l][index].(multiLineComment := inComment)]];
        }
      }
    }

    /** A character outside strings, but no quotation mark; returns where a comment started, and whether
        a single-line comment goes on. */
    method FlagOutside(l: nat, i: nat, commentLine: nat, commentIndex: nat, singleLine: bool, ghost st: Comments.Scan)
      returns (startLine: nat, startIndex: nat, single: bool)
      requires l < |lines| && i < |lines[l]|
      requires Comments.Stands(|lines|, commentLine, commentIndex, l, i, st) && singleLine == st.singleLine
      modifies this`lines
      ensures var line, s := old(lines)[l], old(Chars(lines[l]));
              var now := Comments.CommentNow(s, i, st);
              && single == Comments.SingleNow(s, i, st)
              && lines == old(lines)[l := line[i := line[i].(comment := single, multiLineComment := now)]]
              && (if now && !Comments.Closes(s, i) then Comments.BeforePos(startLine, startIndex, l, i + 1)
                  else startLine == |lines| && startIndex == 0)
    {
      var line := lines[l];
      startLine, startIndex, single := commentLine, commentIndex, singleLine;
      if i + 2 <= |line| && line[i].ch == Comments.SLASH && line[i + 1].ch == Comments.SLASH {
        single := true;
      } else if !single && i + 2 <= |line| && line[i].ch == Comments.SLASH && line[i + 1].ch == Comments.STAR {
        startLine, startIndex := l, i;
      }
      var inComment := startLine < l || (startLine == l && startIndex <= i);
      lines := lines[l := line[i := line[i].(comment := single, multiLineComment := inComment)]];
      if i + 1 >= 2 && line[i - 1].ch == Comments.STAR && line[i].ch == Comments.SLASH {
        startLine, startIndex := |lines|, 0;
      }
    }

    /** One step of the comment pass, at index `i` of line `l`; the variables of the pass and the index
        behind the step are returned. */
    method FlagCharacter(l: nat, i: nat, commentLine: nat, commentIndex: nat, inString: bool, singleLine: bool,
                         preproc: bool, firstChar: bool, ghost st: Comments.Scan)
      returns (startLine: nat, startIndex: nat, quoted: bool, single: bool, directive: bool, first: bool,
               concatenate: bool, next: nat)
      requires l < |lines| && i < |lines[l]| && Comments.Looks(st)
      requires Comments.Behind(Chars(lines[l]), i, st) <= |lines[l]|
      requires Comments.Stands(|lines|, commentLine, commentIndex, l, i, st)
      requires inString == st.inString && singleLine == st.singleLine && preproc == st.preproc
               && firstChar == st.firstChar
      modifies this`lines
      ensures var s := old(Chars(lines[l]));
              var seen := Comments.Seen(s, i, st);
              && lines == old(lines)[l := Comments.Painted(old(lines)[l], s, i, st)]
              && next == Comments.Behind(s, i, st)
              && Comments.Stands(|lines|, startLine, startIndex, l, next, seen)
              && quoted == seen.inString && single == seen.singleLine && directive == seen.preproc
              && first == seen.firstChar && concatenate == seen.concatenate
    {
      hide Comments.Painted, Comments.Seen, Comments.SingleNow, Comments.CommentNow, Comments.Closes,
           Comments.Paint, Comments.Look;
      var line := lines[l];
      Comments.SeenAfter(Chars(line), i, st);
      var c := line[i].ch;
      startLine, startIndex, quoted, single := commentLine, commentIndex, inString, singleLine;
      directive, first := preproc, firstChar;
      if c != Comments.HASH && !Words.IsSpace(c) {
        first := false;
      }
      concatenate := i == |line| - 1 && line[|line| - 1].ch == Tokenizers.BACKSLASH;
      var inComment := startLine < l || (startLine == l && startIndex <= i);
      var index := i;
      if inString {
        Comments.PaintedInString(line, i, st);
        index, quoted := FlagInString(l, i, inComment);
      } else {
        if first && c == Comments.HASH {
          directive := true;
        }
        if c == Tokenizers.QUOTE {
          quoted := true;
          lines := lines[l := lines[l][i := lines[l][i].(multiLineComment := inComment)]];
        } else {
          startLine, startIndex, single := FlagOutside(l, i, commentLine, commentIndex, singleLine, st);
        }
        Comments.PaintedOutside(line, i, st, lines[l]);
      }
      lines := lines[l := lines[l][index := lines[l][index].(preprocessor := directive)]];
      next := index + UTF8CharLength(c);
    }

    /** The comment pass over the whole document. */
    method FlagComments()
      requires Valid() && Comments.NeverOverruns(Document())
      modifies this`lines, this`checkComments
      ensures Valid() && Doc(lines) == old(Doc(lines)) && !checkComments
      ensures lines == Comments.Flagged(old(lines))
    {
      hide Lines, Flat, Framed, Comments.Visit, Comments.Look, Comments.Paint, Comments.Painted, Comments.Seen,
           Comments.StateAt, Comments.PassState, Comments.FlaggedUpTo;
      ghost var before, d := lines, Doc(lines);
      var endLine := |lines|;
      var commentLine: nat, commentIndex: nat := endLine, 0;
      var inString, singleLine, preproc, firstChar, concatenate := false, false, false, true, false;
      var l: nat, i: nat := 0, 0;
      Comments.PassBegins(before);
      ghost var st := Comments.PassState(d, 0, 0);
      while l < endLine
        invariant |lines| == |before| && l <= endLine && Comments.FlaggedUpTo(before, lines, l, i)
        invariant i > 0 ==> l < endLine && i < |before[l]|
        invariant st == Comments.PassState(d, l, i) && (i > 0 ==> Comments.Looks(Comments.StateAt(d, l, i)))
        invariant Comments.Stands(endLine, commentLine, commentIndex, l, i, st)
        invariant inString == st.inString && singleLine == st.singleLine && preproc == st.preproc
        invariant firstChar == st.firstChar
        invariant i == 0 ==> concatenate == st.concatenate
        decreases endLine - l, if l < endLine then |before[l]| - i else 0
      {
        Comments.Entered(d, l, i);
        Comments.FlaggedKeepsText(before, lines, l, i);
        if i == 0 && !concatenate {
          singleLine, preproc, firstChar := false, false, true;
        }
        concatenate := false;
        assert Doc(lines)[l] == d[l];
        if |lines[l]| > 0 {
          Comments.PassCharacter(before, lines, l, i);
          commentLine, commentIndex, inString, singleLine, preproc, firstChar, concatenate, i :=
            FlagCharacter(l, i, commentLine, commentIndex, inString, singleLine, preproc, firstChar,
                          Comments.StateAt(d, l, i));
          st := Comments.PassState(d, l, i);
          Comments.StateThere(d, l, i);
          if i >= |lines[l]| {
            i := 0;
            l := l + 1;
          }
        } else {
          Comments.PassEmptyLine(before, lines, l);
          st := Comments.PassState(d, l + 1, 0);
          i := 0;
          l := l + 1;
        }
      }
      Comments.PassEnds(before, lines);
      checkComments := false;
    }

    /** One tick of the colouring: the comment pass if an edit asked for it, then the next lines of the
        range. */
    method ColorizeInternal()
      requires Valid() && 0 <= colorRange.lo
      requires colorizerEnabled && checkComments ==> Comments.NeverOverruns(Document())
      modifies this`lines, this`colorRange, this`checkComments
      ensures Valid() && Doc(lines) == old(Doc(lines))
      ensures !colorizerEnabled ==>
                lines == old(lines) && colorRange == old(colorRange) && checkComments == old(checkComments)
      ensures colorizerEnabled ==>
                && colorRange == Tick(old(colorRange), INCREMENT) && !checkComments
                && lines == Coloring.ColorTick(language, old(if checkComments then Comments.Flagged(lines) else lines),
                                               old(colorRange), INCREMENT)
    {
      hide Lines, Flat, Framed, Coloring.Colored, GoodLine;
      if !colorizerEnabled {
        return;
      }
      if checkComments {
        FlagComments();
      }
      if colorRange.lo < colorRange.hi {
        var to := Min(colorRange.lo + INCREMENT, colorRange.hi);
        ColorizeRange(colorRange.lo, to);
        colorRange := Range(to, colorRange.hi);
        if colorRange.hi == colorRange.lo {
          colorRange := SENTINEL;
        }
      }
    }

    // ---------- Moving the cursor ----------

    /** The selection lies between the two ends of the interactive one, clipped and in order. */
    ghost predicate SelectsInteractive()
      requires Valid()
      reads this
    {
      var a, b := Sanitize(tabSize, Text(), interactiveStart), Sanitize(tabSize, Text(), interactiveEnd);
      (state.selectionStart, state.selectionEnd) == if b.Less(a) then (b, a) else (a, b)
    }

    /** Let the interactive selection follow the cursor. */
    method FollowCursor(select: bool, endFirst: bool, oldPos: Coordinates)
      requires Valid()
      modifies this`state, this`interactiveStart, this`interactiveEnd
      ensures (interactiveStart, interactiveEnd) ==
              Caret.Follow(select, endFirst, oldPos, state.cursorPosition,
                           old((interactiveStart, interactiveEnd)))
      ensures state.cursorPosition == old(state).cursorPosition
      ensures SelectsInteractive()
    {
      var cursor := state.cursorPosition;
      if !select {
        interactiveStart, interactiveEnd := cursor, cursor;
      } else if endFirst {
        if oldPos == interactiveEnd {
          interactiveEnd := cursor;
        } else if oldPos == interactiveStart {
          interactiveStart := cursor;
        } else {
          interactiveStart, interactiveEnd := oldPos, cursor;
        }
      } else {
        if oldPos == interactiveStart {
          interactiveStart := cursor;
        } else if oldPos == interactiveEnd {
          interactiveEnd := cursor;
        } else {
          interactiveStart, interactiveEnd := cursor, oldPos;
        }
      }
      SetSelection(interactiveStart, interactiveEnd, Words.Normal);
    }

    /** Move `amount` characters to the left, over line ends, stopping at the start of the text. */
    method MoveLeft(amount: nat, select: bool)
      requires Valid()
      modifies this`state, this`interactiveStart, this`interactiveEnd
      ensures state.cursorPosition ==
              Caret.LeftOf(tabSize, Text(), Sanitize(tabSize, Text(), old(state).cursorPosition), amount)
      ensures (interactiveStart, interactiveEnd) ==
              Caret.Follow(select, false, old(state).cursorPosition, state.cursorPosition,
                           old((interactiveStart, interactiveEnd)))
      ensures SelectsInteractive()
    {
      hide Lines, Flat;
      var oldPos := state.cursorPosition;
      var line, cindex := StepsLeft(amount);
      PositionCoordinate(tabSize, lines, line, cindex);
      var column := GetCharacterColumn(line, cindex);
      state := state.(cursorPosition := Coordinates(line, column));
      FollowCursor(select, false, oldPos);
    }

    /** The position one character to the left; the start of the text stays. */
    method OneLeft(l: nat, i: nat) returns (line: nat, cindex: nat)
      requires Valid() && l < |lines| && Boundary(Chars(lines[l]), i)
      ensures line < |lines| && Boundary(Chars(lines[line]), cindex)
      ensures var o := Offset(Doc(lines), l, i);
              && o <= |Text()|
              && Offset(Doc(lines), line, cindex) == if o == 0 then 0 else PreviousBoundary(Text(), o)
    {
      line, cindex := l, i;
      CharacterBefore(lines, line, cindex);
      if cindex == 0 {
        if line > 0 {
          assert GoodLine(lines[line - 1]);
          line := line - 1;
          cindex := |lines[line]|;
        }
      } else {
        cindex := StepBack(line, cindex);
      }
    }

    /** The position `amount` characters before the cursor. */
    method StepsLeft(amount: nat) returns (line: nat, cindex: nat)
      requires Valid()
      ensures line < |lines| && Boundary(Chars(lines[line]), cindex)
      ensures Offset(Doc(lines), line, cindex) ==
              Caret.StepsBack(Text(), At(tabSize, Text(), Sanitize(tabSize, Text(), state.cursorPosition)), amount)
    {
      hide Lines, Flat, Framed;
      var cursor;
      cursor, cindex := LocateCursor();
      line := cursor.line;
      SplitAt(Doc(lines), line, cindex);
      ghost var t, goal := Text(), Caret.StepsBack(Text(), Offset(Doc(lines), line, cindex), amount);
      var n: nat := amount;
      while n > 0
        invariant n <= amount && line < |lines| && Boundary(Chars(lines[line]), cindex)
        invariant Offset(Doc(lines), line, cindex) <= |t|
        invariant Caret.StepsBack(t, Offset(Doc(lines), line, cindex), n) == goal
      {
        line, cindex := OneLeft(line, cindex);
        n := n - 1;
      }
    }

    /** The state in which the loop of MoveRight starts. */
    function Start(): Caret.Walk
      requires state.cursorPosition.line < |lines|
      reads this
    {
      var c := state.cursorPosition;
      Caret.Walk(c, IndexAt(tabSize, Chars(lines[c.line]), c.column), false)
    }

    /** Move `amount` characters to the right, as far as the index of the loop belongs to the cursor
        (Caret.RightInStep). At the end of the text the call ends at once, with the selection as it was;
        nothing happens on a line that does not exist. */
    method MoveRight(amount: nat, select: bool)
      requires Valid()
      modifies this`state, this`interactiveStart, this`interactiveEnd
      ensures old(state).cursorPosition.line >= |lines| ==>
                && state == old(state)
                && interactiveStart == old(interactiveStart) && interactiveEnd == old(interactiveEnd)
      ensures old(state).cursorPosition.line < |lines| ==>
                var w := Caret.RightSteps(tabSize, Document(), old(Start()), amount);
                && state.cursorPosition == w.cursor
                && (w.stopped ==>
                      && state == old(state).(cursorPosition := w.cursor)
                      && interactiveStart == old(interactiveStart) && interactiveEnd == old(interactiveEnd))
                && (!w.stopped ==>
                      && (interactiveStart, interactiveEnd) ==
                         Caret.Follow(select, true, old(state).cursorPosition, w.cursor,
                                      old((interactiveStart, interactiveEnd)))
                      && SelectsInteractive())
    {
      hide Lines, Flat, Framed, Caret.RightStep;
      var oldPos := state.cursorPosition;
      if oldPos.line >= |lines| {
        return;
      }
      ghost var d, goal := Document(), Caret.RightSteps(tabSize, Document(), Start(), amount);
      var cindex := GetCharacterIndex(oldPos);
      var n: nat := amount;
      while n > 0
        invariant state == old(state).(cursorPosition := state.cursorPosition) && state.cursorPosition.line < |lines|
        invariant cindex >= 0 && interactiveStart == old(interactiveStart) && interactiveEnd == old(interactiveEnd)
        invariant Caret.RightSteps(tabSize, d, Caret.Walk(state.cursorPosition, cindex, false), n) == goal
      {
        n := n - 1;
        var moved;
        moved, cindex := OneRight(cindex, n);
        if !moved {
          return;
        }
      }
      FollowCursor(select, true, oldPos);
    }

    /** One pass of the loop of MoveRight, with `n` passes to go after it. */
    method OneRight(index: nat, ghost n: nat) returns (moved: bool, cindex: nat)
      requires Valid() && state.cursorPosition.line < |lines|
      modifies this`state
      ensures state == old(state).(cursorPosition := state.cursorPosition) && state.cursorPosition.line < |lines|
      ensures var w := Caret.Walk(old(state).cursorPosition, index, false);
              var goal := Caret.RightSteps(tabSize, Document(), w, n + 1);
              && (moved ==>
                    Caret.RightSteps(tabSize, Document(), Caret.Walk(state.cursorPosition, cindex, false), n) == goal)
              && (!moved ==> goal.stopped && goal.cursor == state.cursorPosition == w.cursor)
    {
      hide Lines, Flat, Framed;
      var lindex := state.cursorPosition.line;
      ghost var w := Caret.Walk(state.cursorPosition, index, false);
      cindex := index;
      if cindex >= |lines[lindex]| {
        if lindex < |lines| - 1 {
          state := state.(cursorPosition := Coordinates(lindex + 1, 0));
        } else {
          Caret.StoppedStays(tabSize, Document(), Caret.RightStep(tabSize, Document(), w), n);
          return false, cindex;
        }
      } else {
        cindex := cindex + UTF8CharLength(lines[lindex][cindex].ch);
        var column := GetCharacterColumn(lindex, cindex);
        state := state.(cursorPosition := Coordinates(lindex, column));
      }
      moved := true;
    }
  }

  /** Taking the first character off a line, if it is a tab or a space. */
  lemma Dedented(line: Line)
    requires GoodLine(line) && |line| > 0 && line[0].ch < 0x80
    ensures GoodLine(line[1..]) && Chars(line[1..]) == Chars(line)[1..] && Chars(line)[0] == line[0].ch
  {
    NextBoundaryAscii(Chars(line), 0);
    GoodSlice(line, 1, |line|);
    assert line[1..|line|] == line[1..];
  }

  /** The text of whole lines, by coordinates. */
  lemma BlockOf(tab: TabSize, ls: seq<Line>, lo: nat, hi: nat)
    requires GoodLines(ls) && lo <= hi < |ls|
    ensures var t, a, b := Flat(Doc(ls)), Coordinates(lo, 0), Coordinates(hi, MaxColumn(tab, Chars(ls[hi])));
            && CleanText(t) && Lines(t) == Doc(ls)
            && At(tab, t, a) <= At(tab, t, b) <= |t|
            && t[At(tab, t, a)..At(tab, t, b)] == Flat(Doc(ls)[lo..hi + 1])
  {
    var d := Doc(ls);
    GoodIsClean(ls);
    Indenting.BlockPieces(tab, d, lo, hi);
    var a := Coordinates(lo, 0);
    AtOfFlat(tab, d, a);
    AtMonotone(tab, Flat(d), a, Coordinates(hi, MaxColumn(tab, d[hi])));
    SplitAt(d, lo, 0);
    SliceMiddle(Flat(Before(d, lo, 0)), Flat(d[lo..hi + 1]), Flat(After(d, hi, |d[hi]|)));
  }

  /** The text from the start of a line on. */
  lemma BlockEnd(tab: TabSize, ls: seq<Line>, lo: nat)
    requires GoodLines(ls) && lo < |ls|
    ensures var t, a := Flat(Doc(ls)), Coordinates(lo, 0);
            CleanText(t) && Lines(t) == Doc(ls) && At(tab, t, a) <= |t| && t[At(tab, t, a)..] == Flat(Doc(ls)[lo..])
  {
    hide Lines, Flat;
    var d := Doc(ls);
    GoodIsClean(ls);
    AtOfFlat(tab, d, Coordinates(lo, 0));
    SplitAt(d, lo, 0);
    assert d[lo][0..] == d[lo];
    assert After(d, lo, 0) == d[lo..];
    assert GoodLine(ls[lo]);
  }

  lemma SliceMiddle(p: seq<byte>, m: seq<byte>, s: seq<byte>)
    ensures (p + m + s)[|p|..|p| + |m|] == m
  {
  }

  /** A position keeps its offset when the line changes only behind it. */
  lemma OffsetKept(ls: seq<Line>, ms: seq<Line>, l: nat, i: nat)
    requires |ls| == |ms| && l < |ls| && i <= |ls[l]| && i <= |ms[l]|
    requires ls[..l] == ms[..l] && ls[l][..i] == ms[l][..i]
    ensures Offset(Doc(ls), l, i) == Offset(Doc(ms), l, i)
  {
    assert Chars(ls[l])[..i] == Chars(ls[l][..i]) && Chars(ms[l])[..i] == Chars(ms[l][..i]);
    forall k | 0 <= k < l
      ensures Doc(ls)[k] == Doc(ms)[k]
    {
      assert ls[k] == ls[..l][k] == ms[..l][k] == ms[k];
    }
    assert Before(Doc(ls), l, i) == Before(Doc(ms), l, i);
  }

  lemma IndentGlyphs(ls: seq<Line>, l: nat, n: nat, autoIndent: bool)
    requires GoodLines(ls) && l < |ls|
    requires n == if autoIndent then |Editing.LeadingBlanks(Chars(ls[l]))| else 0
    ensures n <= |ls[l]| && GoodLine(ls[l][..n])
    ensures Lines(Flat(Doc(ls))) == Doc(ls)
    ensures Chars(ls[l][..n]) == Editing.Indentation(autoIndent, Flat(Doc(ls)), Coordinates(l, 0))
  {
    GoodIsClean(ls);
    assert GoodLine(ls[l]);
    if autoIndent {
      BlanksGood(ls[l], n);
    }
  }

  // ---------- The loop of InsertTextAt ----------

  lemma InsertOneMore(line: Line, i: nat, g: Line, k: nat)
    requires i <= |line| && k < |g|
    ensures var m := line[..i] + g[..k] + line[i..];
            m[..i + k] + [g[k]] + m[i + k..] == line[..i] + g[..k + 1] + line[i..]
  {
  }

  /** After inserting `done` at offset `o` of `t`, the next insertion goes to index `i` of line `l`. */
  ghost predicate Inserted(t: seq<byte>, o: nat, done: seq<byte>, ls: seq<Line>, l: nat, i: int) {
    && o <= |t|
    && GoodLines(ls)
    && l < |ls|
    && Boundary(Chars(ls[l]), i)
    && Flat(Doc(ls)) == Editing.Insert(t, o, Editing.StripReturns(done))
    && Offset(Doc(ls), l, i) == o + |Editing.StripReturns(done)|
  }

  /** The state of the loop once the first `p` bytes of `value` are dealt with. */
  ghost predicate InsertedUpTo(t: seq<byte>, o: nat, start: Coordinates, value: seq<byte>, p: nat,
                               ls: seq<Line>, where: Coordinates, cindex: int, totalLines: nat) {
    && Editing.CString(value)
    && Boundary(value, p)
    && Inserted(t, o, value[..p], ls, where.line, cindex)
    && where == Editing.CountedEnd(start, value[..p])
    && totalLines == Editing.CountNewlines(value[..p])
  }

  lemma InsertBegin(ls: seq<Line>, start: Coordinates, i: int, value: seq<byte>)
    requires GoodLines(ls) && start.line < |ls| && Boundary(Chars(ls[start.line]), i)
    requires Editing.CString(value)
    ensures InsertedUpTo(Flat(Doc(ls)), Offset(Doc(ls), start.line, i), start, value, 0, ls, start, i, 0)
  {
    hide Lines, Before, After, Join;
    SplitAt(Doc(ls), start.line, i);
    assert value[..0] == [];
  }

  lemma InsertEnd(tab: TabSize, t: seq<byte>, o: nat, start: Coordinates, value: seq<byte>,
                  ls: seq<Line>, where: Coordinates, totalLines: nat)
    requires exists cindex :: InsertedUpTo(t, o, start, value, |value|, ls, where, cindex, totalLines)
    requires CleanText(t) && InRange(t, start) && o == At(tab, t, start)
    ensures GoodLines(ls) && where.line < |ls|
    ensures Flat(Doc(ls)) == Editing.InsertTextAt(tab, t, start, value)
    ensures where == Editing.CountedEnd(start, value) && totalLines == Editing.CountNewlines(value)
  {
    assert value[..|value|] == value;
  }

  lemma InsertStep(t: seq<byte>, o: nat, start: Coordinates, value: seq<byte>, p: nat,
                   ls: seq<Line>, where: Coordinates, cindex: int, totalLines: nat)
    requires InsertedUpTo(t, o, start, value, p, ls, where, cindex, totalLines) && p < |value|
    ensures 0 <= cindex <= |ls[where.line]| && p + UTF8CharLength(value[p]) <= |value|
    ensures value[p] == RETURN ==>
              InsertedUpTo(t, o, start, value, p + 1, ls, where, cindex, totalLines)
    ensures value[p] == NEWLINE ==>
              InsertedUpTo(t, o, start, value, p + 1, SplitGlyphs(ls, where.line, cindex),
                           Coordinates(where.line + 1, 0), 0, totalLines + 1)
    ensures value[p] != RETURN && value[p] != NEWLINE ==>
              var d := UTF8CharLength(value[p]);
              InsertedUpTo(t, o, start, value, p + d,
                           InsertGlyphs(ls, where.line, cindex, Fresh(value[p..p + d], Default)),
                           Coordinates(where.line, where.column + 1), cindex + d, totalLines)
  {
    NextCharacter(start, value, p);
    if value[p] == RETURN {
      SkipReturn(t, o, value[..p], ls, where.line, cindex);
    } else if value[p] == NEWLINE {
      InsertNewlineStep(t, o, value[..p], ls, where.line, cindex);
    } else {
      InsertCharacterStep(t, o, value[..p], ls, where.line, cindex, value[p..p + UTF8CharLength(value[p])]);
    }
  }

  /** The next character of the inserted text. */
  lemma NextCharacter(start: Coordinates, value: seq<byte>, p: nat)
    requires Editing.CString(value) && Boundary(value, p) && p < |value|
    ensures var n := p + UTF8CharLength(value[p]);
            && n <= |value| && Boundary(value, n) && CodeSequence(value[p..n])
            && value[..n] == value[..p] + value[p..n]
            && Editing.CountNewlines(value[..n]) ==
               Editing.CountNewlines(value[..p]) + (if value[p] == NEWLINE then 1 else 0)
            && Editing.CountedEnd(start, value[..n]) ==
               var c := Editing.CountedEnd(start, value[..p]);
               if value[p] == RETURN then c
               else if value[p] == NEWLINE then Coordinates(c.line + 1, 0)
               else Coordinates(c.line, c.column + 1)
    ensures value[p] == RETURN || value[p] == NEWLINE ==> value[p..p + 1] == [value[p]]
  {
    NextBoundary(value, p);
    var n := p + UTF8CharLength(value[p]);
    FramedSlice(value, 0, p);
    assert value[0..p] == value[..p] && value[..n] == value[..p] + value[p..n];
    Applicable.CountSequence(value[p..n]);
    Applicable.CountAppend(value[..p], value[p..n]);
    Pasting.CountedAppend(start, value[..p], value[p..n]);
    Pasting.CountedSequence(Editing.CountedEnd(start, value[..p]), value[p..n]);
  }

  lemma SkipReturn(t: seq<byte>, o: nat, done: seq<byte>, ls: seq<Line>, l: nat, i: int)
    requires Inserted(t, o, done, ls, l, i)
    ensures Inserted(t, o, done + [RETURN], ls, l, i)
  {
    StripByte(RETURN);
    Editing.StripAppend(done, [RETURN]);
    assert Editing.StripReturns(done) + [] == Editing.StripReturns(done);
  }

  lemma InsertNewlineStep(t: seq<byte>, o: nat, done: seq<byte>, ls: seq<Line>, l: nat, i: nat)
    requires Inserted(t, o, done, ls, l, i)
    ensures Inserted(t, o, done + [NEWLINE], SplitGlyphs(ls, l, i), l + 1, 0)
  {
    StripByte(NEWLINE);
    Editing.StripAppend(done, [NEWLINE]);
    SplitText(ls, l, i);
    InsertTwice(t, o, Editing.StripReturns(done), [NEWLINE]);
    assert GoodLine(SplitGlyphs(ls, l, i)[l + 1]);
  }

  lemma InsertCharacterStep(t: seq<byte>, o: nat, done: seq<byte>, ls: seq<Line>, l: nat, i: nat, c: seq<byte>)
    requires Inserted(t, o, done, ls, l, i)
    requires CodeSequence(c) && c[0] != RETURN && c[0] != NEWLINE && c[0] != 0
    ensures Inserted(t, o, done + c, InsertGlyphs(ls, l, i, Fresh(c, Default)), l, i + |c|)
  {
    hide Lines, Flat, Framed;
    CharacterClean(c);
    FreshGood(c, Default);
    Editing.StripSequence(c);
    Editing.StripAppend(done, c);
    InsertedText(ls, l, i, Fresh(c, Default));
    InsertTwice(t, o, Editing.StripReturns(done), c);
  }

  lemma CharacterClean(c: seq<byte>)
    requires CodeSequence(c) && c[0] != RETURN && c[0] != NEWLINE && c[0] != 0
    ensures CleanLine(c)
  {
    CodeSequenceFramed(c);
    assert forall k :: 0 < k < |c| ==> IsUTFSequence(c[k]);
  }
}
