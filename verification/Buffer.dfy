/** Positions in the line buffer and the characters of the flat text around them. */
module Buffer {
  import opened Utf8
  import opened Columns
  import opened Documents
  import opened Positions
  import opened Glyphs
  import Editing

  /** A coordinate of the buffer: line and index on one side, the offset on the other. */
  lemma PlacedPosition(tab: TabSize, lines: seq<Line>, c: Coordinates) returns (i: nat, o: nat)
    requires GoodLines(lines) && c.line < |lines| && c.column <= MaxColumn(tab, Chars(lines[c.line]))
    ensures CleanText(Flat(Doc(lines))) && InRange(Flat(Doc(lines)), c)
    ensures i == IndexAt(tab, Chars(lines[c.line]), c.column) && Boundary(Chars(lines[c.line]), i)
    ensures o == At(tab, Flat(Doc(lines)), c) == Offset(Doc(lines), c.line, i)
    ensures c.column == 0 <==> i == 0
    ensures c.column == MaxColumn(tab, Chars(lines[c.line])) ==> i == |lines[c.line]|
  {
    GoodIsClean(lines);
    AtOfFlat(tab, Doc(lines), c);
    var s := Chars(lines[c.line]);
    assert GoodLine(lines[c.line]);
    i := IndexAt(tab, s, c.column);
    o := At(tab, Flat(Doc(lines)), c);
    IndexIsFirstBoundary(tab, s, c.column, i);
    IndexOfMaxColumn(tab, s, c.column);
  }

  /** The character of the flat text at a position of the buffer. */
  lemma CharacterAt(lines: seq<Line>, l: nat, i: nat)
    requires GoodLines(lines) && l < |lines| && Boundary(Chars(lines[l]), i)
    ensures var t, o := Flat(Doc(lines)), Offset(Doc(lines), l, i);
            && (i < |lines[l]| ==>
                  && o < |t| && t[o] == lines[l][i].ch && t[o] != NEWLINE
                  && i + UTF8CharLength(t[o]) <= |lines[l]|
                  && Offset(Doc(lines), l, i + UTF8CharLength(t[o])) == o + UTF8CharLength(t[o])
                  && Boundary(Chars(lines[l]), i + UTF8CharLength(t[o])))
            && (i == |lines[l]| && l + 1 < |lines| ==>
                  o < |t| && t[o] == NEWLINE && Offset(Doc(lines), l + 1, 0) == o + 1)
            && (i == |lines[l]| && l + 1 == |lines| ==> o == |t|)
  {
    var d := Doc(lines);
    var s := Chars(lines[l]);
    assert GoodLine(lines[l]);
    assert d[l] == s;
    CharAt(d, l, i);
    if i < |s| {
      assert s[i] == lines[l][i].ch;
      NextBoundary(s, i);
      OffsetInLine(d, l, i, i + UTF8CharLength(s[i]));
    }
  }

  /** The character before a position within a line. */
  lemma CharacterBeforeInLine(lines: seq<Line>, l: nat, i: nat)
    requires GoodLines(lines) && l < |lines| && Boundary(Chars(lines[l]), i) && i > 0
    ensures var t, o := Flat(Doc(lines)), Offset(Doc(lines), l, i);
            var k := PreviousBoundary(Chars(lines[l]), i);
            && 0 < o <= |t| && Boundary(Chars(lines[l]), k)
            && PreviousBoundary(t, o) == Offset(Doc(lines), l, k) == o - (i - k)
            && t[PreviousBoundary(t, o)] == lines[l][k].ch && lines[l][k].ch != NEWLINE
  {
    hide Flat, Lines, Before, After, Framed;
    var d := Doc(lines);
    var t, o := Flat(d), Offset(d, l, i);
    var s := Chars(lines[l]);
    assert GoodLine(lines[l]);
    PreviousOfNext(s, i);
    var k := PreviousBoundary(s, i);
    OffsetInLine(d, l, k, i);
    CharAt(d, l, k);
    PreviousInText(t, s, k, i, o - (i - k));
  }

  /** The newline before a line. */
  lemma NewlineBefore(lines: seq<Line>, l: nat)
    requires GoodLines(lines) && 0 < l < |lines|
    ensures var t, o := Flat(Doc(lines)), Offset(Doc(lines), l, 0);
            && 0 < o <= |t| && t[o - 1] == NEWLINE
            && PreviousBoundary(t, o) == Offset(Doc(lines), l - 1, |lines[l - 1]|) == o - 1
  {
    hide Flat, Lines, Before, After, Framed;
    var d := Doc(lines);
    var t, o := Flat(d), Offset(d, l, 0);
    CharAt(d, l - 1, |d[l - 1]|);
    PreviousUnique(t, o - 1, o);
  }

  /** The character of the flat text before a position of the buffer. */
  lemma CharacterBefore(lines: seq<Line>, l: nat, i: nat)
    requires GoodLines(lines) && l < |lines| && Boundary(Chars(lines[l]), i)
    ensures var t, o := Flat(Doc(lines)), Offset(Doc(lines), l, i);
            && o <= |t|
            && (i > 0 ==>
                  var k := PreviousBoundary(Chars(lines[l]), i);
                  && o > 0 && Boundary(Chars(lines[l]), k)
                  && PreviousBoundary(t, o) == Offset(Doc(lines), l, k) == o - (i - k)
                  && t[PreviousBoundary(t, o)] == lines[l][k].ch && lines[l][k].ch != NEWLINE)
            && (i == 0 && l > 0 ==>
                  && o > 0 && PreviousBoundary(t, o) == Offset(Doc(lines), l - 1, |lines[l - 1]|) == o - 1
                  && t[o - 1] == NEWLINE)
            && (i == 0 && l == 0 ==> o == 0)
  {
    hide Flat, Lines, Before, After, Framed, PreviousBoundary;
    if i > 0 {
      CharacterBeforeInLine(lines, l, i);
    } else if l > 0 {
      NewlineBefore(lines, l);
    } else {
      OffsetOrigin(Doc(lines));
    }
  }

  lemma PreviousInText(t: seq<byte>, s: seq<byte>, k: nat, i: nat, b: nat)
    requires k < i <= |s| && b + (i - k) <= |t| && t[b..b + (i - k)] == s[k..i]
    requires k == PreviousBoundary(s, i) && !IsUTFSequence(s[k])
    ensures PreviousBoundary(t, b + (i - k)) == b
  {
    var o := b + (i - k);
    assert t[b] == t[b..o][0] == s[k];
    forall j | b < j < o
      ensures IsUTFSequence(t[j])
    {
      assert t[j] == t[b..o][j - b] == s[k..i][j - b] == s[k + (j - b)];
    }
    PreviousUnique(t, b, o);
  }

  /** Lines joined at a line end. */
  lemma MergedLines(lines: seq<Line>, l: nat)
    requires l + 1 < |lines|
    ensures var r := lines[l := lines[l] + lines[l + 1]];
            r[..l + 1] + r[l + 2..] == RemoveGlyphs(lines, l, |lines[l]|, l + 1, 0)
  {
    assert lines[l][..|lines[l]|] == lines[l] && lines[l + 1][0..] == lines[l + 1];
  }

  /** Joining a line with the next removes the newline between them. */
  lemma MergeText(lines: seq<Line>, l: nat)
    requires GoodLines(lines) && l + 1 < |lines|
    ensures var r, d := lines[l := lines[l] + lines[l + 1]], Doc(lines);
            var m := r[..l + 1] + r[l + 2..];
            var o := Offset(d, l, |lines[l]|);
            && GoodLines(r) && GoodLines(m)
            && o + 1 <= |Flat(d)| && Flat(Doc(m)) == Editing.Remove(Flat(d), o, o + 1)
  {
    assert GoodLine(lines[l]) && GoodLine(lines[l + 1]);
    GoodConcat(lines[l], lines[l + 1]);
    MergedLines(lines, l);
    RemovedText(lines, l, |lines[l]|, l + 1, 0);
    CharacterAt(lines, l, |lines[l]|);
  }

  lemma RemoveInLine(lines: seq<Line>, l: nat, i: nat, j: nat)
    requires l < |lines| && i <= j <= |lines[l]|
    ensures lines[l := lines[l][..i] + lines[l][j..]] == RemoveGlyphs(lines, l, i, l, j)
    ensures j == |lines[l]| ==> lines[l][..i] + lines[l][j..] == lines[l][..i]
  {
  }

  /** Removing characters within a line. */
  lemma RemoveInLineText(lines: seq<Line>, l: nat, i: nat, j: nat)
    requires GoodLines(lines) && l < |lines| && i <= j
    requires Boundary(Chars(lines[l]), i) && Boundary(Chars(lines[l]), j)
    ensures var r, d := lines[l := lines[l][..i] + lines[l][j..]], Doc(lines);
            && GoodLines(r)
            && Offset(d, l, j) == Offset(d, l, i) + (j - i) <= |Flat(d)|
            && Flat(Doc(r)) == Editing.Remove(Flat(d), Offset(d, l, i), Offset(d, l, j))
            && Boundary(Chars(r[l]), i)
  {
    RemoveInLine(lines, l, i, j);
    RemovedText(lines, l, i, l, j);
    OffsetInLine(Doc(lines), l, i, j);
    GoodSlice(lines[l], 0, i);
    GoodSlice(lines[l], j, |lines[l]|);
    RemovedBoundary(lines[l], i, j);
  }

  lemma RemovedBoundary(line: Line, i: nat, j: nat)
    requires i <= j && Boundary(Chars(line), i) && Boundary(Chars(line), j)
    ensures Boundary(Chars(line[..i] + line[j..]), i)
  {
    var r := line[..i] + line[j..];
    if i < |r| {
      assert Chars(r)[i] == r[i].ch == line[j].ch == Chars(line)[j];
    }
  }

  /** The coordinate of a position. */
  lemma PositionCoordinate(tab: TabSize, lines: seq<Line>, l: nat, i: nat)
    requires GoodLines(lines) && l < |lines| && Boundary(Chars(lines[l]), i)
    ensures var t, o := Flat(Doc(lines)), Offset(Doc(lines), l, i);
            && CleanText(t) && o <= |t| && Boundary(t, o)
            && EndOf(tab, t[..o]) == Coordinates(l, ColumnAt(tab, Chars(lines[l]), i))
            && Denotes(tab, t, EndOf(tab, t[..o]), o)
            && Sanitize(tab, t, EndOf(tab, t[..o])) == EndOf(tab, t[..o])
  {
    var t, o := Flat(Doc(lines)), Offset(Doc(lines), l, i);
    GoodIsClean(lines);
    SplitAt(Doc(lines), l, i);
    EndOfBefore(tab, Doc(lines), l, i);
    OffsetBoundary(Doc(lines), l, i);
    DenotesAt(tab, t, EndOf(tab, t[..o]), o);
    SanitizeAligned(tab, t, EndOf(tab, t[..o]));
  }

  // ---------- Typing ----------

  lemma InsertTwice(t: seq<byte>, o: nat, a: seq<byte>, b: seq<byte>)
    requires o <= |t|
    ensures Editing.Insert(Editing.Insert(t, o, a), o + |a|, b) == Editing.Insert(t, o, a + b)
  {
    var u := Editing.Insert(t, o, a);
    assert u[..o + |a|] == t[..o] + a && u[o + |a|..] == t[o..];
  }

  /** The lines after a line break that copies the indentation `g`. */
  function BreakGlyphs(lines: seq<Line>, l: nat, i: nat, g: Line): seq<Line>
    requires l < |lines| && i <= |lines[l]|
  {
    lines[..l] + [lines[l][..i], g + lines[l][i..]] + lines[l + 1..]
  }

  lemma BreakText(lines: seq<Line>, l: nat, i: nat, g: Line)
    requires GoodLines(lines) && l < |lines| && Boundary(Chars(lines[l]), i) && GoodLine(g)
    ensures var r, d := BreakGlyphs(lines, l, i, g), Doc(lines);
            var o := Offset(d, l, i);
            && GoodLines(r) && o <= |Flat(d)|
            && Flat(Doc(r)) == Editing.Insert(Flat(d), o, [NEWLINE] + Chars(g))
            && Offset(Doc(r), l + 1, |g|) == o + 1 + |g|
            && Boundary(Chars(r[l + 1]), |g|)
  {
    var m := SplitGlyphs(lines, l, i);
    SplitText(lines, l, i);
    assert GoodLine(m[l + 1]);
    InsertedText(m, l + 1, 0, g);
    InsertTwice(Flat(Doc(lines)), Offset(Doc(lines), l, i), [NEWLINE], Chars(g));
    assert m[l + 1][..0] + g + m[l + 1][0..] == g + lines[l][i..];
    assert BreakGlyphs(lines, l, i, g) == InsertGlyphs(m, l + 1, 0, g);
  }

  /** The leading blanks of a line, as glyphs. */
  lemma BlanksGood(line: Line, n: nat)
    requires GoodLine(line) && n == |Editing.LeadingBlanks(Chars(line))|
    ensures n <= |line| && GoodLine(line[..n]) && Chars(line[..n]) == Editing.LeadingBlanks(Chars(line))
  {
    var s := Chars(line);
    var b := Editing.LeadingBlanks(s);
    assert b == s[..n];
    if 0 < n {
      assert b[n - 1] == s[n - 1];
      NextBoundaryAscii(s, n - 1);
    }
    GoodSlice(line, 0, n);
    assert line[0..n] == line[..n];
  }

  lemma NextBoundaryAscii(s: seq<byte>, i: nat)
    requires Framed(s) && i < |s| && s[i] < 0x80
    ensures Boundary(s, i + 1)
  {
    NextBoundary(s, i);
  }

  lemma EncodedGood(c: wchar)
    requires c != RETURN && c != 0 && c != NEWLINE && ImTextCharToUtf8(c) != []
    ensures GoodLine(Fresh(ImTextCharToUtf8(c), Default)) && CleanLine(ImTextCharToUtf8(c))
  {
    EncodingRoundTrip(c);
    var e := ImTextCharToUtf8(c);
    assert forall k :: 0 < k < |e| ==> IsUTFSequence(e[k]);
    FreshGood(e, Default);
  }

  /** A cursor that resolves to a character of its line was not clipped. */
  lemma CursorNotClipped(tab: TabSize, lines: seq<Line>, c: Coordinates)
    requires GoodLines(lines)
    ensures CleanText(Flat(Doc(lines)))
    ensures var r := Sanitize(tab, Flat(Doc(lines)), c);
            && r.line < |lines|
            && (IndexAt(tab, Chars(lines[r.line]), r.column) < |lines[r.line]| ==> r == c)
  {
    hide Lines, Flat;
    GoodIsClean(lines);
    var r := Sanitize(tab, Flat(Doc(lines)), c);
    assert GoodLine(lines[r.line]);
    IndexOfMaxColumn(tab, Chars(lines[r.line]), r.column);
  }
}
