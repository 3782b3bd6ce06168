/** Lines of coloured glyphs, and how splicing them changes the flat text. */
module Glyphs {
  import opened Utf8
  import opened Documents
  import opened Editing

  datatype PaletteIndex =
    | Default | Keyword | Number | String | CharLiteral | Punctuation | Preprocessor
    | Identifier | KnownIdentifier | PreprocIdentifier | Comment | MultiLineComment
    | Background | Max

  datatype Glyph = Glyph(ch: byte, color: PaletteIndex, comment: bool, multiLineComment: bool, preprocessor: bool)

  type Line = seq<Glyph>

  function NewGlyph(c: byte, color: PaletteIndex): Glyph {
    Glyph(c, color, false, false, false)
  }

  /** The characters of a line. */
  function Chars(line: Line): (r: seq<byte>)
    ensures |r| == |line|
    ensures forall i {:trigger r[i]} :: 0 <= i < |line| ==> r[i] == line[i].ch
  {
    seq(|line|, i requires 0 <= i < |line| => line[i].ch)
  }

  function Doc(lines: seq<Line>): (d: Document)
    ensures |d| == |lines|
    ensures forall l {:trigger d[l]} :: 0 <= l < |lines| ==> d[l] == Chars(lines[l])
  {
    seq(|lines|, l requires 0 <= l < |lines| => Chars(lines[l]))
  }

  /** The bytes of one character share a colour. */
  predicate Uniform(line: Line) {
    forall i {:trigger IsUTFSequence(line[i].ch)} ::
      0 < i < |line| && IsUTFSequence(line[i].ch) ==> line[i].color == line[i - 1].color
  }

  ghost predicate GoodLine(line: Line) {
    CleanLine(Chars(line)) && Uniform(line)
  }

  /** The invariant of the text buffer. */
  ghost predicate GoodLines(lines: seq<Line>) {
    && |lines| > 0
    && forall l {:trigger GoodLine(lines[l])} :: 0 <= l < |lines| ==> GoodLine(lines[l])
  }

  lemma GoodIsClean(lines: seq<Line>)
    requires GoodLines(lines)
    ensures CleanDocument(Doc(lines)) && CleanText(Flat(Doc(lines))) && Lines(Flat(Doc(lines))) == Doc(lines)
  {
    forall l | 0 <= l < |lines|
      ensures CleanLine(Doc(lines)[l])
    {
      assert GoodLine(lines[l]);
    }
    FlatClean(Doc(lines));
    LinesFlat(Doc(lines));
  }

  // ---------- Good lines ----------

  lemma GoodSlice(line: Line, i: nat, j: nat)
    requires GoodLine(line) && i <= j && Boundary(Chars(line), i) && Boundary(Chars(line), j)
    ensures GoodLine(line[i..j]) && Chars(line[i..j]) == Chars(line)[i..j]
  {
    FramedSlice(Chars(line), i, j);
    assert Chars(line[i..j]) == Chars(line)[i..j];
    var r := line[i..j];
    forall k | 0 < k < |r| && IsUTFSequence(r[k].ch)
      ensures r[k].color == r[k - 1].color
    {
      assert IsUTFSequence(line[i + k].ch);
    }
  }

  lemma GoodConcat(a: Line, b: Line)
    requires GoodLine(a) && GoodLine(b)
    ensures GoodLine(a + b) && Chars(a + b) == Chars(a) + Chars(b)
  {
    FramedConcat(Chars(a), Chars(b));
    assert Chars(a + b) == Chars(a) + Chars(b);
    var r := a + b;
    forall k | 0 < k < |r| && IsUTFSequence(r[k].ch)
      ensures r[k].color == r[k - 1].color
    {
      if k < |a| {
        assert IsUTFSequence(a[k].ch);
      } else if k > |a| {
        assert IsUTFSequence(b[k - |a|].ch);
      }
    }
  }

  // ---------- Removing a range ----------

  /** The lines without what lies between two positions. */
  function RemoveGlyphs(lines: seq<Line>, l: nat, i: nat, m: nat, j: nat): seq<Line>
    requires l <= m < |lines| && i <= |lines[l]| && j <= |lines[m]|
  {
    lines[..l] + [lines[l][..i] + lines[m][j..]] + lines[m + 1..]
  }

  lemma RemoveGlyphsDoc(lines: seq<Line>, l: nat, i: nat, m: nat, j: nat)
    requires l <= m < |lines| && i <= |lines[l]| && j <= |lines[m]|
    ensures Doc(RemoveGlyphs(lines, l, i, m, j)) ==
            Join(Before(Doc(lines), l, i), After(Doc(lines), m, j))
  {
    var d := Doc(lines);
    assert Chars(lines[l][..i] + lines[m][j..]) == d[l][..i] + d[m][j..];
  }

  lemma RemovedText(lines: seq<Line>, l: nat, i: nat, m: nat, j: nat)
    requires GoodLines(lines) && l <= m < |lines| && (l == m ==> i <= j)
    requires Boundary(Chars(lines[l]), i) && Boundary(Chars(lines[m]), j)
    ensures var r, d := RemoveGlyphs(lines, l, i, m, j), Doc(lines);
            && GoodLines(r)
            && Offset(d, l, i) <= Offset(d, m, j) <= |Flat(d)|
            && Flat(Doc(r)) == Remove(Flat(d), Offset(d, l, i), Offset(d, m, j))
  {
    var d := Doc(lines);
    RemoveGlyphsDoc(lines, l, i, m, j);
    FlatJoin(Before(d, l, i), After(d, m, j));
    FlatBetween(d, l, i, m, j);
    SplitAt(d, l, i);
    SplitAt(d, m, j);
    RemovedGood(lines, l, i, m, j);
  }

  lemma RemovedGood(lines: seq<Line>, l: nat, i: nat, m: nat, j: nat)
    requires GoodLines(lines) && l <= m < |lines|
    requires Boundary(Chars(lines[l]), i) && Boundary(Chars(lines[m]), j)
    ensures GoodLines(RemoveGlyphs(lines, l, i, m, j))
  {
    GoodSlice(lines[l], 0, i);
    GoodSlice(lines[m], j, |lines[m]|);
    assert lines[l][0..i] == lines[l][..i] && lines[m][j..|lines[m]|] == lines[m][j..];
    GoodConcat(lines[l][..i], lines[m][j..]);
  }

  // ---------- Inserting within a line ----------

  function InsertGlyphs(lines: seq<Line>, l: nat, i: nat, g: Line): seq<Line>
    requires l < |lines| && i <= |lines[l]|
  {
    lines[l := lines[l][..i] + g + lines[l][i..]]
  }

  lemma InsertGlyphsDoc(lines: seq<Line>, l: nat, i: nat, g: Line)
    requires l < |lines| && i <= |lines[l]|
    ensures Doc(InsertGlyphs(lines, l, i, g)) ==
            Join(Join(Before(Doc(lines), l, i), [Chars(g)]), After(Doc(lines), l, i))
  {
    var d := Doc(lines);
    assert Chars(lines[l][..i] + g + lines[l][i..]) == d[l][..i] + Chars(g) + d[l][i..];
  }

  lemma InsertedText(lines: seq<Line>, l: nat, i: nat, g: Line)
    requires GoodLines(lines) && l < |lines| && Boundary(Chars(lines[l]), i) && GoodLine(g)
    ensures var r, d := InsertGlyphs(lines, l, i, g), Doc(lines);
            && GoodLines(r)
            && Offset(d, l, i) <= |Flat(d)|
            && Flat(Doc(r)) == Insert(Flat(d), Offset(d, l, i), Chars(g))
            && Offset(Doc(r), l, i + |g|) == Offset(d, l, i) + |g|
            && Boundary(Chars(r[l]), i + |g|)
  {
    var d := Doc(lines);
    var r := InsertGlyphs(lines, l, i, g);
    InsertGlyphsDoc(lines, l, i, g);
    SplitAt(d, l, i);
    FlatJoin(Before(d, l, i), [Chars(g)]);
    FlatJoin(Join(Before(d, l, i), [Chars(g)]), After(d, l, i));
    InsertedBefore(lines, l, i, g);
    InsertedGood(lines, l, i, g);
  }

  lemma InsertedBefore(lines: seq<Line>, l: nat, i: nat, g: Line)
    requires l < |lines| && i <= |lines[l]|
    ensures Before(Doc(InsertGlyphs(lines, l, i, g)), l, i + |g|) ==
            Join(Before(Doc(lines), l, i), [Chars(g)])
  {
    var d := Doc(lines);
    var s := Chars(lines[l][..i] + g + lines[l][i..]);
    assert s[..i + |g|] == d[l][..i] + Chars(g);
  }

  lemma InsertedGood(lines: seq<Line>, l: nat, i: nat, g: Line)
    requires GoodLines(lines) && l < |lines| && Boundary(Chars(lines[l]), i) && GoodLine(g)
    ensures GoodLines(InsertGlyphs(lines, l, i, g))
    ensures Boundary(Chars(InsertGlyphs(lines, l, i, g)[l]), i + |g|)
  {
    var a, b := lines[l][..i], lines[l][i..];
    GoodSlice(lines[l], 0, i);
    GoodSlice(lines[l], i, |lines[l]|);
    assert lines[l][0..i] == a && lines[l][i..|lines[l]|] == b;
    GoodConcat(a, g);
    GoodConcat(a + g, b);
    FramedConcat(Chars(a + g), Chars(b));
  }

  // ---------- Splitting a line ----------

  function SplitGlyphs(lines: seq<Line>, l: nat, i: nat): seq<Line>
    requires l < |lines| && i <= |lines[l]|
  {
    lines[..l] + [lines[l][..i], lines[l][i..]] + lines[l + 1..]
  }

  lemma SplitText(lines: seq<Line>, l: nat, i: nat)
    requires GoodLines(lines) && l < |lines| && Boundary(Chars(lines[l]), i)
    ensures var r, d := SplitGlyphs(lines, l, i), Doc(lines);
            && GoodLines(r)
            && Offset(d, l, i) <= |Flat(d)|
            && Flat(Doc(r)) == Insert(Flat(d), Offset(d, l, i), [NEWLINE])
            && Offset(Doc(r), l + 1, 0) == Offset(d, l, i) + 1
  {
    var d := Doc(lines);
    var r := SplitGlyphs(lines, l, i);
    var two: Document := [[], []];
    SplitGlyphsDoc(lines, l, i);
    assert two[1..] == [[]];
    assert Flat(two) == [NEWLINE];
    SplitAt(d, l, i);
    FlatJoin(Before(d, l, i), two);
    FlatJoin(Join(Before(d, l, i), two), After(d, l, i));
    SplitGood(lines, l, i);
  }

  lemma SplitGlyphsDoc(lines: seq<Line>, l: nat, i: nat)
    requires l < |lines| && i <= |lines[l]|
    ensures var two: Document := [[], []];
            && Doc(SplitGlyphs(lines, l, i)) == Join(Join(Before(Doc(lines), l, i), two), After(Doc(lines), l, i))
            && Before(Doc(SplitGlyphs(lines, l, i)), l + 1, 0) == Join(Before(Doc(lines), l, i), two)
  {
    var d := Doc(lines);
    assert Chars(lines[l][..i]) == d[l][..i] && Chars(lines[l][i..]) == d[l][i..];
    assert d[l][..i] + [] == d[l][..i] && [] + d[l][i..] == d[l][i..];
  }

  lemma SplitGood(lines: seq<Line>, l: nat, i: nat)
    requires GoodLines(lines) && l < |lines| && Boundary(Chars(lines[l]), i)
    ensures GoodLines(SplitGlyphs(lines, l, i))
  {
    GoodSlice(lines[l], 0, i);
    GoodSlice(lines[l], i, |lines[l]|);
    assert lines[l][0..i] == lines[l][..i] && lines[l][i..|lines[l]|] == lines[l][i..];
  }

  // ---------- Fresh glyphs ----------

  /** The glyphs that insertion makes of bytes. */
  function Fresh(s: seq<byte>, color: PaletteIndex): (g: Line)
    ensures |g| == |s|
    ensures forall i {:trigger g[i]} :: 0 <= i < |s| ==> g[i] == NewGlyph(s[i], color)
    ensures Chars(g) == s
  {
    seq(|s|, i requires 0 <= i < |s| => NewGlyph(s[i], color))
  }

  lemma FreshGood(s: seq<byte>, color: PaletteIndex)
    requires CleanLine(s)
    ensures GoodLine(Fresh(s, color))
  {
  }

  // ---------- Whole lines ----------

  /** What an inserted empty line does to the flat text. */
  ghost predicate LineAdded(before: seq<Line>, lines: seq<Line>, l: nat)
    requires |before| > 0 && |lines| > 0 && l <= |before|
  {
    var t, d := Flat(Doc(before)), Doc(before);
    if l < |d| then Offset(d, l, 0) <= |t| && Flat(Doc(lines)) == Insert(t, Offset(d, l, 0), [NEWLINE])
    else Flat(Doc(lines)) == Insert(t, |t|, [NEWLINE])
  }

  lemma LineInsertedText(lines: seq<Line>, l: nat)
    requires |lines| > 0 && l <= |lines|
    ensures LineAdded(lines, lines[..l] + [[]] + lines[l..], l)
  {
    hide Flat, Lines;
    assert Doc(lines[..l] + [[]] + lines[l..]) == Doc(lines)[..l] + [[]] + Doc(lines)[l..];
    LineInserted(Doc(lines), l);
    TextEnds(Flat(Doc(lines)));
  }

  lemma TextEnds(t: seq<byte>)
    ensures t[..|t|] == t && t[|t|..] == [] && t + [NEWLINE] + [] == t + [NEWLINE]
  {
  }

  /** What removed lines do to the flat text. */
  ghost predicate LinesGone(before: seq<Line>, lines: seq<Line>, start: nat, end: nat)
    requires |lines| > 0 && start <= end <= |before| && end - start < |before|
  {
    var t, d := Flat(Doc(before)), Doc(before);
    if start == end then Flat(Doc(lines)) == t
    else if end < |d| then
      && Offset(d, start, 0) <= Offset(d, end, 0) <= |t|
      && Flat(Doc(lines)) == Remove(t, Offset(d, start, 0), Offset(d, end, 0))
    else
      && Offset(d, start - 1, |d[start - 1]|) <= |t|
      && Flat(Doc(lines)) == Remove(t, Offset(d, start - 1, |d[start - 1]|), |t|)
  }

  lemma LinesRemovedText(lines: seq<Line>, start: nat, end: nat)
    requires start <= end <= |lines| && end - start < |lines|
    ensures LinesGone(lines, lines[..start] + lines[end..], start, end)
  {
    hide Flat, Lines;
    assert Doc(lines[..start] + lines[end..]) == Doc(lines)[..start] + Doc(lines)[end..];
    LinesRemoved(Doc(lines), start, end);
    TextEnds(Flat(Doc(lines)));
  }
}
