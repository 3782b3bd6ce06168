/** Word boundaries within a line. */
module Words {
  import opened Utf8
  import opened Columns
  import opened Documents
  import opened Positions
  import opened Glyphs

  /** isspace in the C locale. */
  predicate IsSpace(c: byte) {
    c == SPACE || 9 <= c <= 13
  }

  /** Skip spaces to the left of `i`; index 0 stops the search. */
  function SkipSpacesLeft(line: Line, i: nat): (k: nat)
    requires i < |line|
    ensures k <= i
    ensures k == 0 || !IsSpace(line[k].ch)
    ensures forall j :: k < j <= i ==> IsSpace(line[j].ch)
  {
    if i > 0 && IsSpace(line[i].ch) then SkipSpacesLeft(line, i - 1) else i
  }

  /** Walk left from `i` while the colour stays `color`; a space ends the walk, except at index 0. */
  function WalkLeft(line: Line, i: nat, color: PaletteIndex): (r: nat)
    requires i < |line|
    ensures r <= i + 1
  {
    if i == 0 then 0
    else if IsUTFSequence(line[i].ch) then WalkLeft(line, i - 1, color)
    else if IsSpace(line[i].ch) then i + 1
    else if color != line[i - 1].color then i
    else WalkLeft(line, i - 1, color)
  }

  function WordStartIndex(line: Line, i: nat): nat
    requires i < |line|
  {
    var k := SkipSpacesLeft(line, i);
    WalkLeft(line, k, line[k].color)
  }

  function SkipSpacesRight(line: Line, i: nat): (k: nat)
    requires i <= |line|
    ensures i <= k <= |line|
    decreases |line| - i
  {
    if i < |line| && IsSpace(line[i].ch) then SkipSpacesRight(line, i + 1) else i
  }

  /** Walk right while colour and kind stay the same; spaces after the walk are included. */
  function WalkRight(line: Line, i: nat, color: PaletteIndex, space: bool): (r: nat)
    ensures i <= r
    decreases |line| - i
  {
    if i >= |line| then i
    else if color != line[i].color then i
    else if space != IsSpace(line[i].ch) then (if IsSpace(line[i].ch) then SkipSpacesRight(line, i) else i)
    else WalkRight(line, i + UTF8CharLength(line[i].ch), color, space)
  }

  function WordEndIndex(line: Line, i: nat): (r: nat)
    requires i < |line|
    ensures i <= r
  {
    WalkRight(line, i, line[i].color, IsSpace(line[i].ch))
  }

  // ---------- What the walks find ----------

  /** `r` is where the run of colour `color` around `k` begins. */
  ghost predicate RunStart(line: Line, r: nat, k: nat, color: PaletteIndex) {
    && r <= k < |line|
    && Boundary(Chars(line), r)
    && (forall p :: r <= p <= k ==> line[p].color == color)
    && (forall p :: r <= p <= k && 0 < p ==> !IsSpace(line[p].ch))
    && (r > 0 ==> line[r - 1].color != color || (r > 1 && IsSpace(line[r - 1].ch)))
  }

  lemma {:induction false} WalkLeftFinds(line: Line, i: nat, k: nat, color: PaletteIndex)
    requires GoodLine(line) && i <= k < |line|
    requires forall p :: i <= p <= k ==> line[p].color == color
    requires forall p :: i < p <= k ==> !IsSpace(line[p].ch)
    requires i == k ==> i == 0 || !IsSpace(line[i].ch)
    ensures RunStart(line, WalkLeft(line, i, color), k, color)
  {
    var s := Chars(line);
    if i == 0 {
    } else if IsUTFSequence(line[i].ch) {
      WalkLeftFinds(line, i - 1, k, color);
    } else if IsSpace(line[i].ch) {
      assert CompleteAt(s, i);
    } else if color == line[i - 1].color {
      WalkLeftFinds(line, i - 1, k, color);
    }
  }

  lemma WordStartFinds(line: Line, i: nat)
    requires GoodLine(line) && i < |line|
    ensures var k := SkipSpacesLeft(line, i);
            RunStart(line, WordStartIndex(line, i), k, line[k].color)
  {
    var k := SkipSpacesLeft(line, i);
    WalkLeftFinds(line, k, k, line[k].color);
  }

  lemma {:induction false} SkipMonotone(line: Line, i: nat, j: nat)
    requires i <= j < |line|
    ensures SkipSpacesLeft(line, i) <= SkipSpacesLeft(line, j)
    decreases j
  {
    if i < j && IsSpace(line[j].ch) {
      SkipMonotone(line, i, j - 1);
    }
  }

  /** FindWordStart is monotone within a line. */
  lemma WordStartMonotone(line: Line, i: nat, j: nat)
    requires GoodLine(line) && i <= j < |line|
    ensures WordStartIndex(line, i) <= WordStartIndex(line, j)
  {
    SkipMonotone(line, i, j);
    WordStartFinds(line, i);
    WordStartFinds(line, j);
    RunStartMonotone(line, WordStartIndex(line, i), SkipSpacesLeft(line, i),
                     WordStartIndex(line, j), SkipSpacesLeft(line, j));
  }

  lemma RunStartMonotone(line: Line, r: nat, k: nat, q: nat, m: nat)
    requires k <= m < |line| && RunStart(line, q, m, line[m].color)
    ensures RunStart(line, r, k, line[k].color) ==> r <= q
  {
    if q < r <= k {
      assert line[k].color == line[m].color && line[r - 1].color == line[m].color;
    }
  }

  /** Colours that differ within one character would break this order. */
  lemma MixedColoursBreakOrder() returns (line: Line)
    ensures CleanLine(Chars(line)) && !Uniform(line)
    ensures |line| == 4 && WordStartIndex(line, 1) > WordStartIndex(line, 3)
  {
    // one ASCII character, a two-byte character of two colours, a space
    line := [NewGlyph(97, Number), NewGlyph(0xC3, Keyword), NewGlyph(0xA9, Number), NewGlyph(SPACE, Number)];
    assert CompleteAt(Chars(line), 0) && CompleteAt(Chars(line), 1) && CompleteAt(Chars(line), 3);
    assert IsUTFSequence(line[2].ch);
    assert SkipSpacesLeft(line, 3) == 2;
    assert WalkLeft(line, 2, Number) == WalkLeft(line, 1, Number) == WalkLeft(line, 0, Number) == 0;
  }

  lemma {:induction false} WalkRightFinds(line: Line, i: nat, color: PaletteIndex, space: bool)
    requires GoodLine(line) && Boundary(Chars(line), i)
    ensures Boundary(Chars(line), WalkRight(line, i, color, space))
    decreases |line| - i
  {
    if i < |line| && color == line[i].color {
      if space != IsSpace(line[i].ch) {
        if IsSpace(line[i].ch) {
          SkipRightBoundary(line, i);
        }
      } else {
        NextBoundary(Chars(line), i);
        WalkRightFinds(line, i + UTF8CharLength(line[i].ch), color, space);
      }
    }
  }

  lemma {:induction false} SkipRightBoundary(line: Line, i: nat)
    requires GoodLine(line) && Boundary(Chars(line), i)
    ensures Boundary(Chars(line), SkipSpacesRight(line, i))
    decreases |line| - i
  {
    if i < |line| && IsSpace(line[i].ch) {
      NextBoundary(Chars(line), i);
      SkipRightBoundary(line, i + 1);
    }
  }

  /** From `i` up to `e` all characters have the colour of the one at `i` and are spaces like it, or no
      spaces like it; at `e` the line, the colour or the kind ends. */
  ghost predicate RunEnd(line: Line, i: nat, e: nat) {
    && i < e <= |line|
    && Boundary(Chars(line), e)
    && (forall p :: i <= p < e && Boundary(Chars(line), p) ==>
          line[p].color == line[i].color && (IsSpace(line[p].ch) <==> IsSpace(line[i].ch)))
    && (e < |line| ==> line[e].color != line[i].color || (IsSpace(line[e].ch) <==> !IsSpace(line[i].ch)))
  }

  /** From `e` on there are spaces up to `r`, where they end. */
  ghost predicate SpacesEnd(line: Line, e: nat, r: nat) {
    && e <= r <= |line|
    && (forall p :: e <= p < r ==> IsSpace(line[p].ch))
    && (r < |line| ==> !IsSpace(line[r].ch))
  }

  /** The end of the word at `i`: its run of one colour and kind ends at `e`, and the spaces of that colour
      behind a word belong to it, together with all spaces after them. */
  ghost predicate WordEnd(line: Line, i: nat, e: nat, r: nat) {
    && RunEnd(line, i, e)
    && if e < |line| && line[e].color == line[i].color && IsSpace(line[e].ch) then SpacesEnd(line, e, r) else r == e
  }

  lemma {:induction false} SkipRightFinds(line: Line, e: nat)
    requires e <= |line|
    ensures SpacesEnd(line, e, SkipSpacesRight(line, e))
    decreases |line| - e
  {
    if e < |line| && IsSpace(line[e].ch) {
      SkipRightFinds(line, e + 1);
    }
  }

  lemma {:induction false} WalkRightEnds(line: Line, i: nat, p: nat) returns (e: nat)
    requires GoodLine(line) && i < p <= |line| && Boundary(Chars(line), i) && Boundary(Chars(line), p)
    requires forall q :: i <= q < p && Boundary(Chars(line), q) ==>
               line[q].color == line[i].color && (IsSpace(line[q].ch) <==> IsSpace(line[i].ch))
    ensures WordEnd(line, i, e, WalkRight(line, p, line[i].color, IsSpace(line[i].ch)))
    decreases |line| - p
  {
    e := p;
    if p < |line| && line[p].color == line[i].color {
      if IsSpace(line[p].ch) == IsSpace(line[i].ch) {
        NextBoundary(Chars(line), p);
        e := WalkRightEnds(line, i, p + UTF8CharLength(line[p].ch));
      } else {
        SkipRightFinds(line, p);
      }
    }
  }

  lemma WordEndFinds(line: Line, i: nat) returns (e: nat)
    requires GoodLine(line) && i < |line| && Boundary(Chars(line), i)
    ensures WordEnd(line, i, e, WordEndIndex(line, i))
  {
    NextBoundary(Chars(line), i);
    e := WalkRightEnds(line, i, i + UTF8CharLength(line[i].ch));
  }

  // ---------- Coordinates ----------

  function FindWordStart(tab: TabSize, lines: seq<Line>, c: Coordinates): Coordinates {
    if c.line >= |lines| then c
    else
      var s := Chars(lines[c.line]);
      var i := IndexAt(tab, s, c.column);
      if i >= |s| then c
      else Coordinates(c.line, ColumnAt(tab, s, WordStartIndex(lines[c.line], i)))
  }

  function FindWordEnd(tab: TabSize, lines: seq<Line>, c: Coordinates): Coordinates {
    if c.line >= |lines| then c
    else
      var s := Chars(lines[c.line]);
      var i := IndexAt(tab, s, c.column);
      if i >= |s| then c
      else Coordinates(c.line, ColumnAt(tab, s, WordEndIndex(lines[c.line], i)))
  }

  /** Is `c` between two differently coloured (or, without colours, differently spaced) characters? */
  predicate IsOnWordBoundary(tab: TabSize, lines: seq<Line>, c: Coordinates, colorizer: bool) {
    if c.line >= |lines| || c.column == 0 then true
    else
      var line := lines[c.line];
      var i := IndexAt(tab, Chars(line), c.column);
      if i >= |line| || i == 0 then true
      else if colorizer then line[i].color != line[i - 1].color
      else IsSpace(line[i].ch) != IsSpace(line[i - 1].ch)
  }

  /** The column of `c` starts a character or ends its line; the line exists. */
  ghost predicate AlignedIn(tab: TabSize, lines: seq<Line>, c: Coordinates) {
    && c.line < |lines|
    && var s := Chars(lines[c.line]);
       ColumnAt(tab, s, IndexAt(tab, s, c.column)) == c.column
  }

  lemma ColumnWeaklyMonotone(tab: TabSize, s: seq<byte>, i: nat, j: nat)
    requires Framed(s) && Boundary(s, i) && Boundary(s, j) && i <= j
    ensures ColumnAt(tab, s, i) <= ColumnAt(tab, s, j)
  {
    if i < j {
      ColumnMonotone(tab, s, i, j);
    }
  }

  /** FindWordStart stays in the document, aligned, and never moves right. */
  lemma FindWordStartLeft(tab: TabSize, lines: seq<Line>, c: Coordinates)
    requires GoodLines(lines) && AlignedIn(tab, lines, c)
    ensures var r := FindWordStart(tab, lines, c);
            AlignedIn(tab, lines, r) && r.line == c.line && r.column <= c.column
  {
    var line := lines[c.line];
    var s := Chars(line);
    var i := IndexAt(tab, s, c.column);
    assert GoodLine(line);
    IndexOfMaxColumn(tab, s, c.column);
    if i < |s| {
      WordStartFinds(line, i);
      var r := WordStartIndex(line, i);
      IndexOfColumn(tab, s, r);
      ColumnWeaklyMonotone(tab, s, r, i);
    }
  }

  /** FindWordEnd stays in the document, aligned, and never moves left. */
  lemma FindWordEndRight(tab: TabSize, lines: seq<Line>, c: Coordinates)
    requires GoodLines(lines) && AlignedIn(tab, lines, c)
    ensures var r := FindWordEnd(tab, lines, c);
            AlignedIn(tab, lines, r) && r.line == c.line && r.column >= c.column
  {
    var line := lines[c.line];
    var s := Chars(line);
    var i := IndexAt(tab, s, c.column);
    assert GoodLine(line);
    IndexOfMaxColumn(tab, s, c.column);
    if i < |s| {
      WalkRightFinds(line, i, line[i].color, IsSpace(line[i].ch));
      var r := WordEndIndex(line, i);
      IndexOfColumn(tab, s, r);
      ColumnWeaklyMonotone(tab, s, i, r);
    }
  }

  /** FindWordStart is monotone. */
  lemma FindWordStartMonotone(tab: TabSize, lines: seq<Line>, a: Coordinates, b: Coordinates)
    requires GoodLines(lines) && AlignedIn(tab, lines, a) && AlignedIn(tab, lines, b) && a.AtMost(b)
    ensures FindWordStart(tab, lines, a).AtMost(FindWordStart(tab, lines, b))
  {
    FindWordStartLeft(tab, lines, a);
    FindWordStartLeft(tab, lines, b);
    if a.line == b.line {
      var line := lines[a.line];
      var s := Chars(line);
      assert GoodLine(line);
      var i, j := IndexAt(tab, s, a.column), IndexAt(tab, s, b.column);
      IndexMonotone(tab, s, a.column, b.column);
      if j < |s| {
        WordStartMonotone(line, i, j);
        WordStartFinds(line, i);
        WordStartFinds(line, j);
        ColumnWeaklyMonotone(tab, s, WordStartIndex(line, i), WordStartIndex(line, j));
      }
    }
  }

  /** What FindWordStart and FindWordEnd find for a coordinate before the end of its line. */
  lemma FindWordFinds(tab: TabSize, lines: seq<Line>, c: Coordinates) returns (i: nat, start: nat, e: nat, end: nat)
    requires GoodLines(lines) && c.line < |lines|
    requires IndexAt(tab, Chars(lines[c.line]), c.column) < |lines[c.line]|
    ensures var line := lines[c.line];
            && i == IndexAt(tab, Chars(line), c.column) < |line| && Boundary(Chars(line), i)
            && (var k := SkipSpacesLeft(line, i); RunStart(line, start, k, line[k].color))
            && WordEnd(line, i, e, end) && Boundary(Chars(line), end)
            && FindWordStart(tab, lines, c) == Coordinates(c.line, ColumnAt(tab, Chars(line), start))
            && FindWordEnd(tab, lines, c) == Coordinates(c.line, ColumnAt(tab, Chars(line), end))
  {
    var line := lines[c.line];
    assert GoodLine(line);
    i := IndexAt(tab, Chars(line), c.column);
    start, end := WordStartIndex(line, i), WordEndIndex(line, i);
    IndexOfMaxColumn(tab, Chars(line), c.column);
    WordStartFinds(line, i);
    e := WordEndFinds(line, i);
    WalkRightFinds(line, i, line[i].color, IsSpace(line[i].ch));
  }

  /** Inside a line, IsOnWordBoundary compares the character that ends at a place with the one that starts
      there: by colour, or by being spaces when colours are off. */
  lemma BoundaryMeans(tab: TabSize, lines: seq<Line>, l: nat, i: nat, colorizer: bool)
    requires GoodLines(lines) && l < |lines| && 0 < i < |lines[l]| && Boundary(Chars(lines[l]), i)
    ensures var line, s := lines[l], Chars(lines[l]);
            var b := PreviousBoundary(s, i);
            IsOnWordBoundary(tab, lines, Coordinates(l, ColumnAt(tab, s, i)), colorizer) <==>
            if colorizer then line[i].color != line[b].color
            else (IsSpace(line[i].ch) <==> !IsSpace(line[b].ch))
  {
    hide ColumnAt, IndexAt;
    var line, s := lines[l], Chars(lines[l]);
    var b := PreviousBoundary(s, i);
    assert GoodLine(line);
    PreviousOfNext(s, i);
    NextBoundary(s, b);
    IndexOfColumn(tab, s, i);
    ColumnMonotone(tab, s, 0, i);
    forall p | b < p < i
      ensures IsUTFSequence(line[p].ch)
    {
      assert !Boundary(s, p);
    }
    SameCharacter(line, b, i - 1);
  }

  lemma {:induction false} SameCharacter(line: Line, b: nat, j: nat)
    requires GoodLine(line) && b <= j < |line| && forall p :: b < p <= j ==> IsUTFSequence(line[p].ch)
    ensures line[j].color == line[b].color
    ensures b < j ==> !IsSpace(line[j].ch)
    decreases j
  {
    if b < j {
      SameCharacter(line, b, j - 1);
    }
  }

  // ---------- Selections ----------

  datatype SelectionMode = Normal | Word | Line

  /** What SetSelection makes of two sanitized coordinates, in order. */
  function Selection(tab: TabSize, lines: seq<Line>, a: Coordinates, b: Coordinates, mode: SelectionMode,
                     colorizer: bool): (r: (Coordinates, Coordinates))
    requires b.line < |lines|
  {
    match mode
    case Normal => (a, b)
    case Word =>
      (FindWordStart(tab, lines, a),
       if IsOnWordBoundary(tab, lines, b, colorizer) then b
       else FindWordEnd(tab, lines, FindWordStart(tab, lines, b)))
    case Line => (Coordinates(a.line, 0), Coordinates(b.line, MaxColumn(tab, Chars(lines[b.line]))))
  }

  /** In every mode the selection is ordered, aligned and inside the document, and starts no later
      than asked for. */
  lemma SelectionOrdered(tab: TabSize, lines: seq<Line>, a: Coordinates, b: Coordinates,
                         mode: SelectionMode, colorizer: bool)
    requires GoodLines(lines) && AlignedIn(tab, lines, a) && AlignedIn(tab, lines, b) && a.AtMost(b)
    ensures var r := Selection(tab, lines, a, b, mode, colorizer);
            && AlignedIn(tab, lines, r.0) && AlignedIn(tab, lines, r.1)
            && r.0.AtMost(r.1) && r.0.AtMost(a)
  {
    match mode
    case Normal =>
    case Word =>
      FindWordStartLeft(tab, lines, a);
      FindWordStartLeft(tab, lines, b);
      FindWordStartMonotone(tab, lines, a, b);
      FindWordEndRight(tab, lines, FindWordStart(tab, lines, b));
    case Line =>
      var s := Chars(lines[b.line]);
      assert GoodLine(lines[b.line]) && GoodLine(lines[a.line]);
      IndexOfColumn(tab, s, |s|);
      IndexOfColumn(tab, Chars(lines[a.line]), 0);
      IndexOfMaxColumn(tab, s, MaxColumn(tab, s));
  }

  /** Line mode selects whole lines: exactly the places of the lines from that of `a` to that of `b`. */
  lemma LineModeSelects(tab: TabSize, lines: seq<Line>, a: Coordinates, b: Coordinates, c: Coordinates,
                        colorizer: bool)
    requires a.AtMost(b) && b.line < |lines|
    requires c.line < |lines| && c.column <= MaxColumn(tab, Chars(lines[c.line]))
    ensures var r := Selection(tab, lines, a, b, Line, colorizer);
            r.0.AtMost(c) && c.AtMost(r.1) <==> a.line <= c.line <= b.line
  {
  }

  /** Word mode starts where the run around `a` starts. */
  lemma WordModeStarts(tab: TabSize, lines: seq<Line>, a: Coordinates, b: Coordinates, colorizer: bool)
    requires GoodLines(lines) && AlignedIn(tab, lines, a) && b.line < |lines|
    ensures var r, line := Selection(tab, lines, a, b, Word, colorizer), lines[a.line];
            var i := IndexAt(tab, Chars(line), a.column);
            r.0.line == a.line
            && if i >= |line| then r.0 == a
               else
                 var k := SkipSpacesLeft(line, i);
                 RunStart(line, IndexAt(tab, Chars(line), r.0.column), k, line[k].color)
  {
    var line := lines[a.line];
    assert GoodLine(line);
    if IndexAt(tab, Chars(line), a.column) < |line| {
      var i, start, e, end := FindWordFinds(tab, lines, a);
      IndexOfColumn(tab, Chars(line), start);
    }
  }

  /** It ends at `b` on a word boundary, and otherwise where the word ends that starts around `b`. */
  lemma WordModeEnds(tab: TabSize, lines: seq<Line>, a: Coordinates, b: Coordinates, colorizer: bool)
    returns (start: nat, e: nat)
    requires GoodLines(lines) && AlignedIn(tab, lines, b)
    ensures var r, line := Selection(tab, lines, a, b, Word, colorizer), lines[b.line];
            var i := IndexAt(tab, Chars(line), b.column);
            r.1.line == b.line
            && if IsOnWordBoundary(tab, lines, b, colorizer) then r.1 == b
               else
                 i < |line|
                 && var k := SkipSpacesLeft(line, i);
                    && RunStart(line, start, k, line[k].color)
                    && WordEnd(line, start, e, IndexAt(tab, Chars(line), r.1.column))
  {
    var line := lines[b.line];
    assert GoodLine(line);
    start, e := 0, 0;
    if !IsOnWordBoundary(tab, lines, b, colorizer) {
      var i, j, from, at, end;
      i, start, j, at := FindWordFinds(tab, lines, b);
      IndexOfColumn(tab, Chars(line), start);
      j, from, e, end := FindWordFinds(tab, lines, FindWordStart(tab, lines, b));
      IndexOfColumn(tab, Chars(line), end);
    }
  }

  /** The end of the word around `i` may lie before `i`: behind the blanks that begin a line, and among
      blanks of another colour than the word before them. */
  lemma WordCovers(line: Line, i: nat)
    requires GoodLine(line) && i < |line| && Boundary(Chars(line), i)
    ensures var k, start := SkipSpacesLeft(line, i), WordStartIndex(line, i);
            && start <= k
            && (i <= WordEndIndex(line, start) <==>
                if IsSpace(line[start].ch) then
                  forall p :: 0 <= p < i ==> IsSpace(line[p].ch) && line[p].color == line[0].color
                else i <= k + 1 || line[k + 1].color == line[k].color)
  {
    var k, start := SkipSpacesLeft(line, i), WordStartIndex(line, i);
    WordStartFinds(line, i);
    var e := WordEndFinds(line, start);
    var end := WordEndIndex(line, start);
    if IsSpace(line[start].ch) {
      assert start == 0;
      SpacesCover(line, i, e);
    } else {
      WordBefore(line, i, k, start, e, end);
    }
  }

  lemma SpacesCover(line: Line, i: nat, e: nat)
    requires GoodLine(line) && i < |line| && IsSpace(line[0].ch) && RunEnd(line, 0, e)
    ensures i <= e <==> forall p :: 0 <= p < i ==> IsSpace(line[p].ch) && line[p].color == line[0].color
  {
    if i <= e {
      AllSpaces(line, i, e);
    }
  }

  lemma {:induction false} AllSpaces(line: Line, i: nat, e: nat)
    requires GoodLine(line) && RunEnd(line, 0, e) && IsSpace(line[0].ch) && i <= e
    ensures forall p :: 0 <= p < i ==> IsSpace(line[p].ch) && line[p].color == line[0].color
    decreases i
  {
    if i > 0 {
      AllSpaces(line, i - 1, e);
      if i > 1 {
        assert Boundary(Chars(line), i - 2);
        NextBoundary(Chars(line), i - 2);
        assert Boundary(Chars(line), i - 1);
      }
    }
  }

  lemma WordBefore(line: Line, i: nat, k: nat, start: nat, e: nat, end: nat)
    requires GoodLine(line) && i < |line| && Boundary(Chars(line), i)
    requires k == SkipSpacesLeft(line, i) && RunStart(line, start, k, line[k].color)
    requires !IsSpace(line[start].ch) && WordEnd(line, start, e, end)
    ensures i <= end <==> (i <= k + 1 || line[k + 1].color == line[k].color)
  {
    assert line[start].color == line[k].color;
    assert k < e;
    if k < i {
      assert IsSpace(line[k + 1].ch);
      assert e == k + 1 by {
        if k + 1 < e {
          assert Boundary(Chars(line), k + 1);
        }
      }
    }
  }

  /** A blank and a word of one colour: around the end of the word lies the blank alone. */
  lemma WordBehindBlank() returns (line: Line)
    ensures GoodLine(line) && |line| == 3 && forall p :: 0 <= p < 3 ==> line[p].color == line[0].color
    ensures WordEndIndex(line, WordStartIndex(line, 2)) == 1
  {
    line := [NewGlyph(SPACE, Default), NewGlyph(97, Default), NewGlyph(98, Default)];
    var s := Chars(line);
    assert CompleteAt(s, 0) && CompleteAt(s, 1) && CompleteAt(s, 2);
    assert SkipSpacesLeft(line, 2) == 2;
    assert WalkLeft(line, 2, Default) == WalkLeft(line, 1, Default) == WalkLeft(line, 0, Default) == 0;
    assert UTF8CharLength(line[0].ch) == 1;
    assert WalkRight(line, 1, Default, true) == 1;
  }
}
