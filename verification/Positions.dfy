/** Line/column coordinates and the offsets of the flat text that they denote. */
module Positions {
  import opened Utf8
  import opened Columns
  import opened Documents

  /** A place on the grid of drawn characters. */
  datatype Coordinates = Coordinates(line: nat, column: nat) {
    predicate Less(o: Coordinates) {
      if line != o.line then line < o.line else column < o.column
    }

    predicate AtMost(o: Coordinates) {
      if line != o.line then line < o.line else column <= o.column
    }
  }

  ghost predicate InRange(t: seq<byte>, c: Coordinates) {
    c.line < |Lines(t)|
  }

  /** The offset that the coordinate scans resolve `c` to. */
  ghost function At(tab: TabSize, t: seq<byte>, c: Coordinates): (o: nat)
    requires CleanText(t) && InRange(t, c)
    ensures o <= |t| && Boundary(t, o)
  {
    LinesClean(t);
    var d := Lines(t);
    var i := IndexAt(tab, d[c.line], c.column);
    IndexOfMaxColumn(tab, d[c.line], c.column);
    FlatLines(t);
    OffsetBoundary(d, c.line, i);
    Offset(d, c.line, i)
  }

  lemma OffsetBoundary(d: Document, l: nat, i: nat)
    requires CleanDocument(d) && l < |d| && Boundary(d[l], i)
    ensures Offset(d, l, i) <= |Flat(d)| && Boundary(Flat(d), Offset(d, l, i))
  {
    SplitAt(d, l, i);
    var r := Flat(After(d, l, i));
    if r != [] {
      assert r[0] == Flat(d)[Offset(d, l, i)];
      if i < |d[l]| {
        assert r[0] == d[l][i];
      } else {
        assert r[0] == NEWLINE;
      }
    }
  }

  /** Resolving a coordinate inside a document with lines `d`. */
  lemma AtOfFlat(tab: TabSize, d: Document, c: Coordinates)
    requires CleanDocument(d) && c.line < |d|
    ensures Lines(Flat(d)) == d && CleanText(Flat(d))
    ensures var i := IndexAt(tab, d[c.line], c.column);
            Boundary(d[c.line], i) && At(tab, Flat(d), c) == Offset(d, c.line, i)
  {
    LinesFlat(d);
    FlatClean(d);
    IndexOfMaxColumn(tab, d[c.line], c.column);
  }

  /** The coordinates of the end of a text. */
  function EndOf(tab: TabSize, p: seq<byte>): Coordinates {
    var d := Lines(p);
    Coordinates(|d| - 1, MaxColumn(tab, d[|d| - 1]))
  }

  /** `c` is the coordinate of the character starting at offset `o`, or of the end. */
  ghost predicate Denotes(tab: TabSize, t: seq<byte>, c: Coordinates, o: int) {
    Boundary(t, o) && c == EndOf(tab, t[..o])
  }

  /** The column of `c` starts a character or ends its line. */
  ghost predicate Aligned(tab: TabSize, t: seq<byte>, c: Coordinates) {
    && InRange(t, c)
    && var s := Lines(t)[c.line];
       ColumnAt(tab, s, IndexAt(tab, s, c.column)) == c.column
  }

  /** Where the end of `a` lies in `a` followed by `b`. */
  lemma EndInsideJoin(tab: TabSize, a: Document, b: Document)
    requires CleanDocument(a) && CleanDocument(b)
    ensures var l, last := |a| - 1, a[|a| - 1];
            var s := Join(a, b)[l];
            && |last| <= |s|
            && IndexAt(tab, s, MaxColumn(tab, last)) == |last|
            && ColumnAt(tab, s, |last|) == MaxColumn(tab, last)
            && Before(Join(a, b), l, |last|) == a
  {
    var last := a[|a| - 1];
    var s := last + b[0];
    FramedConcat(last, b[0]);
    assert s[..|last|] == last[..|last|];
    ColumnPrefix(tab, s, last, |last|);
    IndexOfColumn(tab, s, |last|);
  }

  lemma CutClean(t: seq<byte>, o: nat)
    requires CleanText(t) && Boundary(t, o)
    ensures CleanText(t[..o]) && CleanText(t[o..])
    ensures Lines(t) == Join(Lines(t[..o]), Lines(t[o..]))
  {
    CleanSlice(t, 0, o);
    CleanSlice(t, o, |t|);
    assert t[0..o] == t[..o] && t[o..|t|] == t[o..] && t == t[..o] + t[o..];
    LinesAppend(t[..o], t[o..]);
  }

  /** Coordinates depend only on the text before them, and the scans invert them. */
  lemma DenotesAt(tab: TabSize, t: seq<byte>, c: Coordinates, o: nat)
    requires CleanText(t) && Denotes(tab, t, c, o)
    ensures InRange(t, c) && At(tab, t, c) == o
    ensures Aligned(tab, t, c)
  {
    CutClean(t, o);
    LinesClean(t[..o]);
    LinesClean(t[o..]);
    EndInsideJoin(tab, Lines(t[..o]), Lines(t[o..]));
    FlatLines(t[..o]);
  }

  lemma AlignedDenotes(tab: TabSize, t: seq<byte>, c: Coordinates)
    requires CleanText(t) && Aligned(tab, t, c)
    ensures Denotes(tab, t, c, At(tab, t, c))
  {
    var d := Lines(t);
    LinesClean(t);
    FlatLines(t);
    var i := IndexAt(tab, d[c.line], c.column);
    IndexOfMaxColumn(tab, d[c.line], c.column);
    SplitAt(d, c.line, i);
    EndOfBefore(tab, d, c.line, i);
  }

  lemma EndOfBefore(tab: TabSize, d: Document, l: nat, i: nat)
    requires CleanDocument(d) && l < |d| && Boundary(d[l], i)
    ensures EndOf(tab, Flat(Before(d, l, i))) == Coordinates(l, ColumnAt(tab, d[l], i))
  {
    var b := Before(d, l, i);
    LinesFlat(b);
    assert d[l][..i][..i] == d[l][..i];
    ColumnPrefix(tab, d[l][..i], d[l], i);
  }

  /** Coordinates are ordered as the offsets they resolve to. */
  lemma AtMonotone(tab: TabSize, t: seq<byte>, a: Coordinates, b: Coordinates)
    requires CleanText(t) && InRange(t, a) && InRange(t, b) && a.AtMost(b)
    ensures At(tab, t, a) <= At(tab, t, b)
  {
    var d := Lines(t);
    LinesClean(t);
    FlatLines(t);
    var i, j := IndexAt(tab, d[a.line], a.column), IndexAt(tab, d[b.line], b.column);
    IndexOfMaxColumn(tab, d[a.line], a.column);
    IndexOfMaxColumn(tab, d[b.line], b.column);
    if a.line == b.line {
      IndexMonotone(tab, d[a.line], a.column, b.column);
    }
    FlatBetween(d, a.line, i, b.line, j);
  }

  lemma DenotesOrder(tab: TabSize, t: seq<byte>, a: Coordinates, i: nat, b: Coordinates, j: nat)
    requires CleanText(t) && Denotes(tab, t, a, i) && Denotes(tab, t, b, j)
    ensures a.Less(b) <==> i < j
    ensures a.AtMost(b) <==> i <= j
    ensures a == b <==> i == j
  {
    DenotesAt(tab, t, a, i);
    DenotesAt(tab, t, b, j);
    if a.AtMost(b) {
      AtMonotone(tab, t, a, b);
    } else {
      AtMonotone(tab, t, b, a);
    }
  }

  // ---------- Coordinates of the next character ----------

  lemma EndAfterSequence(tab: TabSize, p: seq<byte>, c: seq<byte>)
    requires CleanText(p) && CodeSequence(c)
    ensures EndOf(tab, p + c) ==
            if c[0] == NEWLINE then Coordinates(EndOf(tab, p).line + 1, 0)
            else Coordinates(EndOf(tab, p).line, NextColumn(tab, c[0], EndOf(tab, p).column))
  {
    hide Flat;
    LinesAppend(p, c);
    var a := Lines(p);
    var last := a[|a| - 1];
    if c[0] == NEWLINE {
      assert c == [NEWLINE] && c[1..] == [];
      assert Lines(c) == [[], []];
    } else {
      assert forall k :: 0 < k < |c| ==> IsUTFSequence(c[k]);
      LinesOfOne(c);
      LinesClean(p);
      CodeSequenceFramed(c);
      FramedConcat(last, c);
      var s := last + c;
      ColumnStep(tab, s, |last|);
      assert s[..|last|] == last[..|last|];
      ColumnPrefix(tab, s, last, |last|);
    }
  }

  // ---------- Sanitizing ----------

  /** Clip a coordinate to the document; a column inside a tab stays where it is. */
  function Sanitize(tab: TabSize, t: seq<byte>, c: Coordinates): (r: Coordinates)
    ensures r.line < |Lines(t)|
    ensures r.column <= MaxColumn(tab, Lines(t)[r.line])
  {
    var d := Lines(t);
    if c.line >= |d| then Coordinates(|d| - 1, MaxColumn(tab, d[|d| - 1]))
    else
      var m := MaxColumn(tab, d[c.line]);
      Coordinates(c.line, if c.column < m then c.column else m)
  }

  lemma SanitizeAligned(tab: TabSize, t: seq<byte>, c: Coordinates)
    requires CleanText(t)
    ensures Aligned(tab, t, c) ==> Sanitize(tab, t, c) == c
    ensures Sanitize(tab, t, c) != c ==> Aligned(tab, t, Sanitize(tab, t, c))
  {
    var d := Lines(t);
    LinesClean(t);
    var r := Sanitize(tab, t, c);
    IndexOfColumn(tab, d[r.line], |d[r.line]|);
    if c.line < |d| {
      IndexOfMaxColumn(tab, d[c.line], c.column);
    }
  }

  /** A place of the document: a column of an existing line, up to its end. */
  predicate OnGrid(tab: TabSize, t: seq<byte>, c: Coordinates) {
    c.line < |Lines(t)| && c.column <= MaxColumn(tab, Lines(t)[c.line])
  }

  /** Clipping finds the last place of the document that is not beyond the coordinate. */
  lemma SanitizeIsLast(tab: TabSize, t: seq<byte>, c: Coordinates, p: Coordinates)
    ensures var r := Sanitize(tab, t, c);
            && OnGrid(tab, t, r) && r.AtMost(c)
            && (OnGrid(tab, t, p) && p.AtMost(c) ==> p.AtMost(r))
  {
  }
}
