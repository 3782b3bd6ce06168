/** Insertion and deletion of text undo each other. */
module Inverses {
  import opened Utf8
  import opened Columns
  import opened Documents
  import opened Positions
  import opened Editing
  import opened Records
  import opened ExactEdits
  import opened Pasting

  // ---------- The text between two coordinates ----------

  /** What GetText answers for two coordinates of the document. */
  ghost function TextBetween(tab: TabSize, t: seq<byte>, a: Coordinates, b: Coordinates): seq<byte>
    requires CleanText(t) && InRange(t, a) && InRange(t, b) && a.AtMost(b)
  {
    AtMonotone(tab, t, a, b);
    t[At(tab, t, a)..At(tab, t, b)]
  }

  /** It is the slices of the lines, joined by newlines. */
  lemma TextBetweenIsSlices(tab: TabSize, d: Document, a: Coordinates, b: Coordinates)
    requires CleanDocument(d) && a.line < |d| && b.line < |d| && a.AtMost(b)
    ensures CleanText(Flat(d)) && Lines(Flat(d)) == d
    ensures var i, j := IndexAt(tab, d[a.line], a.column), IndexAt(tab, d[b.line], b.column);
            && i <= |d[a.line]| && j <= |d[b.line]| && (a.line == b.line ==> i <= j)
            && TextBetween(tab, Flat(d), a, b) == Flat(Between(d, a.line, i, b.line, j))
  {
    hide Framed;
    AtOfFlat(tab, d, a);
    AtOfFlat(tab, d, b);
    if a.line == b.line {
      IndexMonotone(tab, d[a.line], a.column, b.column);
    }
    FlatBetween(d, a.line, IndexAt(tab, d[a.line], a.column), b.line, IndexAt(tab, d[b.line], b.column));
  }

  /** Neighbouring pieces add up. */
  lemma TextBetweenAdds(tab: TabSize, t: seq<byte>, a: Coordinates, b: Coordinates, c: Coordinates)
    requires CleanText(t) && InRange(t, a) && InRange(t, b) && InRange(t, c)
    requires a.AtMost(b) && b.AtMost(c)
    ensures TextBetween(tab, t, a, b) + TextBetween(tab, t, b, c) == TextBetween(tab, t, a, c)
  {
    hide Lines, Flat, Framed;
    AtMonotone(tab, t, a, b);
    AtMonotone(tab, t, b, c);
  }

  // ---------- Deleting what was inserted ----------

  lemma RemoveInserted(p: seq<byte>, m: seq<byte>, s: seq<byte>, o: nat)
    requires |p| <= o <= |p| + |m|
    ensures Remove(p + m + s, |p|, o) == p + s <==> o == |p| + |m|
  {
    if o == |p| + |m| {
      assert (p + m + s)[o..] == s && (p + m + s)[..|p|] == p;
    } else {
      assert |Remove(p + m + s, |p|, o)| > |p + s|;
    }
  }

  /** Deleting from the start of an insertion to where InsertTextAt left its coordinate restores the
      document exactly when that coordinate resolves to the end of the inserted text: no inserted
      tab after the last newline, other than a final one, is more than one column wide. */
  lemma DeleteUndoesInsert(tab: TabSize, t: seq<byte>, c: Coordinates, s: seq<byte>)
    requires CleanText(t) && Aligned(tab, t, c) && CString(s)
    ensures var u, e := InsertTextAt(tab, t, c, s), CountedEnd(c, s);
            && CanDelete(u, c, e)
            && (DeleteRange(tab, u, c, e) == t <==>
                NarrowInnerTabs(tab, t[..At(tab, t, c)], StripReturns(s)))
  {
    hide Lines, Flat, Framed;
    var o, m := At(tab, t, c), StripReturns(s);
    var p, q := t[..o], t[o..];
    AlignedDenotes(tab, t, c);
    StripClean(s);
    CountedStrip(c, s);
    CutClean(t, o);
    CountedResolves(tab, p, m, q);
    StartResolves(tab, p, m, q);
    AtMonotone(tab, p + m + q, c, CountedEnd(c, m));
    RemoveInserted(p, m, q, At(tab, p + m + q, CountedEnd(c, m)));
    Halves(t, o);
  }

  lemma Halves(t: seq<byte>, o: nat)
    requires o <= |t|
    ensures t[..o] + t[o..] == t
  {
  }

  /** In particular when no tab is inserted after the last newline. */
  lemma NoTabsNarrow(tab: TabSize, p: seq<byte>, m: seq<byte>)
    requires forall i :: 0 <= i < |m| && m[i] == TAB ==> NEWLINE in m[i..]
    ensures NarrowTabs(tab, p, m) && NarrowInnerTabs(tab, p, m)
  {
  }

  /** The coordinate left by InsertTextAt denotes the end of the insertion exactly when the tabs
      after the last newline are one column wide. */
  lemma InsertedEnd(tab: TabSize, t: seq<byte>, c: Coordinates, s: seq<byte>)
    requires CleanText(t) && Aligned(tab, t, c) && CString(s)
    ensures var o, m := At(tab, t, c), StripReturns(s);
            var u, e := InsertTextAt(tab, t, c, s), CountedEnd(c, s);
            && u == t[..o] + m + t[o..]
            && (Denotes(tab, u, e, o + |m|) <==> NarrowTabs(tab, t[..o], m))
  {
    hide Lines, Flat, Framed, StripReturns, CountedEnd, NarrowTabs, EndOf;
    var o, m := At(tab, t, c), StripReturns(s);
    AlignedDenotes(tab, t, c);
    StripClean(s);
    CountedStrip(c, s);
    CutClean(t, o);
    CountedIsEnd(tab, t[..o], m);
    EndOfInserted(tab, t[..o], m, t[o..]);
  }

  // ---------- Re-inserting what was deleted ----------

  /** Index `i`, reached from a column of the line, is reached in every line that starts alike. */
  lemma SamePrefixIndex(tab: TabSize, s: seq<byte>, i: nat, tail: seq<byte>, column: nat)
    requires Framed(s) && i == IndexAt(tab, s, column) && column <= MaxColumn(tab, s)
    requires Boundary(s, i) && Framed(s[..i] + tail)
    requires Boundary(s[..i] + tail, i)
    ensures IndexAt(tab, s[..i] + tail, column) == i
  {
    var r := s[..i] + tail;
    IndexIsFirstBoundary(tab, s, column, i);
    forall j | 0 <= j <= i && Boundary(r, j)
      ensures Boundary(s, j) && ColumnAt(tab, r, j) == ColumnAt(tab, s, j)
    {
      assert r[..j] == s[..j];
      assert j < i ==> r[j] == s[j];
      ColumnPrefix(tab, r, s, j);
    }
    IndexIsFirstBoundary(tab, r, column, i);
  }

  /** A coordinate within its line resolves to the same place when the text changes only behind it. */
  lemma StartKept(tab: TabSize, t: seq<byte>, a: Coordinates, s: seq<byte>)
    requires CleanText(t) && CleanText(s) && InRange(t, a) && a.column <= MaxColumn(tab, Lines(t)[a.line])
    ensures var o := At(tab, t, a);
            RoundsTo(tab, t[..o] + s, a, o)
  {
    hide Flat, Framed;
    var d := Lines(t);
    LinesClean(t);
    FlatLines(t);
    var i := IndexAt(tab, d[a.line], a.column);
    IndexOfMaxColumn(tab, d[a.line], a.column);
    OffsetBoundary(d, a.line, i);
    SplitAt(d, a.line, i);
    var b, e := Before(d, a.line, i), Lines(s);
    BeforeClean(d, a.line, i);
    LinesClean(s);
    FlatLines(s);
    JoinClean(b, e);
    FlatJoin(b, e);
    FramedConcat(d[a.line][..i], e[0]);
    SamePrefixIndex(tab, d[a.line], i, e[0], a.column);
    AtOfFlat(tab, Join(b, e), a);
    BeforeJoined(b, e);
  }

  lemma BeforeClean(d: Document, l: nat, i: nat)
    requires CleanDocument(d) && l < |d| && Boundary(d[l], i)
    ensures CleanDocument(Before(d, l, i))
  {
    FramedSlice(d[l], 0, i);
    assert d[l][0..i] == d[l][..i];
  }

  lemma BeforeJoined(b: Document, e: Document)
    requires |b| > 0 && |e| > 0
    ensures var l := |b| - 1;
            |b[l]| <= |Join(b, e)[l]| && Before(Join(b, e), l, |b[l]|) == b
  {
    assert (b[|b| - 1] + e[0])[..|b[|b| - 1]|] == b[|b| - 1];
  }

  /** The deleted text is behind the line end, and the rest of the last line moves up to it. */
  ghost predicate StartOvertaken(tab: TabSize, t: seq<byte>, a: Coordinates, b: Coordinates)
    requires CleanText(t) && InRange(t, a) && InRange(t, b)
  {
    && a.column > MaxColumn(tab, Lines(t)[a.line])
    && At(tab, t, a) < At(tab, t, b) < |t|
    && t[At(tab, t, b)] != NEWLINE
  }

  /** A column beyond the line end resolves to the line end. */
  lemma BeyondEnd(tab: TabSize, t: seq<byte>, a: Coordinates)
    requires CleanText(t) && InRange(t, a) && a.column > MaxColumn(tab, Lines(t)[a.line])
    ensures var o, e := At(tab, t, a), Coordinates(a.line, MaxColumn(tab, Lines(t)[a.line]));
            Denotes(tab, t, e, o) && (o < |t| ==> t[o] == NEWLINE)
  {
    hide Framed;
    var d := Lines(t);
    LinesClean(t);
    FlatLines(t);
    IndexOfMaxColumn(tab, d[a.line], a.column);
    CharAt(d, a.line, |d[a.line]|);
    var e := Coordinates(a.line, MaxColumn(tab, d[a.line]));
    IndexOfMaxColumn(tab, d[a.line], e.column);
    AlignedDenotes(tab, t, e);
  }

  /** Where a column beyond the line end resolves to once something else follows. */
  lemma BeyondOldEnd(tab: TabSize, t: seq<byte>, a: Coordinates, s: seq<byte>)
    requires CleanText(t) && CleanText(s) && InRange(t, a) && a.column > MaxColumn(tab, Lines(t)[a.line])
    ensures var o := At(tab, t, a);
            && CleanText(t[..o] + s) && InRange(t[..o] + s, a)
            && At(tab, t[..o] + s, a) >= o
            && (At(tab, t[..o] + s, a) == o <==> (s == [] || s[0] == NEWLINE))
  {
    hide Flat, Framed;
    var o, e := At(tab, t, a), Coordinates(a.line, MaxColumn(tab, Lines(t)[a.line]));
    var u := t[..o] + s;
    BeyondEnd(tab, t, a);
    CutClean(t, o);
    EndDenotes(tab, t[..o], s);
    AtMonotone(tab, u, e, a);
    if s == [] || s[0] == NEWLINE {
      LineEndsHere(tab, u, e, o);
      IndexOfMaxColumn(tab, Lines(u)[a.line], a.column);
    } else {
      NextColumnRounds(tab, u, e, o);
      AtMonotone(tab, u, Coordinates(e.line, e.column + 1), a);
    }
  }

  /** At the end of a line. */
  lemma LineEndsHere(tab: TabSize, u: seq<byte>, e: Coordinates, o: nat)
    requires CleanText(u) && Denotes(tab, u, e, o) && (o == |u| || u[o] == NEWLINE)
    ensures InRange(u, e) && e.column == MaxColumn(tab, Lines(u)[e.line])
    ensures Framed(Lines(u)[e.line]) && o == Offset(Lines(u), e.line, |Lines(u)[e.line]|)
  {
    var d, i := PositionOf(tab, u, e, o);
    CharAt(d, e.line, i);
  }

  lemma ReinsertedText(t: seq<byte>, o: nat, q: nat, x: nat)
    requires o <= q <= |t| && o <= x <= |Remove(t, o, q)|
    ensures x == o || o == q ==> Insert(Remove(t, o, q), x, t[o..q]) == t
    ensures x > o && q < |t| && o < q && t[o] != t[q] ==> Insert(Remove(t, o, q), x, t[o..q]) != t
  {
    var u := Remove(t, o, q);
    if x == o {
      assert u[..o] == t[..o] && u[o..] == t[q..];
    } else if o == q {
      assert u == t && t[o..q] == [];
    } else if q < |t| && t[o] != t[q] {
      assert u[o] == t[q] && Insert(u, x, t[o..q])[o] == u[o];
    }
  }

  /** Inserting at the start what GetText read before DeleteRange deleted it restores the document,
      except when a start column beyond its line end is overtaken by the rest of the last line. */
  lemma InsertUndoesDelete(tab: TabSize, t: seq<byte>, a: Coordinates, b: Coordinates)
    requires CleanText(t) && InRange(t, a) && InRange(t, b) && a.AtMost(b)
    ensures var u, s := DeleteRange(tab, t, a, b), TextBetween(tab, t, a, b);
            && InRange(u, a) && CString(s)
            && (InsertTextAt(tab, u, a, s) == t <==> !StartOvertaken(tab, t, a, b))
  {
    hide Lines, Flat, Framed;
    var o, q := At(tab, t, a), At(tab, t, b);
    AtMonotone(tab, t, a, b);
    Pieces(t, o, q);
    StripIdentity(t[o..q]);
    Halves(t, o);
    if a.column <= MaxColumn(tab, Lines(t)[a.line]) {
      StartKept(tab, t, a, t[q..]);
    } else {
      BeyondEnd(tab, t, a);
      BeyondOldEnd(tab, t, a, t[q..]);
    }
    ReinsertedText(t, o, q, At(tab, DeleteRange(tab, t, a, b), a));
  }
}
