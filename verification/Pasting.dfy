/** Pasting: where InsertTextAt leaves its coordinate, and when the record of a paste is exact. */
module Pasting {
  import opened Utf8
  import opened Columns
  import opened Documents
  import opened Positions
  import opened Editing
  import opened Records
  import opened ExactEdits

  // ---------- The counted coordinate ----------

  lemma {:induction false} CountedAppend(c: Coordinates, x: seq<byte>, y: seq<byte>)
    requires Framed(x)
    ensures CountedEnd(c, x + y) == CountedEnd(CountedEnd(c, x), y)
    decreases |x|
  {
    if x == [] {
      assert x + y == y;
    } else {
      var n := FirstSequence(x);
      assert (x + y)[n..] == x[n..] + y;
      assert (x + y)[1..] == x[1..] + y;
      var d := CountedEnd(c, x[..n]);
      CountedSequence(c, x[..n]);
      CountedSkip(c, x, n);
      CountedSkip(c, x + y, n);
      assert (x + y)[..n] == x[..n];
      CountedAppend(d, x[n..], y);
    }
  }

  /** The coordinate after one character. */
  lemma CountedSequence(c: Coordinates, x: seq<byte>)
    requires CodeSequence(x)
    ensures CountedEnd(c, x) == if x[0] == RETURN then c
                                else if x[0] == NEWLINE then Coordinates(c.line + 1, 0)
                                else Coordinates(c.line, c.column + 1)
  {
    assert x[|x|..] == [];
  }

  lemma CountedSkip(c: Coordinates, x: seq<byte>, n: nat)
    requires n <= |x| && CodeSequence(x[..n])
    ensures CountedEnd(c, x) == CountedEnd(CountedEnd(c, x[..n]), x[n..])
  {
    CountedSequence(c, x[..n]);
    assert x[..n][0] == x[0];
  }

  /** Carriage returns do not count. */
  lemma {:induction false} CountedStrip(c: Coordinates, x: seq<byte>)
    requires Framed(x)
    ensures CountedEnd(c, StripReturns(x)) == CountedEnd(c, x)
    decreases |x|
  {
    if x != [] {
      var n := FirstSequence(x);
      var y, z := x[..n], x[n..];
      assert x == y + z;
      StripAppend(y, z);
      StripSequence(y);
      CodeSequenceFramed(y);
      CountedSequence(c, y);
      CountedAppend(c, y, z);
      CountedAppend(c, y, StripReturns(z));
      CountedStrip(CountedEnd(c, y), z);
      assert [] + StripReturns(z) == StripReturns(z);
    }
  }

  /** A tab at the end of `p` would be drawn one column wide. */
  predicate OneColumnTab(tab: TabSize, p: seq<byte>) {
    NextColumn(tab, TAB, EndOf(tab, p).column) == EndOf(tab, p).column + 1
  }

  /** No tab after the last newline of `m` is more than one column wide when `m` follows `p`. */
  ghost predicate NarrowTabs(tab: TabSize, p: seq<byte>, m: seq<byte>) {
    forall i :: 0 <= i < |m| && m[i] == TAB && NEWLINE !in m[i..] ==> OneColumnTab(tab, p + m[..i])
  }

  /** The same for every tab but a final one. */
  ghost predicate NarrowInnerTabs(tab: TabSize, p: seq<byte>, m: seq<byte>) {
    forall i :: 0 <= i && i + 1 < |m| && m[i] == TAB && NEWLINE !in m[i..] ==> OneColumnTab(tab, p + m[..i])
  }

  lemma NarrowSnoc(tab: TabSize, p: seq<byte>, x: seq<byte>, c: seq<byte>)
    requires CodeSequence(c)
    ensures c[0] == NEWLINE ==> NarrowTabs(tab, p, x + c) && NarrowInnerTabs(tab, p, x + c)
    ensures c[0] != NEWLINE ==>
              && (NarrowInnerTabs(tab, p, x + c) <==> NarrowTabs(tab, p, x))
              && (NarrowTabs(tab, p, x + c) <==>
                  NarrowTabs(tab, p, x) && (c[0] == TAB ==> OneColumnTab(tab, p + x)))
  {
    var m := x + c;
    if c[0] == NEWLINE {
      assert c == [NEWLINE] && m[|x|] == NEWLINE;
      assert forall i :: 0 <= i < |m| ==> m[i..][|x| - i] == NEWLINE;
    } else {
      NarrowSnocTabs(x, c);
      assert c[0] == TAB ==> NEWLINE !in m[|x|..] by { assert m[|x|..] == c; }
      assert m[..|x|] == x;
      assert forall i :: 0 <= i < |x| ==> m[..i] == x[..i];
    }
  }

  /** Appending a character other than a newline adds no newline, and at most one tab. */
  lemma NarrowSnocTabs(x: seq<byte>, c: seq<byte>)
    requires CodeSequence(c) && c[0] != NEWLINE
    ensures forall i :: 0 <= i < |x| ==> (NEWLINE in (x + c)[i..] <==> NEWLINE in x[i..])
    ensures forall i :: |x| < i < |x + c| ==> (x + c)[i] != TAB
    ensures c[0] == TAB ==> |c| == 1
    ensures NEWLINE !in c
  {
    assert forall k :: 0 < k < |c| ==> IsUTFSequence(c[k]);
    assert NEWLINE !in c;
    forall i | 0 <= i < |x|
      ensures NEWLINE in (x + c)[i..] <==> NEWLINE in x[i..]
    {
      assert (x + c)[i..] == x[i..] + c;
    }
  }

  /** The counted coordinate is on the right line and never beyond the true end; it is the true
      end exactly when the tabs after the last newline are narrow. */
  lemma {:induction false} CountedIsEnd(tab: TabSize, p: seq<byte>, m: seq<byte>)
    requires CleanText(p) && CleanText(m)
    ensures var c, e := CountedEnd(EndOf(tab, p), m), EndOf(tab, p + m);
            && c.line == e.line && c.column <= e.column
            && (c == e <==> NarrowTabs(tab, p, m))
    decreases |m|
  {
    if m == [] {
      assert p + m == p;
    } else {
      var x, c := LastSequence(m);
      CountedIsEnd(tab, p, x);
      CountedSnoc(tab, p, x, c);
      NarrowSnoc(tab, p, x, c);
    }
  }

  /** One more character: the counted and the true coordinate. */
  lemma CountedSnoc(tab: TabSize, p: seq<byte>, x: seq<byte>, c: seq<byte>)
    requires CleanText(p) && CleanText(x) && CodeSequence(c) && c[0] != RETURN
    ensures var a := CountedEnd(EndOf(tab, p), x);
            CountedEnd(EndOf(tab, p), x + c) ==
            if c[0] == NEWLINE then Coordinates(a.line + 1, 0) else Coordinates(a.line, a.column + 1)
    ensures var e := EndOf(tab, p + x);
            EndOf(tab, p + (x + c)) ==
            if c[0] == NEWLINE then Coordinates(e.line + 1, 0)
            else Coordinates(e.line, NextColumn(tab, c[0], e.column))
  {
    CountedAppend(EndOf(tab, p), x, c);
    CountedSequence(CountedEnd(EndOf(tab, p), x), c);
    EndSnoc(tab, p, x, c);
  }

  lemma EndSnoc(tab: TabSize, p: seq<byte>, x: seq<byte>, c: seq<byte>)
    requires CleanText(p) && CleanText(x) && CodeSequence(c)
    ensures var e := EndOf(tab, p + x);
            EndOf(tab, p + (x + c)) ==
            if c[0] == NEWLINE then Coordinates(e.line + 1, 0)
            else Coordinates(e.line, NextColumn(tab, c[0], e.column))
  {
    CleanConcat(p, x);
    EndAfterSequence(tab, p + x, c);
    Associative(p, x, c);
  }

  lemma Associative(p: seq<byte>, x: seq<byte>, c: seq<byte>)
    ensures p + (x + c) == (p + x) + c
  {
  }

  lemma LastSequence(m: seq<byte>) returns (x: seq<byte>, c: seq<byte>)
    requires CleanText(m) && m != []
    ensures m == x + c && CodeSequence(c) && CleanText(x) && CleanText(c) && |x| < |m|
    ensures c[0] != RETURN
  {
    PreviousOfNext(m, |m|);
    var b := PreviousBoundary(m, |m|);
    NextBoundary(m, b);
    CutClean(m, b);
    x, c := m[..b], m[b..];
    assert m[b..|m|] == c;
  }

  /** The coordinate InsertTextAt leaves behind resolves to the end of the inserted text exactly
      when every inserted tab after the last newline, other than a final one, is one column wide;
      otherwise it resolves to an earlier place. */
  lemma CountedResolves(tab: TabSize, p: seq<byte>, m: seq<byte>, s: seq<byte>)
    requires CleanText(p) && CleanText(m) && CleanText(s)
    ensures CleanText(p + m + s)
    ensures var c := CountedEnd(EndOf(tab, p), m);
            && InRange(p + m + s, c) && Sanitize(tab, p + m + s, c) == c
            && At(tab, p + m + s, c) <= |p| + |m|
            && (At(tab, p + m + s, c) == |p| + |m| <==> NarrowInnerTabs(tab, p, m))
  {
    hide Lines, Flat, Framed;
    var t := p + m + s;
    var c := CountedEnd(EndOf(tab, p), m);
    EndOfInserted(tab, p, m, s);
    CountedIsEnd(tab, p, m);
    BelowAligned(tab, t, c, EndOf(tab, p + m), |p| + |m|);
    if m == [] {
      assert p + m == p;
    } else {
      var x, l := LastSequence(m);
      NarrowSnoc(tab, p, x, l);
      if l[0] != NEWLINE {
        LastCharacterCounted(tab, p, x, l, s);
        assert p + m + s == p + (x + l) + s;
      }
    }
  }

  /** The case of a last character that is not a newline. */
  lemma LastCharacterCounted(tab: TabSize, p: seq<byte>, x: seq<byte>, l: seq<byte>, s: seq<byte>)
    requires CleanText(p) && CleanText(x) && CleanText(l) && CleanText(s)
    requires CodeSequence(l) && l[0] != NEWLINE && l[0] != RETURN
    ensures var t := p + (x + l) + s;
            var c := CountedEnd(EndOf(tab, p), x + l);
            CleanText(t) && InRange(t, c) && (At(tab, t, c) == |p + x + l| <==> NarrowTabs(tab, p, x))
  {
    CleanConcat(p, x);
    CleanConcat(l, s);
    EndDenotes(tab, p + x, l + s);
    Regroup(p, x, l, s);
    CountedSnoc(tab, p, x, l);
    CountedIsEnd(tab, p, x);
    OneCharacterOn(tab, p + (x + l) + s, EndOf(tab, p + x), |p + x|, CountedEnd(EndOf(tab, p), x + l));
  }

  /** A coordinate up to one column beyond an aligned one: whether it reaches the next character. */
  lemma OneCharacterOn(tab: TabSize, t: seq<byte>, e: Coordinates, o: nat, c: Coordinates)
    requires CleanText(t) && Denotes(tab, t, e, o) && o < |t| && t[o] != NEWLINE
    requires c.line == e.line && c.column <= e.column + 1
    ensures InRange(t, c)
    ensures At(tab, t, c) == o + UTF8CharLength(t[o]) <==> c.column == e.column + 1
  {
    NextColumnRounds(tab, t, e, o);
    DenotesAt(tab, t, e, o);
    if c.column <= e.column {
      AtMonotone(tab, t, c, e);
    }
  }

  lemma Regroup(p: seq<byte>, x: seq<byte>, l: seq<byte>, s: seq<byte>)
    requires l != []
    ensures p + (x + l) + s == (p + x) + (l + s)
    ensures (p + (x + l) + s)[|p + x|] == l[0]
  {
  }

  lemma BelowAligned(tab: TabSize, t: seq<byte>, c: Coordinates, e: Coordinates, o: nat)
    requires CleanText(t) && Denotes(tab, t, e, o) && c.line == e.line && c.column <= e.column
    ensures InRange(t, c) && Sanitize(tab, t, c) == c && At(tab, t, c) <= o
    ensures c == e ==> At(tab, t, c) == o
  {
    var d, i := PositionOf(tab, t, e, o);
    var s := d[e.line];
    if i < |s| {
      ColumnMonotone(tab, s, i, |s|);
    }
    DenotesAt(tab, t, e, o);
    AtMonotone(tab, t, c, e);
  }

  // ---------- Paste ----------

  /** The pasted text, and the text before it. */
  ghost predicate PasteRecorded(tab: TabSize, k: Snapshot, clip: seq<byte>)
    requires Ready(tab, k)
  {
    NarrowInnerTabs(tab, k.text[..SelectionFrom(tab, k)], StripReturns(clip))
  }

  /** A paste leaves a full record exactly when no pasted tab after the last newline, other than
      a final one, is more than one column wide. */
  lemma PasteExact(tab: TabSize, k: Snapshot, clip: seq<byte>)
    requires Ready(tab, k) && CString(clip)
    ensures ExactStep(tab, k, Paste(tab, k, clip)) <==> PasteRecorded(tab, k, clip)
  {
    if clip != [] {
      var pos, a, b := InsertionPoint(tab, k);
      SelectionRecordRemoves(tab, k, pos, a, b);
      var r, u, m := PasteResult(tab, k, clip, pos, a, b);
      PasteHalves(tab, k, r, u, clip, m, pos, a, b);
    }
  }

  lemma PasteResult(tab: TabSize, k: Snapshot, clip: seq<byte>, pos: Coordinates, a: nat, b: nat)
    returns (r: Snapshot, u: UndoRecord, m: seq<byte>)
    requires Ready(tab, k) && CString(clip) && clip != []
    requires a == SelectionFrom(tab, k) && b == SelectionTo(tab, k)
    requires var d := DeleteSelection(tab, k);
             && d.text == k.text[..a] + k.text[b..]
             && pos == Sanitize(tab, d.text, d.state.cursorPosition)
             && InRange(d.text, pos) && At(tab, d.text, pos) == a
    ensures m == StripReturns(clip) && CleanText(m)
    ensures r == Paste(tab, k, clip) && Recorded(k, r, u)
    ensures r.text == k.text[..a] + m + k.text[b..]
    ensures u == SelectionRecord(tab, k).(added := clip, addedStart := pos,
                 addedEnd := Sanitize(tab, r.text, CountedEnd(pos, m)), after := r.state)
  {
    m := StripReturns(clip);
    r := Paste(tab, k, clip);
    u := r.undoBuffer[k.undoIndex];
    StripClean(clip);
    CountedStrip(pos, clip);
    InsertIntoRemoved(k.text, a, b, m);
  }

  lemma PasteHalves(tab: TabSize, k: Snapshot, r: Snapshot, u: UndoRecord, clip: seq<byte>, m: seq<byte>,
                    pos: Coordinates, a: nat, b: nat)
    requires CleanText(k.text) && a <= b && Boundary(k.text, a) && Boundary(k.text, b)
    requires Recorded(k, r, u) && r.text == k.text[..a] + m + k.text[b..]
    requires CString(clip) && m == StripReturns(clip) && CleanText(m) && clip != []
    requires u.added == clip && u.removed == k.text[a..b]
    requires Denotes(tab, k.text, pos, a) && u.addedStart == pos
    requires u.addedEnd == Sanitize(tab, r.text, CountedEnd(pos, m))
    requires a < b ==> u.removedStart == pos && u.removedStart.AtMost(u.removedEnd)
                       && RoundsTo(tab, k.text, u.removedEnd, b)
    ensures ExactStep(tab, k, r) <==> NarrowInnerTabs(tab, k.text[..a], m)
  {
    Pieces(k.text, a, b);
    CountedResolves(tab, k.text[..a], m, k.text[b..]);
    if NarrowInnerTabs(tab, k.text[..a], m) {
      ReplacementRestores(tab, k, r, u, a, b, m);
    } else {
      RecordedOnce(tab, k, r, u);
      StripIdentity(u.removed);
      EndOfInserted(tab, k.text[..a], m, k.text[b..]);
      StartResolves(tab, k.text[..a], m, k.text[b..]);
      UndoLength(tab, r.text, u, a);
    }
  }

  lemma StartResolves(tab: TabSize, p: seq<byte>, m: seq<byte>, s: seq<byte>)
    requires CleanText(p) && CleanText(m) && CleanText(s)
    ensures RoundsTo(tab, p + m + s, EndOf(tab, p), |p|)
  {
    CleanConcat(m, s);
    Middle(p, m, s);
    EndDenotes(tab, p, m + s);
  }

  lemma UndoLength(tab: TabSize, t: seq<byte>, u: UndoRecord, o: nat)
    requires CleanText(t) && u.added != [] && StripReturns(u.removed) == u.removed
    requires InRange(t, u.addedStart) && At(tab, t, u.addedStart) == o && InRange(t, u.addedEnd)
    requires u.addedStart.AtMost(u.addedEnd)
    ensures CanUndoRecord(tab, t, u) ==>
              |UndoText(tab, t, u)| == |t| - (At(tab, t, u.addedEnd) - o) + |u.removed|
  {
    AtMonotone(tab, t, u.addedStart, u.addedEnd);
  }
}
