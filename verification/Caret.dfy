/** Moving the cursor character by character through the flat text. */
module Caret {
  import opened Utf8
  import opened Columns
  import opened Documents
  import opened Positions
  import opened ExactEdits

  /** `n` characters back from offset `o`, stopping at the start of the text. */
  function StepsBack(t: seq<byte>, o: nat, n: nat): (r: nat)
    requires o <= |t|
    ensures r <= o
    decreases n
  {
    if n == 0 || o == 0 then o else StepsBack(t, PreviousBoundary(t, o), n - 1)
  }

  lemma {:induction false} StepsBackBoundary(t: seq<byte>, o: nat, n: nat)
    requires Framed(t) && Boundary(t, o)
    ensures Boundary(t, StepsBack(t, o, n))
    decreases n
  {
    if n > 0 && o > 0 {
      PreviousOfNext(t, o);
      StepsBackBoundary(t, PreviousBoundary(t, o), n - 1);
    }
  }

  lemma {:induction false} OneMoreBack(t: seq<byte>, o: nat, n: nat)
    requires o <= |t|
    ensures StepsBack(t, o, n + 1) == StepsBack(t, StepsBack(t, o, n), 1)
    decreases n
  {
    if n > 0 && o > 0 {
      OneMoreBack(t, PreviousBoundary(t, o), n - 1);
    }
  }

  /** MoveLeft(n): the coordinate of the n-th character before `c`. */
  ghost function LeftOf(tab: TabSize, t: seq<byte>, c: Coordinates, n: nat): Coordinates
    requires CleanText(t) && InRange(t, c)
  {
    EndOf(tab, t[..StepsBack(t, At(tab, t, c), n)])
  }

  /** MoveRight(1): the coordinate of the character after `c`; the end of the text stays. */
  ghost function RightOf(tab: TabSize, t: seq<byte>, c: Coordinates): Coordinates
    requires CleanText(t) && InRange(t, c)
  {
    var o := At(tab, t, c);
    if o == |t| then c
    else
      NextBoundary(t, o);
      EndOf(tab, t[..o + UTF8CharLength(t[o])])
  }

  /** Both land on characters. */
  lemma MovesAligned(tab: TabSize, t: seq<byte>, c: Coordinates, n: nat)
    requires CleanText(t) && Aligned(tab, t, c)
    ensures Aligned(tab, t, LeftOf(tab, t, c, n))
    ensures At(tab, t, LeftOf(tab, t, c, n)) == StepsBack(t, At(tab, t, c), n)
    ensures Aligned(tab, t, RightOf(tab, t, c))
    ensures At(tab, t, c) < |t| ==>
              At(tab, t, RightOf(tab, t, c)) == At(tab, t, c) + UTF8CharLength(t[At(tab, t, c)])
    ensures At(tab, t, c) == |t| ==> RightOf(tab, t, c) == c
  {
    var o := At(tab, t, c);
    StepsBackBoundary(t, o, n);
    DenotesAt(tab, t, LeftOf(tab, t, c, n), StepsBack(t, o, n));
    if o < |t| {
      EndDenotesNext(tab, t, o);
      DenotesAt(tab, t, RightOf(tab, t, c), o + UTF8CharLength(t[o]));
    }
  }

  /** One character right and then one left leads back, from everywhere but the end of the text. */
  lemma LeftUndoesRight(tab: TabSize, t: seq<byte>, c: Coordinates)
    requires CleanText(t) && Aligned(tab, t, c) && At(tab, t, c) < |t|
    ensures InRange(t, RightOf(tab, t, c)) && LeftOf(tab, t, RightOf(tab, t, c), 1) == c
  {
    var o := At(tab, t, c);
    MovesAligned(tab, t, c, 0);
    NextOfPrevious(t, o);
    assert StepsBack(t, o + UTF8CharLength(t[o]), 1) == o;
    AlignedDenotes(tab, t, c);
  }

  /** One character left and then one right leads back, from everywhere but the start of the text. */
  lemma RightUndoesLeft(tab: TabSize, t: seq<byte>, c: Coordinates)
    requires CleanText(t) && Aligned(tab, t, c) && At(tab, t, c) > 0
    ensures InRange(t, LeftOf(tab, t, c, 1)) && RightOf(tab, t, LeftOf(tab, t, c, 1)) == c
  {
    var o := At(tab, t, c);
    MovesAligned(tab, t, c, 1);
    PreviousOfNext(t, o);
    assert StepsBack(t, o, 1) == PreviousBoundary(t, o);
    AlignedDenotes(tab, t, c);
  }

  // ---------- Several characters to the right ----------

  /** The state of the loop of MoveRight: the cursor, the index that the loop keeps beside it, and whether
      the end of the text ended the call. */
  datatype Walk = Walk(cursor: Coordinates, index: nat, stopped: bool)

  /** One pass of the loop. Where it enters a line the index stays what it was in the line before. */
  function RightStep(tab: TabSize, d: Document, w: Walk): (r: Walk)
    requires w.cursor.line < |d|
    ensures r.cursor.line < |d|
  {
    var s := d[w.cursor.line];
    if w.stopped then w
    else if w.index >= |s| then
      if w.cursor.line < |d| - 1 then w.(cursor := Coordinates(w.cursor.line + 1, 0)) else w.(stopped := true)
    else
      var i := w.index + UTF8CharLength(s[w.index]);
      Walk(Coordinates(w.cursor.line, ColumnAt(tab, s, i)), i, false)
  }

  function RightSteps(tab: TabSize, d: Document, w: Walk, n: nat): (r: Walk)
    requires w.cursor.line < |d|
    ensures r.cursor.line < |d|
    decreases n
  {
    if n == 0 then w else RightSteps(tab, d, RightStep(tab, d, w), n - 1)
  }

  /** The index belongs to the cursor. */
  predicate InStep(tab: TabSize, d: Document, w: Walk)
    requires w.cursor.line < |d|
  {
    w.index == IndexAt(tab, d[w.cursor.line], w.cursor.column)
  }

  /** `n` single moves. */
  ghost function RightTimes(tab: TabSize, t: seq<byte>, c: Coordinates, n: nat): (r: Coordinates)
    requires CleanText(t) && InRange(t, c)
    ensures InRange(t, r)
    decreases n
  {
    if n == 0 then c
    else
      RightInRange(tab, t, c);
      RightTimes(tab, t, RightOf(tab, t, c), n - 1)
  }

  lemma RightInRange(tab: TabSize, t: seq<byte>, c: Coordinates)
    requires CleanText(t) && InRange(t, c)
    ensures InRange(t, RightOf(tab, t, c))
  {
    var o := At(tab, t, c);
    if o < |t| {
      EndDenotesNext(tab, t, o);
      DenotesAt(tab, t, RightOf(tab, t, c), o + UTF8CharLength(t[o]));
    }
  }

  /** The cursor is at the end of a line with characters, and another line follows. */
  ghost predicate LeavesLine(tab: TabSize, t: seq<byte>, c: Coordinates)
    requires CleanText(t) && InRange(t, c)
  {
    && Lines(t)[c.line] != []
    && At(tab, t, c) < |t|
    && t[At(tab, t, c)] == NEWLINE
  }

  /** Where the next line begins. */
  lemma NextLine(tab: TabSize, d: Document, l: nat)
    requires CleanDocument(d) && l + 1 < |d|
    ensures IndexAt(tab, d[l + 1], 0) == 0
    ensures var o := Offset(d, l, |d[l]|);
            o + 1 <= |Flat(d)| && EndOf(tab, Flat(d)[..o + 1]) == Coordinates(l + 1, 0)
  {
    hide Lines, Flat;
    CharAt(d, l, |d[l]|);
    SplitAt(d, l + 1, 0);
    assert CleanLine(d[l + 1]);
    EndOfBefore(tab, d, l + 1, 0);
  }

  /** Where the next character of a line begins. */
  lemma NextInLine(tab: TabSize, d: Document, l: nat, i: nat)
    requires CleanDocument(d) && l < |d| && i < |d[l]| && Boundary(d[l], i)
    ensures var o, n := Offset(d, l, i), UTF8CharLength(d[l][i]);
            && i + n <= |d[l]| && Boundary(d[l], i + n)
            && o + n <= |Flat(d)| && EndOf(tab, Flat(d)[..o + n]) == Coordinates(l, ColumnAt(tab, d[l], i + n))
            && IndexAt(tab, d[l], ColumnAt(tab, d[l], i + n)) == i + n
  {
    hide Lines, Flat;
    assert CleanLine(d[l]);
    NextBoundary(d[l], i);
    var j := i + UTF8CharLength(d[l][i]);
    OffsetInLine(d, l, i, j);
    SplitAt(d, l, j);
    EndOfBefore(tab, d, l, j);
    IndexOfColumn(tab, d[l], j);
  }

  /** A pass in step moves to the next character, or stops at the end of the text; it stays in step unless
      it leaves a line with characters. */
  lemma StepInStep(tab: TabSize, t: seq<byte>, w: Walk)
    requires CleanText(t) && InRange(t, w.cursor) && InStep(tab, Lines(t), w) && !w.stopped
    ensures var r := RightStep(tab, Lines(t), w);
            && r.cursor == RightOf(tab, t, w.cursor)
            && (r.stopped <==> At(tab, t, w.cursor) == |t|)
            && (InStep(tab, Lines(t), r) <==> !LeavesLine(tab, t, w.cursor))
  {
    hide Lines, Flat, Framed, EndOf, ColumnAt;
    var d, l := Lines(t), w.cursor.line;
    LinesClean(t);
    FlatLines(t);
    AtOfFlat(tab, d, w.cursor);
    CharAt(d, l, w.index);
    if w.index < |d[l]| {
      NextInLine(tab, d, l, w.index);
      assert CleanLine(d[l]);
    } else if l + 1 < |d| {
      NextLine(tab, d, l);
    }
  }

  /** The index belongs to the cursor at the start of each of `n` passes. */
  ghost predicate StaysInStep(tab: TabSize, d: Document, w: Walk, n: nat)
    requires w.cursor.line < |d|
    decreases n
  {
    n > 0 && !w.stopped ==> InStep(tab, d, w) && StaysInStep(tab, d, RightStep(tab, d, w), n - 1)
  }

  /** The cursor leaves no line with characters in its first `n` single moves. */
  ghost predicate StaysInLines(tab: TabSize, t: seq<byte>, c: Coordinates, n: nat)
    requires CleanText(t) && InRange(t, c)
    decreases n
  {
    if n == 0 then true
    else
      RightInRange(tab, t, c);
      !LeavesLine(tab, t, c) && StaysInLines(tab, t, RightOf(tab, t, c), n - 1)
  }

  /** The index belongs to the cursor in every pass if and only if no line with characters is left before the
      last one; then MoveRight(n) goes where `n` single moves go. */
  lemma {:induction false} RightInStep(tab: TabSize, t: seq<byte>, w: Walk, n: nat)
    requires CleanText(t) && InRange(t, w.cursor) && InStep(tab, Lines(t), w) && !w.stopped && n > 0
    ensures StaysInStep(tab, Lines(t), w, n) <==> StaysInLines(tab, t, w.cursor, n - 1)
    ensures StaysInLines(tab, t, w.cursor, n - 1) ==>
              RightSteps(tab, Lines(t), w, n).cursor == RightTimes(tab, t, w.cursor, n)
    decreases n
  {
    hide Lines, Flat, Framed, LeavesLine, RightStep, InStep;
    StepInStep(tab, t, w);
    RightInRange(tab, t, w.cursor);
    var r := RightStep(tab, Lines(t), w);
    if r.stopped {
      StoppedStays(tab, Lines(t), r, n - 1);
      EndStays(tab, t, w.cursor, n);
    } else if n > 1 && !LeavesLine(tab, t, w.cursor) {
      RightInStep(tab, t, r, n - 1);
    }
  }

  lemma {:induction false} StoppedStays(tab: TabSize, d: Document, w: Walk, n: nat)
    requires w.cursor.line < |d| && w.stopped
    ensures RightSteps(tab, d, w, n) == w
    decreases n
  {
    if n > 0 {
      StoppedStays(tab, d, w, n - 1);
    }
  }

  lemma {:induction false} EndStays(tab: TabSize, t: seq<byte>, c: Coordinates, n: nat)
    requires CleanText(t) && InRange(t, c) && At(tab, t, c) == |t|
    ensures RightTimes(tab, t, c, n) == c && StaysInLines(tab, t, c, n)
    decreases n
  {
    hide Lines, Framed;
    if n > 0 {
      EndStays(tab, t, c, n - 1);
    }
  }

  /** How the ends of an interactive selection follow the cursor; `endFirst` is the order in which
      MoveRight looks for the old position, MoveLeft looks at the start first. */
  function Follow(select: bool, endFirst: bool, old_: Coordinates, cursor: Coordinates,
                  ends: (Coordinates, Coordinates)): (Coordinates, Coordinates)
  {
    if !select then (cursor, cursor)
    else if endFirst then
      if old_ == ends.1 then (ends.0, cursor)
      else if old_ == ends.0 then (cursor, ends.1)
      else (old_, cursor)
    else
      if old_ == ends.0 then (cursor, ends.1)
      else if old_ == ends.1 then (ends.0, cursor)
      else (cursor, old_)
  }

  /** An extending move from one end of the interactive selection to `cursor` keeps the other end; from
      anywhere else it starts a new selection; a move that does not extend collapses it. */
  lemma FollowKeepsOtherEnd(endFirst: bool, from: Coordinates, cursor: Coordinates, other: Coordinates,
                            ends: (Coordinates, Coordinates))
    ensures ends == (from, other) ==> Ends(Follow(true, endFirst, from, cursor, ends)) == multiset{cursor, other}
    ensures ends == (other, from) ==> Ends(Follow(true, endFirst, from, cursor, ends)) == multiset{cursor, other}
    ensures from != ends.0 && from != ends.1 ==>
              Ends(Follow(true, endFirst, from, cursor, ends)) == multiset{from, cursor}
    ensures Follow(false, endFirst, from, cursor, ends) == (cursor, cursor)
  {
  }

  /** Moving back while extending restores the two ends, in either order. */
  lemma FollowReverses(endFirst: bool, from: Coordinates, cursor: Coordinates, ends: (Coordinates, Coordinates))
    requires from == ends.0 || from == ends.1
    ensures var there := Follow(true, endFirst, from, cursor, ends);
            Ends(Follow(true, !endFirst, cursor, from, there)) == Ends(ends)
  {
    var other := if from == ends.0 then ends.1 else ends.0;
    FollowKeepsOtherEnd(endFirst, from, cursor, other, ends);
    var there := Follow(true, endFirst, from, cursor, ends);
    FollowKeepsOtherEnd(!endFirst, cursor, from, other, there);
  }

  function Ends(ends: (Coordinates, Coordinates)): multiset<Coordinates> {
    multiset{ends.0, ends.1}
  }
}
