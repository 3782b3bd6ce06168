/** Tab-aware columns: the mapping between byte indices of a line and the columns it is drawn in. */
module Columns {
  import opened Utf8

  /** Tab sizes under which a tab has a width; SetTabSize also admits 0. */
  type TabSize = x: int | 1 <= x <= 32 witness 4

  /** The first tab stop beyond column `col`. */
  function NextStop(tab: TabSize, col: nat): (r: nat)
    ensures col < r <= col + tab
  {
    if col < tab then tab else tab + NextStop(tab, col - tab)
  }

  /** A tab stop is a multiple of the tab size, and the next one from at most a tab size before it. */
  lemma {:induction false} StopMultiple(tab: TabSize, col: nat) returns (q: nat)
    ensures q * tab <= col < NextStop(tab, col) == q * tab + tab
  {
    if col < tab {
      q := 0;
    } else {
      var r := StopMultiple(tab, col - tab);
      q := r + 1;
      assert q * tab == r * tab + tab;
    }
  }

  lemma {:induction false} MultipleMonotone(tab: nat, x: nat, y: nat)
    requires x <= y
    ensures x * tab <= y * tab
  {
    assert y * tab == x * tab + (y - x) * tab;
  }

  /** Division answers the only multiple that close. */
  lemma QuotientUnique(tab: TabSize, q: nat, col: nat)
    requires q * tab <= col < q * tab + tab
    ensures col / tab == q
  {
    var d := col / tab;
    assert d * tab <= col < d * tab + tab;
    if d < q {
      MultipleMonotone(tab, d + 1, q);
    } else if q < d {
      MultipleMonotone(tab, q + 1, d);
    }
  }

  /** The tab stop as the source computes it. */
  lemma NextStopFormula(tab: TabSize, col: nat)
    ensures NextStop(tab, col) == col / tab * tab + tab
  {
    var q := StopMultiple(tab, col);
    QuotientUnique(tab, q, col);
  }

  /** The column after drawing character `c` at column `col`: a tab goes to the next tab stop. */
  function NextColumn(tab: TabSize, c: byte, col: nat): (r: nat)
    ensures r > col
    ensures c != TAB ==> r == col + 1
    ensures r <= col + tab
  {
    if c == TAB then NextStop(tab, col) else col + 1
  }

  /** Every column short of a tab stop leads to the same stop. */
  lemma {:induction false} SameStop(tab: TabSize, a: nat, b: nat)
    requires a <= b < NextColumn(tab, TAB, a)
    ensures NextColumn(tab, TAB, b) == NextColumn(tab, TAB, a)
  {
    if a >= tab {
      SameStop(tab, a - tab, b - tab);
    }
  }

  // ---------- The two scans of the source ----------

  /** From index `i` at column `col`, the index of the first character at or past `target`. */
  function IndexFrom(tab: TabSize, s: seq<byte>, i: nat, col: nat, target: nat): (r: nat)
    ensures r >= i
    decreases |s| - i
  {
    if i < |s| && col < target
    then IndexFrom(tab, s, i + UTF8CharLength(s[i]), NextColumn(tab, s[i], col), target)
    else i
  }

  /** From index `i` at column `col`, the column reached at index `target`. */
  function ColumnFrom(tab: TabSize, s: seq<byte>, i: nat, col: nat, target: nat): (r: nat)
    ensures r >= col
    decreases |s| - i
  {
    if i < target && i < |s|
    then ColumnFrom(tab, s, i + UTF8CharLength(s[i]), NextColumn(tab, s[i], col), target)
    else col
  }

  function IndexAt(tab: TabSize, s: seq<byte>, column: nat): (r: nat) {
    IndexFrom(tab, s, 0, 0, column)
  }

  function ColumnAt(tab: TabSize, s: seq<byte>, index: nat): (r: nat) {
    ColumnFrom(tab, s, 0, 0, index)
  }

  /** The column of the end of the line. */
  function MaxColumn(tab: TabSize, s: seq<byte>): (r: nat) {
    ColumnAt(tab, s, |s|)
  }

  // ---------- What the column of an index means ----------

  lemma {:induction false} ColumnStepFrom(tab: TabSize, s: seq<byte>, k: nat, col: nat, i: nat)
    requires Framed(s) && Boundary(s, k) && Boundary(s, i) && k <= i < |s|
    ensures ColumnFrom(tab, s, k, col, i + UTF8CharLength(s[i])) ==
            NextColumn(tab, s[i], ColumnFrom(tab, s, k, col, i))
    decreases i - k
  {
    var n := UTF8CharLength(s[i]);
    if k < i {
      NextBoundary(s, k);
      ColumnStepFrom(tab, s, k + UTF8CharLength(s[k]), NextColumn(tab, s[k], col), i);
    } else {
      assert ColumnFrom(tab, s, i + n, NextColumn(tab, s[i], col), i + n) == NextColumn(tab, s[i], col);
    }
  }

  /** Columns are assigned character by character. */
  lemma ColumnStep(tab: TabSize, s: seq<byte>, i: nat)
    requires Framed(s) && Boundary(s, i) && i < |s|
    ensures ColumnAt(tab, s, i + UTF8CharLength(s[i])) == NextColumn(tab, s[i], ColumnAt(tab, s, i))
  {
    ColumnStepFrom(tab, s, 0, 0, i);
  }

  /** Later characters are drawn in later columns. */
  lemma {:induction false} ColumnMonotone(tab: TabSize, s: seq<byte>, i: nat, j: nat)
    requires Framed(s) && Boundary(s, i) && Boundary(s, j) && i < j
    ensures ColumnAt(tab, s, i) < ColumnAt(tab, s, j)
    decreases j - i
  {
    NextBoundary(s, i);
    ColumnStep(tab, s, i);
    var n := i + UTF8CharLength(s[i]);
    if n < j {
      ColumnMonotone(tab, s, n, j);
    }
  }

  /** A column depends only on the text before it. */
  lemma {:induction false} ColumnFromPrefix(tab: TabSize, s: seq<byte>, t: seq<byte>, k: nat, col: nat, i: nat)
    requires i <= |s| && i <= |t| && s[..i] == t[..i]
    ensures ColumnFrom(tab, s, k, col, i) == ColumnFrom(tab, t, k, col, i)
    decreases i - k
  {
    if k < i {
      assert s[k] == s[..i][k] && t[k] == t[..i][k];
      ColumnFromPrefix(tab, s, t, k + UTF8CharLength(s[k]), NextColumn(tab, s[k], col), i);
    }
  }

  lemma ColumnPrefix(tab: TabSize, s: seq<byte>, t: seq<byte>, i: nat)
    requires i <= |s| && i <= |t| && s[..i] == t[..i]
    ensures ColumnAt(tab, s, i) == ColumnAt(tab, t, i)
  {
    ColumnFromPrefix(tab, s, t, 0, 0, i);
  }

  // ---------- GetCharacterIndex against columns ----------

  /** `r` is the first character boundary whose column is at least `column`, or the line end. */
  ghost predicate FirstBoundaryAtColumn(tab: TabSize, s: seq<byte>, column: nat, r: nat) {
    && Boundary(s, r)
    && (r < |s| ==> column <= ColumnAt(tab, s, r))
    && forall j :: 0 <= j < r && Boundary(s, j) ==> ColumnAt(tab, s, j) < column
  }

  lemma {:induction false} IndexFromIsFirst(tab: TabSize, s: seq<byte>, i: nat, column: nat)
    requires Framed(s) && Boundary(s, i)
    requires forall j :: 0 <= j < i && Boundary(s, j) ==> ColumnAt(tab, s, j) < column
    ensures FirstBoundaryAtColumn(tab, s, column, IndexFrom(tab, s, i, ColumnAt(tab, s, i), column))
    decreases |s| - i
  {
    if i < |s| && ColumnAt(tab, s, i) < column {
      NextBoundary(s, i);
      ColumnStep(tab, s, i);
      IndexFromIsFirst(tab, s, i + UTF8CharLength(s[i]), column);
    }
  }

  /** The scan of GetCharacterIndex finds exactly that boundary. */
  lemma IndexIsFirstBoundary(tab: TabSize, s: seq<byte>, column: nat, r: nat)
    requires Framed(s)
    ensures r == IndexAt(tab, s, column) <==> FirstBoundaryAtColumn(tab, s, column, r)
  {
    IndexFromIsFirst(tab, s, 0, column);
    var i := IndexAt(tab, s, column);
    if FirstBoundaryAtColumn(tab, s, column, r) && r != i {
      assert Boundary(s, i) && Boundary(s, r);
    }
  }

  /** Index to column to index is the identity on character boundaries. */
  lemma IndexOfColumn(tab: TabSize, s: seq<byte>, i: nat)
    requires Framed(s) && Boundary(s, i)
    ensures IndexAt(tab, s, ColumnAt(tab, s, i)) == i
  {
    forall j | 0 <= j < i && Boundary(s, j)
      ensures ColumnAt(tab, s, j) < ColumnAt(tab, s, i)
    {
      ColumnMonotone(tab, s, j, i);
    }
    IndexIsFirstBoundary(tab, s, ColumnAt(tab, s, i), i);
  }

  /** Column to index to column rounds up inside a tab and clips at the line end; it is the
      identity exactly on columns that start a character or end the line. */
  lemma ColumnOfIndex(tab: TabSize, s: seq<byte>, column: nat)
    requires Framed(s)
    ensures var r := ColumnAt(tab, s, IndexAt(tab, s, column));
            && (column <= MaxColumn(tab, s) ==> column <= r)
            && (column > MaxColumn(tab, s) ==> r == MaxColumn(tab, s))
            && (r > column ==> exists i :: Boundary(s, i) && i < |s| && s[i] == TAB
                                        && ColumnAt(tab, s, i) < column < r
                                        && r == NextColumn(tab, TAB, ColumnAt(tab, s, i)))
            && (r == column <==> exists i :: Boundary(s, i) && ColumnAt(tab, s, i) == column)
  {
    var i := IndexAt(tab, s, column);
    var r := ColumnAt(tab, s, i);
    IndexIsFirstBoundary(tab, s, column, i);
    if column > MaxColumn(tab, s) && i < |s| {
      ColumnMonotone(tab, s, i, |s|);
    }
    if r > column {
      PreviousOfNext(s, i);
      var k := PreviousBoundary(s, i);
      ColumnStep(tab, s, k);
    }
    forall j | Boundary(s, j) && ColumnAt(tab, s, j) == column
      ensures r == column
    {
      IndexOfColumn(tab, s, j);
    }
  }

  /** A larger column never has a smaller index. */
  lemma {:induction false} IndexMonotone(tab: TabSize, s: seq<byte>, a: nat, b: nat)
    requires Framed(s) && a <= b
    ensures IndexAt(tab, s, a) <= IndexAt(tab, s, b) <= |s|
  {
    IndexIsFirstBoundary(tab, s, a, IndexAt(tab, s, a));
    IndexIsFirstBoundary(tab, s, b, IndexAt(tab, s, b));
  }

  /** GetLineMaxColumn is the column of the line end, and every column from there on denotes it. */
  lemma IndexOfMaxColumn(tab: TabSize, s: seq<byte>, column: nat)
    requires Framed(s)
    ensures column >= MaxColumn(tab, s) ==> IndexAt(tab, s, column) == |s|
    ensures Boundary(s, IndexAt(tab, s, column))
  {
    var i := IndexAt(tab, s, column);
    IndexIsFirstBoundary(tab, s, column, i);
    if column >= MaxColumn(tab, s) && i < |s| {
      ColumnMonotone(tab, s, i, |s|);
    }
  }

  /** A column left of the line end resolves to the line end exactly when it lies inside a tab that ends
      the line. */
  lemma InsideLastTab(tab: TabSize, s: seq<byte>, column: nat)
    requires Framed(s) && column < MaxColumn(tab, s)
    ensures IndexAt(tab, s, column) == |s| <==>
            s != [] && s[|s| - 1] == TAB && ColumnAt(tab, s, |s| - 1) < column
  {
    if s != [] {
      PreviousOfNext(s, |s|);
      var k := PreviousBoundary(s, |s|);
      ColumnStep(tab, s, k);
      IndexIsFirstBoundary(tab, s, column, |s|);
      if s[|s| - 1] == TAB && ColumnAt(tab, s, |s| - 1) < column {
        LastTabFirst(tab, s, column);
      }
    }
  }

  lemma LastTabFirst(tab: TabSize, s: seq<byte>, column: nat)
    requires Framed(s) && s != [] && s[|s| - 1] == TAB && ColumnAt(tab, s, |s| - 1) < column
    ensures IndexAt(tab, s, column) == |s|
  {
    forall j | 0 <= j < |s| && Boundary(s, j)
      ensures ColumnAt(tab, s, j) < column
    {
      if j < |s| - 1 {
        ColumnMonotone(tab, s, j, |s| - 1);
      }
    }
    IndexIsFirstBoundary(tab, s, column, |s|);
  }
}
