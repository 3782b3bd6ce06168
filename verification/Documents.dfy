/** Documents: lines of bytes, the flat text they stand for, and coordinates in them. */
module Documents {
  import opened Utf8

  /** The lines of a document, without their separators. */
  type Document = seq<seq<byte>>

  /** The characters a line may hold: complete code sequences, and no separator or terminator. */
  predicate CleanLine(s: seq<byte>) {
    && Framed(s)
    && forall k :: 0 <= k < |s| ==> s[k] != NEWLINE && s[k] != RETURN && s[k] != 0
  }

  ghost predicate CleanDocument(d: Document) {
    && |d| > 0
    && forall l :: 0 <= l < |d| ==> CleanLine(d[l])
  }

  /** A flat text: complete code sequences, newlines as separators, no carriage return or NUL. */
  ghost predicate CleanText(t: seq<byte>) {
    && Framed(t)
    && forall k :: 0 <= k < |t| ==> t[k] != RETURN && t[k] != 0
  }

  /** The lines of `d` joined by newlines. */
  function Flat(d: Document): (t: seq<byte>)
    requires |d| > 0
  {
    if |d| == 1 then d[0] else d[0] + [NEWLINE] + Flat(d[1..])
  }

  /** The text `t` split at its newlines. */
  function Lines(t: seq<byte>): (d: Document)
    ensures |d| > 0
  {
    if t == [] then [[]]
    else if t[0] == NEWLINE then [[]] + Lines(t[1..])
    else
      var r := Lines(t[1..]);
      [[t[0]] + r[0]] + r[1..]
  }

  /** Concatenation of documents: the last line of `a` runs on into the first line of `b`. */
  function Join(a: Document, b: Document): (d: Document)
    requires |a| > 0 && |b| > 0
    ensures |d| == |a| + |b| - 1
  {
    a[..|a| - 1] + [a[|a| - 1] + b[0]] + b[1..]
  }

  lemma {:induction false} FlatJoin(a: Document, b: Document)
    requires |a| > 0 && |b| > 0
    ensures Flat(Join(a, b)) == Flat(a) + Flat(b)
  {
    var d := Join(a, b);
    if |a| == 1 {
      assert d == [a[0] + b[0]] + b[1..];
      if |b| > 1 {
        assert d[1..] == b[1..];
        assert a[0] + (b[0] + [NEWLINE] + Flat(b[1..])) == (a[0] + b[0]) + [NEWLINE] + Flat(b[1..]);
      }
    } else {
      assert d[1..] == Join(a[1..], b);
      FlatJoin(a[1..], b);
      assert d[0] == a[0];
      assert a[0] + [NEWLINE] + (Flat(a[1..]) + Flat(b)) == (a[0] + [NEWLINE] + Flat(a[1..])) + Flat(b);
    }
  }

  lemma {:induction false} FlatLines(t: seq<byte>)
    ensures Flat(Lines(t)) == t
  {
    if t != [] {
      FlatLines(t[1..]);
      var r := Lines(t[1..]);
      var d := Lines(t);
      if t[0] == NEWLINE {
        assert d[1..] == r;
      } else {
        assert d == Join([[t[0]]], r);
        FlatJoin([[t[0]]], r);
      }
    }
  }

  ghost predicate NoNewlines(d: Document) {
    forall l :: 0 <= l < |d| ==> NEWLINE !in d[l]
  }

  lemma {:induction false} LinesOfOne(s: seq<byte>)
    requires NEWLINE !in s
    ensures Lines(s) == [s]
  {
    if s != [] {
      LinesOfOne(s[1..]);
      assert [s[0]] + s[1..] == s;
    }
  }

  lemma {:induction false} LinesAppend(s: seq<byte>, t: seq<byte>)
    ensures Lines(s + t) == Join(Lines(s), Lines(t))
  {
    if s == [] {
      assert s + t == t;
      assert Join([[]], Lines(t)) == Lines(t) by { assert [] + Lines(t)[0] == Lines(t)[0]; }
    } else {
      assert (s + t)[1..] == s[1..] + t;
      LinesAppend(s[1..], t);
      var r := Lines(s[1..]);
      if s[0] == NEWLINE {
        assert Lines(s) == [[]] + r;
        assert [[]] + Join(r, Lines(t)) == Join([[]] + r, Lines(t));
      } else {
        PrependChar(s[0], r, Lines(t));
      }
    }
  }

  lemma PrependChar(c: byte, r: Document, t: Document)
    requires |r| > 0 && |t| > 0
    ensures var j := Join(r, t);
            [[c] + j[0]] + j[1..] == Join([[c] + r[0]] + r[1..], t)
  {
    var j := Join(r, t);
    var x := [[c] + r[0]] + r[1..];
    if |r| == 1 {
      assert [c] + (r[0] + t[0]) == ([c] + r[0]) + t[0];
    } else {
      assert x[..|x| - 1] == [[c] + r[0]] + r[1..|r| - 1];
      assert j[1..] == r[1..|r| - 1] + [r[|r| - 1] + t[0]] + t[1..];
    }
  }

  /** A document and its flat text determine each other. */
  lemma {:induction false} LinesFlat(d: Document)
    requires |d| > 0 && NoNewlines(d)
    ensures Lines(Flat(d)) == d
  {
    LinesOfOne(d[0]);
    if |d| > 1 {
      LinesFlat(d[1..]);
      assert Flat(d) == d[0] + ([NEWLINE] + Flat(d[1..]));
      LinesAppend(d[0], [NEWLINE] + Flat(d[1..]));
      assert ([NEWLINE] + Flat(d[1..]))[1..] == Flat(d[1..]);
      assert Join([d[0]], [[]] + d[1..]) == d by { assert d[0] + [] == d[0]; }
    }
  }

  // ---------- Cleanliness carries over between the two views ----------

  lemma CleanSlice(t: seq<byte>, i: nat, j: nat)
    requires CleanText(t) && i <= j && Boundary(t, i) && Boundary(t, j)
    ensures CleanText(t[i..j])
  {
    FramedSlice(t, i, j);
  }

  lemma CleanConcat(s: seq<byte>, t: seq<byte>)
    requires CleanText(s) && CleanText(t)
    ensures CleanText(s + t)
    ensures Boundary(s + t, |s|)
  {
    FramedConcat(s, t);
  }

  lemma {:induction false} FlatClean(d: Document)
    requires CleanDocument(d)
    ensures CleanText(Flat(d))
  {
    if |d| > 1 {
      FlatClean(d[1..]);
      CleanConcat(d[0], [NEWLINE]);
      CleanConcat(d[0] + [NEWLINE], Flat(d[1..]));
    }
  }

  lemma JoinClean(a: Document, b: Document)
    requires CleanDocument(a) && CleanDocument(b)
    ensures CleanDocument(Join(a, b))
  {
    FramedConcat(a[|a| - 1], b[0]);
  }

  lemma LinesOfSequence(c: seq<byte>)
    requires CodeSequence(c) && c[0] != RETURN && c[0] != 0
    ensures CleanDocument(Lines(c))
  {
    if c[0] == NEWLINE {
      assert c == [NEWLINE];
      assert Lines(c[1..]) == [[]];
    } else {
      assert forall k :: 0 < k < |c| ==> IsUTFSequence(c[k]);
      LinesOfOne(c);
      CodeSequenceFramed(c);
    }
  }

  lemma {:induction false} LinesClean(t: seq<byte>)
    requires CleanText(t)
    ensures CleanDocument(Lines(t))
    decreases |t|
  {
    if t != [] {
      var n := FirstSequence(t);
      LinesClean(t[n..]);
      LinesOfSequence(t[..n]);
      assert t == t[..n] + t[n..];
      LinesAppend(t[..n], t[n..]);
      JoinClean(Lines(t[..n]), Lines(t[n..]));
    }
  }

  // ---------- Positions: a line and an index into it ----------

  /** The part of `d` before index `i` of line `l`. */
  function Before(d: Document, l: nat, i: nat): (r: Document)
    requires l < |d| && i <= |d[l]|
    ensures |r| == l + 1
  {
    d[..l] + [d[l][..i]]
  }

  /** The part of `d` from index `i` of line `l` on. */
  function After(d: Document, l: nat, i: nat): (r: Document)
    requires l < |d| && i <= |d[l]|
    ensures |r| == |d| - l
  {
    [d[l][i..]] + d[l + 1..]
  }

  /** The slices of the lines between two positions. */
  function Between(d: Document, l: nat, i: nat, m: nat, j: nat): (r: Document)
    requires l <= m < |d| && i <= |d[l]| && j <= |d[m]| && (l == m ==> i <= j)
    ensures |r| == m - l + 1
  {
    if l == m then [d[l][i..j]] else [d[l][i..]] + d[l + 1..m] + [d[m][..j]]
  }

  /** The offset in the flat text of index `i` of line `l`. */
  function Offset(d: Document, l: nat, i: nat): (o: nat)
    requires l < |d| && i <= |d[l]|
  {
    |Flat(Before(d, l, i))|
  }

  lemma SplitAt(d: Document, l: nat, i: nat)
    requires l < |d| && i <= |d[l]|
    ensures Join(Before(d, l, i), After(d, l, i)) == d
    ensures Offset(d, l, i) <= |Flat(d)|
    ensures Flat(d)[..Offset(d, l, i)] == Flat(Before(d, l, i))
    ensures Flat(d)[Offset(d, l, i)..] == Flat(After(d, l, i))
  {
    hide Flat, Lines, Before, After, Join;
    JoinSplit(d, l, i);
    FlatJoin(Before(d, l, i), After(d, l, i));
    TakeDrop(Flat(Before(d, l, i)), Flat(After(d, l, i)));
  }

  lemma JoinSplit(d: Document, l: nat, i: nat)
    requires l < |d| && i <= |d[l]|
    ensures Join(Before(d, l, i), After(d, l, i)) == d
  {
    assert d[l][..i] + d[l][i..] == d[l];
  }

  lemma TakeDrop(a: seq<byte>, b: seq<byte>)
    ensures (a + b)[..|a|] == a && (a + b)[|a|..] == b
  {
  }

  /** The text between two positions is the slices of the lines joined by newlines. */
  lemma FlatBetween(d: Document, l: nat, i: nat, m: nat, j: nat)
    requires l <= m < |d| && i <= |d[l]| && j <= |d[m]| && (l == m ==> i <= j)
    ensures Offset(d, l, i) <= Offset(d, m, j) <= |Flat(d)|
    ensures Flat(d)[Offset(d, l, i)..Offset(d, m, j)] == Flat(Between(d, l, i, m, j))
  {
    var o := Offset(d, l, i);
    JoinBetween(d, l, i, m, j);
    FlatJoin(Before(d, l, i), Between(d, l, i, m, j));
    SplitAt(d, m, j);
    assert Flat(d)[o..Offset(d, m, j)] == Flat(d)[..Offset(d, m, j)][o..];
  }

  lemma JoinBetween(d: Document, l: nat, i: nat, m: nat, j: nat)
    requires l <= m < |d| && i <= |d[l]| && j <= |d[m]| && (l == m ==> i <= j)
    ensures Join(Before(d, l, i), Between(d, l, i, m, j)) == Before(d, m, j)
  {
    if l == m {
      assert d[l][..i] + d[l][i..j] == d[l][..j];
    } else {
      assert d[l][..i] + d[l][i..] == d[l];
    }
  }

  /** Offsets within a line advance with the index. */
  lemma OffsetInLine(d: Document, l: nat, i: nat, j: nat)
    requires l < |d| && i <= j <= |d[l]|
    ensures Offset(d, l, j) == Offset(d, l, i) + (j - i) <= |Flat(d)|
    ensures Flat(d)[Offset(d, l, i)..Offset(d, l, j)] == d[l][i..j]
  {
    FlatBetween(d, l, i, l, j);
  }

  /** What the flat text holds at a position: a character of the line, the newline that ends
      it, or nothing at the end of the document. */
  lemma CharAt(d: Document, l: nat, i: nat)
    requires l < |d| && i <= |d[l]|
    ensures i < |d[l]| ==> Offset(d, l, i) < |Flat(d)| && Flat(d)[Offset(d, l, i)] == d[l][i]
    ensures i == |d[l]| && l + 1 < |d| ==>
              && Offset(d, l + 1, 0) == Offset(d, l, i) + 1 <= |Flat(d)|
              && Flat(d)[Offset(d, l, i)] == NEWLINE
    ensures i == |d[l]| && l + 1 == |d| ==> Offset(d, l, i) == |Flat(d)|
  {
    SplitAt(d, l, i);
    var r := Flat(After(d, l, i));
    if i < |d[l]| {
      assert r[0] == d[l][i];
      assert Flat(d)[Offset(d, l, i)..][0] == r[0];
    } else if l + 1 < |d| {
      FlatBetween(d, l, i, l + 1, 0);
      assert Between(d, l, i, l + 1, 0) == [[], []];
      var two: Document := [[], []];
      assert two[1..] == [[]];
      assert Flat(two) == [NEWLINE];
    }
  }

  lemma OffsetOrigin(d: Document)
    requires |d| > 0
    ensures Offset(d, 0, 0) == 0
  {
    assert Before(d, 0, 0) == [[]];
  }

  // ---------- Whole lines ----------

  /** The document of one newline. */
  const BREAK: Document := [[], []]

  lemma FlatBreak()
    ensures Flat(BREAK) == [NEWLINE]
  {
    assert BREAK[1..] == [[]];
  }

  lemma JoinBreak(d: Document, l: nat)
    requires |d| > 0 && l <= |d|
    ensures l < |d| ==> Join(Join(Before(d, l, 0), BREAK), After(d, l, 0)) == d[..l] + [[]] + d[l..]
    ensures l == |d| ==> Join(d, BREAK) == d[..l] + [[]] + d[l..]
  {
    hide Flat, Lines;
    assert BREAK[0] == [] && BREAK[1..] == [[]];
    if l < |d| {
      assert d[l][..0] == [] && d[l][0..] == d[l] && [] + d[l] == d[l];
      var b := Before(d, l, 0);
      assert b[..l] == d[..l] && b[l] == [];
      assert b[l] + BREAK[0] == [];
      assert Join(b, BREAK) == d[..l] + [[]] + [[]];
    } else {
      assert d[|d| - 1] + [] == d[|d| - 1];
    }
  }

  /** An empty line before line `l`, or behind the last line, is one more newline. */
  lemma LineInserted(d: Document, l: nat)
    requires |d| > 0 && l <= |d|
    ensures var t, r := Flat(d), Flat(d[..l] + [[]] + d[l..]);
            if l < |d| then
              var o := Offset(d, l, 0);
              o <= |t| && r == t[..o] + [NEWLINE] + t[o..]
            else r == t + [NEWLINE]
  {
    hide Flat, Lines, Before, After, Join;
    FlatBreak();
    JoinBreak(d, l);
    if l < |d| {
      SplitAt(d, l, 0);
      FlatJoin(Before(d, l, 0), BREAK);
      FlatJoin(Join(Before(d, l, 0), BREAK), After(d, l, 0));
    } else {
      FlatJoin(d, BREAK);
    }
  }

  lemma JoinRemoved(d: Document, start: nat, end: nat)
    requires start < end <= |d| && end - start < |d|
    ensures end < |d| ==> Join(Before(d, start, 0), After(d, end, 0)) == d[..start] + d[end..]
    ensures end == |d| ==> Before(d, start - 1, |d[start - 1]|) == d[..start] + d[end..]
  {
    hide Flat, Lines;
    if end < |d| {
      assert d[end][0..] == d[end] && [] + d[end] == d[end];
    } else {
      assert d[start - 1][..|d[start - 1]|] == d[start - 1];
    }
  }

  /** Lines `start` up to `end` go with one newline each: the one behind them, or the one before them if
      they are the last. */
  lemma LinesRemoved(d: Document, start: nat, end: nat)
    requires start <= end <= |d| && end - start < |d|
    ensures var t, r := Flat(d), Flat(d[..start] + d[end..]);
            if start == end then r == t
            else if end < |d| then
              var a, b := Offset(d, start, 0), Offset(d, end, 0);
              a <= b <= |t| && r == t[..a] + t[b..]
            else
              var a := Offset(d, start - 1, |d[start - 1]|);
              a <= |t| && r == t[..a]
  {
    hide Flat, Lines, Before, After, Join;
    if start == end {
      assert d[..start] + d[end..] == d;
    } else {
      JoinRemoved(d, start, end);
      if end < |d| {
        FlatBetween(d, start, 0, end, 0);
        SplitAt(d, start, 0);
        SplitAt(d, end, 0);
        FlatJoin(Before(d, start, 0), After(d, end, 0));
      } else {
        SplitAt(d, start - 1, |d[start - 1]|);
      }
    }
  }
}
