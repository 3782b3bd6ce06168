/** How edits renumber the lines of a text, and which lines then wait for recolouring. */
module LineMoves {
  import opened Documents
  import opened ColorRange

  /** What a step does to the lines, and the lines from `from` up to `end` that it asks to recolour:
      `n` lines behind line `at` are joined to it, line `at` is broken into n + 1, or the lines
      lo, ..., hi change where they are, and nothing is asked for. */
  datatype Move =
    | Joined(at: int, n: int, from: int, end: int)
    | Broken(at: int, n: int, from: int, end: int)
    | Changed(lo: int, hi: int)

  /** The request starts at the place of the step, or above it. */
  predicate Covers(m: Move) {
    m.Changed? || (0 <= m.at && 0 <= m.n && m.from <= m.at && m.from <= m.end && 0 <= m.end)
  }

  predicate AllCover(ms: seq<Move>) {
    forall i {:trigger ms[i]} :: 0 <= i < |ms| ==> Covers(ms[i])
  }

  /** And it covers every line that the step rewrites, and at most one line below. */
  predicate Asks(m: Move) {
    && Covers(m)
    && match m
       case Joined(at, _, from, end) => from == at && end == at + 1
       case Broken(at, n, from, end) => from < at && at + n < end <= at + MaxOf(n, 1) + 1
       case Changed(_, _) => true
  }

  predicate AllAsk(ms: seq<Move>): (r: bool)
    ensures r ==> AllCover(ms)
  {
    forall i {:trigger ms[i]} :: 0 <= i < |ms| ==> Asks(ms[i])
  }

  /** Line `l` of the old text is joined into another one on both sides. */
  predicate Vanishes(m: Move, l: int) {
    m.Joined? && m.at < l < m.at + m.n
  }

  /** The new number of line `l`. */
  function Image(m: Move, l: int): int {
    match m
    case Joined(at, n, _, _) => if l <= at then l else l - n
    case Broken(at, n, _, _) => if l <= at then l else l + n
    case Changed(_, _) => l
  }

  predicate Survives(ms: seq<Move>, l: int) {
    ms != [] ==> !Vanishes(ms[0], l) && Survives(ms[1..], Image(ms[0], l))
  }

  function Images(ms: seq<Move>, l: int): int {
    if ms == [] then l else Images(ms[1..], Image(ms[0], l))
  }

  /** Line `l` of the new text is not the same as before. */
  predicate Rewrites(m: Move, l: int) {
    match m
    case Joined(at, _, _, _) => l == at
    case Broken(at, n, _, _) => at <= l <= at + n
    case Changed(lo, hi) => lo <= l <= hi
  }

  /** Where line `l` of the new text was before. */
  function Origin(m: Move, l: int): int {
    match m
    case Joined(at, n, _, _) => if l < at then l else l + n
    case Broken(at, n, _, _) => if l < at then l else l - n
    case Changed(_, _) => l
  }

  /** The step leads from `d` to `e`: lines that it does not rewrite are old lines, at their images. */
  ghost predicate Moved(m: Move, d: Document, e: Document) {
    && |e| == (match m case Joined(_, n, _, _) => |d| - n case Broken(_, n, _, _) => |d| + n case Changed(_, _) => |d|)
    && forall l {:trigger e[l]} :: 0 <= l < |e| && !Rewrites(m, l) ==>
         && 0 <= Origin(m, l) < |d| && e[l] == d[Origin(m, l)]
         && !Vanishes(m, Origin(m, l)) && Image(m, Origin(m, l)) == l
  }

  ghost predicate AllMoved(ms: seq<Move>, d: Document, e: Document)
    decreases |ms|
  {
    if ms == [] then d == e else exists f :: Moved(ms[0], d, f) && AllMoved(ms[1..], f, e)
  }

  lemma NothingMoved(m: Move, d: Document)
    requires !m.Changed? && m.n == 0
    ensures Moved(m, d, d)
  {
    forall l | 0 <= l < |d|
      ensures Origin(m, l) == l && Image(m, l) == l && !Vanishes(m, l)
    {
    }
  }

  lemma ChangedMoved(d: Document, e: Document, lo: nat, hi: nat)
    requires |d| == |e| && forall l {:trigger e[l]} :: 0 <= l < |d| && !(lo <= l <= hi) ==> e[l] == d[l]
    ensures Moved(Changed(lo, hi), d, e)
  {
    var m := Changed(lo, hi);
    forall l | 0 <= l < |d|
      ensures Origin(m, l) == l && Image(m, l) == l && !Vanishes(m, l) && (Rewrites(m, l) <==> lo <= l <= hi)
    {
    }
  }

  lemma NoneMoved(d: Document)
    ensures AllMoved([], d, d)
  {
  }

  lemma MovedOnce(m: Move, d: Document, e: Document)
    requires Moved(m, d, e)
    ensures AllMoved([m], d, e)
  {
    assert AllMoved([], e, e);
    assert [m][1..] == [];
  }

  lemma {:induction false} MovedThen(ms: seq<Move>, ns: seq<Move>, d: Document, e: Document, f: Document)
    requires AllMoved(ms, d, e) && AllMoved(ns, e, f)
    ensures AllMoved(ms + ns, d, f)
    decreases |ms|
  {
    if ms == [] {
      assert ms + ns == ns;
    } else {
      var g :| Moved(ms[0], d, g) && AllMoved(ms[1..], g, e);
      MovedThen(ms[1..], ns, g, e, f);
      assert (ms + ns)[1..] == ms[1..] + ns;
    }
  }

  // ---------- The range ----------

  function Widened(r: Range, m: Move): Range {
    if m.Changed? then r else Widen(r, m.from, m.end)
  }

  function AllWidened(r: Range, ms: seq<Move>): Range
    decreases |ms|
  {
    if ms == [] then r else AllWidened(Widened(r, ms[0]), ms[1..])
  }

  lemma NoneWidened(r: Range)
    ensures AllWidened(r, []) == r
  {
  }

  lemma OneWidened(r: Range, m: Move)
    ensures AllWidened(r, [m]) == Widened(r, m)
  {
    assert [m][1..] == [];
  }

  /** The highest of `hi` and the ends asked for. */
  function Highest(hi: int, ms: seq<Move>): int
    decreases |ms|
  {
    if ms == [] then hi
    else Highest(if ms[0].Changed? then hi else MaxOf(hi, ms[0].end), ms[1..])
  }

  lemma {:induction false} WidenedThen(r: Range, ms: seq<Move>, ns: seq<Move>)
    ensures AllWidened(r, ms + ns) == AllWidened(AllWidened(r, ms), ns)
    decreases |ms|
  {
    if ms == [] {
      assert ms + ns == ns;
    } else {
      assert (ms + ns)[1..] == ms[1..] + ns;
      WidenedThen(Widened(r, ms[0]), ms[1..], ns);
    }
  }

  lemma {:induction false} HighestThen(hi: int, ms: seq<Move>, ns: seq<Move>)
    ensures Highest(hi, ms + ns) == Highest(Highest(hi, ms), ns)
    decreases |ms|
  {
    if ms == [] {
      assert ms + ns == ns;
    } else {
      assert (ms + ns)[1..] == ms[1..] + ns;
      HighestThen(if ms[0].Changed? then hi else MaxOf(hi, ms[0].end), ms[1..], ns);
    }
  }

  lemma {:induction false} HighestIsHigher(hi: int, ms: seq<Move>)
    ensures hi <= Highest(hi, ms)
    decreases |ms|
  {
    if ms != [] {
      HighestIsHigher(if ms[0].Changed? then hi else MaxOf(hi, ms[0].end), ms[1..]);
    }
  }

  lemma {:induction false} HighestAt(hi: int, ms: seq<Move>, j: nat)
    requires j < |ms| && !ms[j].Changed?
    ensures ms[j].end <= Highest(hi, ms)
    decreases |ms|
  {
    if j == 0 {
      HighestIsHigher(MaxOf(hi, ms[0].end), ms[1..]);
    } else {
      HighestAt(if ms[0].Changed? then hi else MaxOf(hi, ms[0].end), ms[1..], j - 1);
    }
  }

  /** The range is nothing but the lowest start and the highest end asked for. */
  lemma {:induction false} RangeEnd(r: Range, ms: seq<Move>)
    requires AllCover(ms)
    ensures AllWidened(r, ms).hi == Highest(r.hi, ms)
    decreases |ms|
  {
    if ms != [] {
      RangeEnd(Widened(r, ms[0]), ms[1..]);
    }
  }

  /** A line that waits lies below the start of the range before, or of some request. */
  lemma {:induction false} RangeStart(r: Range, ms: seq<Move>, l: int)
    requires 0 <= l && Pending(AllWidened(r, ms), l)
    ensures r.lo <= l || exists i {:trigger ms[i]} :: 0 <= i < |ms| && !ms[i].Changed? && ms[i].from <= l
    decreases |ms|
  {
    if ms != [] {
      var q := Widened(r, ms[0]);
      RangeStart(q, ms[1..], l);
      if q.lo > l {
        var i :| 0 <= i < |ms[1..]| && !ms[1..][i].Changed? && ms[1..][i].from <= l;
        assert ms[i + 1] == ms[1..][i];
      }
    }
  }

  /** A line that does not lie above the range before some steps does not lie above it after them; so it
      waits for recolouring if and only if its new number is lower than the highest line asked for. */
  lemma {:induction false} ImageWaits(r: Range, ms: seq<Move>, l: int)
    requires AllCover(ms) && 0 <= l && r.lo <= l && Survives(ms, l)
    ensures 0 <= Images(ms, l)
    ensures Pending(AllWidened(r, ms), Images(ms, l)) <==> Images(ms, l) < Highest(r.hi, ms)
    decreases |ms|
  {
    if ms != [] {
      assert Covers(ms[0]);
      RangeEnd(r, ms);
      RangeEnd(Widened(r, ms[0]), ms[1..]);
      ImageWaits(Widened(r, ms[0]), ms[1..], Image(ms[0], l));
    }
  }

  /** The same holds for a line that step `j` rewrites. */
  lemma RewrittenWaits(r: Range, ms: seq<Move>, j: nat, l: int)
    requires AllCover(ms) && j < |ms| && !ms[j].Changed? && Rewrites(ms[j], l) && Survives(ms[j + 1..], l)
    ensures var y := Images(ms[j + 1..], l);
            Pending(AllWidened(r, ms), y) <==> y < Highest(r.hi, ms)
  {
    var before, after := ms[..j + 1], ms[j + 1..];
    assert ms == before + after && before == ms[..j] + [ms[j]];
    WidenedThen(r, before, after);
    WidenedThen(r, ms[..j], [ms[j]]);
    HighestThen(r.hi, before, after);
    RangeEnd(r, before);
    assert Covers(ms[j]) && [ms[j]][1..] == [];
    ImageWaits(AllWidened(r, before), after, l);
  }

  /** One step: a waiting line goes on waiting unless it moves beyond the range, and it does not move
      beyond it where lines are joined. */
  lemma OneMoveWaits(r: Range, m: Move, l: int)
    requires Covers(m) && 0 <= l && Pending(r, l) && !Vanishes(m, l)
    ensures !m.Broken? ==> Pending(Widened(r, m), Image(m, l))
    ensures m.Broken? && m.end <= m.at + m.n + 1 ==>
              (Pending(Widened(r, m), Image(m, l)) <==> l <= m.at || l + m.n < r.hi)
  {
  }

  /** Without new lines nothing that waits is lost, over any number of steps. */
  lemma {:induction false} WithoutBreaks(r: Range, ms: seq<Move>, l: int)
    requires AllCover(ms) && 0 <= l && Pending(r, l) && Survives(ms, l)
    requires forall i {:trigger ms[i]} :: 0 <= i < |ms| && ms[i].Broken? ==> ms[i].n == 0
    ensures Pending(AllWidened(r, ms), Images(ms, l))
    decreases |ms|
  {
    if ms != [] {
      assert Covers(ms[0]);
      WithoutBreaks(Widened(r, ms[0]), ms[1..], Image(ms[0], l));
    }
  }
}
