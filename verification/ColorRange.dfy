/** The range of lines waiting to be recoloured. */
module ColorRange {

  /** Lines lo, ..., hi - 1 wait. */
  datatype Range = Range(lo: int, hi: int)

  /** What the range is set to when nothing waits any more. */
  const SENTINEL := Range(0x7FFF_FFFF, 0)

  predicate Pending(r: Range, l: int) {
    r.lo <= l < r.hi
  }

  function Min(a: int, b: int): int {
    if a < b then a else b
  }

  function MaxOf(a: int, b: int): int {
    if a > b then a else b
  }

  /** The line after the last one that a request for `count` lines covers; -1 asks for all. */
  function RequestEnd(total: int, from: int, count: int): int {
    if count == -1 then total else Min(total, from + count)
  }

  /** The range, widened by the lines from `from` up to `end`. */
  function Widen(r: Range, from: int, end: int): Range {
    var lo := MaxOf(0, Min(r.lo, from));
    Range(lo, MaxOf(lo, MaxOf(r.hi, end)))
  }

  /** Colorize: widen the range by a request. It loses no pending line, adds every line asked for,
      and stays between what was pending and what was asked for. */
  function Request(r: Range, total: int, from: int, count: int): (q: Range)
    ensures forall l :: 0 <= l && Pending(r, l) ==> Pending(q, l)
    ensures forall l :: 0 <= l && from <= l < RequestEnd(total, from, count) ==> Pending(q, l)
    ensures forall l :: Pending(q, l) ==>
              && 0 <= l
              && (r.lo <= l || from <= l)
              && (l < r.hi || l < RequestEnd(total, from, count))
  {
    Widen(r, from, RequestEnd(total, from, count))
  }

  /** What one tick recolours: at most `increment` lines from the bottom of the range. */
  function TickEnd(r: Range, increment: nat): int {
    Min(r.lo + increment, r.hi)
  }

  /** The range after one tick. */
  function Tick(r: Range, increment: nat): Range {
    if r.lo < r.hi then
      var to := TickEnd(r, increment);
      if to == r.hi then SENTINEL else Range(to, r.hi)
    else r
  }

  /** The range after `n` ticks without further requests. */
  function Ticks(r: Range, increment: nat, n: nat): Range
    decreases n
  {
    if n == 0 then r else Ticks(Tick(r, increment), increment, n - 1)
  }

  /** How often line `l` is handed to the colouring in `n` ticks. */
  function TimesColoured(r: Range, increment: nat, n: nat, l: int): nat
    decreases n
  {
    if n == 0 then 0
    else (if r.lo < r.hi && r.lo <= l < TickEnd(r, increment) then 1 else 0)
         + TimesColoured(Tick(r, increment), increment, n - 1, l)
  }

  /** The number of ticks the range needs. */
  function TicksNeeded(r: Range, increment: nat): nat
    requires increment > 0
    decreases r.hi - r.lo
  {
    if r.lo < r.hi then 1 + TicksNeeded(Range(r.lo + increment, r.hi), increment) else 0
  }

  lemma {:induction false} NothingColoured(r: Range, increment: nat, n: nat, l: int)
    requires r.lo >= r.hi
    ensures TimesColoured(r, increment, n, l) == 0 && Ticks(r, increment, n) == r
  {
    if n > 0 {
      NothingColoured(r, increment, n - 1, l);
    }
  }

  /** Ticks hand every pending line, and no other, to the colouring exactly once; the range reaches
      the sentinel after the needed number of ticks and not before. */
  lemma {:induction false} EveryPendingLineOnce(r: Range, increment: nat, n: nat, l: int)
    requires increment > 0 && 0 <= r.lo < r.hi && r != SENTINEL
    ensures n >= TicksNeeded(r, increment) ==>
              && TimesColoured(r, increment, n, l) == (if Pending(r, l) then 1 else 0)
              && Ticks(r, increment, n) == SENTINEL
    ensures n < TicksNeeded(r, increment) ==>
              Ticks(r, increment, n) == Range(r.lo + n * increment, r.hi) && r.lo + n * increment < r.hi
    decreases n
  {
    if n > 0 {
      var t := Tick(r, increment);
      if r.lo + increment < r.hi {
        EveryPendingLineOnce(t, increment, n - 1, l);
        assert r.lo + increment + (n - 1) * increment == r.lo + n * increment;
      } else {
        NothingColoured(t, increment, n - 1, l);
        assert TicksNeeded(Range(r.lo + increment, r.hi), increment) == 0;
      }
    }
  }

  /** The needed number of ticks is the number of lines divided by the increment, rounded up. */
  lemma {:induction false} TicksNeededRoundsUp(r: Range, increment: nat)
    requires increment > 0 && r.lo < r.hi
    ensures var n := TicksNeeded(r, increment);
            (n - 1) * increment < r.hi - r.lo <= n * increment
    decreases r.hi - r.lo
  {
    var rest := Range(r.lo + increment, r.hi);
    var n := TicksNeeded(rest, increment);
    if rest.lo < rest.hi {
      TicksNeededRoundsUp(rest, increment);
    }
    assert (n + 1) * increment == n * increment + increment == (n - 1) * increment + 2 * increment;
  }
}
