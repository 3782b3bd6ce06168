/** The comment pass: which characters lie in comments and preprocessor lines. */
module Comments {
  import opened Utf8
  import opened Documents
  import opened Glyphs
  import opened Words
  import opened Tokenizers

  const HASH: byte := 35
  const STAR: byte := 42
  const SLASH: byte := 47

  /** The state of the reference scanner before a byte: within a comment, within a string, within a
      single-line comment, within a preprocessor line, nothing but blanks so far in the line, and a
      backslash at the end of the line before. The next `left` bytes belong to the character looked at
      last; `pair` says that the next byte is taken together with the one before it. */
  datatype Scan = Scan(inComment: bool, inString: bool, singleLine: bool, preproc: bool, firstChar: bool,
                       concatenate: bool, left: nat, pair: bool)

  const INITIAL := Scan(false, false, false, false, true, false, 0, false)

  /** The scanner looks at the next byte, rather than passing over it. */
  predicate Looks(st: Scan) {
    st.left == 0 && !st.pair
  }

  predicate Two(s: seq<byte>, i: nat, a: byte, b: byte) {
    i + 2 <= |s| && s[i] == a && s[i + 1] == b
  }

  /** In a string, a backslash and a doubled quotation mark take the next byte along. */
  predicate Pairs(s: seq<byte>, i: nat)
    requires i < |s|
  {
    s[i] == BACKSLASH || Two(s, i, QUOTE, QUOTE)
  }

  /** A comment starts here, unless a single-line comment hides it. */
  predicate Opens(s: seq<byte>, i: nat, st: Scan) {
    !st.singleLine && Two(s, i, SLASH, STAR)
  }

  /** A comment ends with this character, also inside a single-line comment. */
  predicate Closes(s: seq<byte>, i: nat) {
    0 < i < |s| && s[i - 1] == STAR && s[i] == SLASH
  }

  /** The state at the start of a line; strings go on. */
  function NewLine(st: Scan): Scan {
    if st.concatenate then st.(concatenate := false, left := 0, pair := false)
    else Scan(st.inComment, st.inString, false, false, true, false, 0, false)
  }

  predicate FirstNow(s: seq<byte>, i: nat, st: Scan)
    requires i < |s|
  {
    st.firstChar && (s[i] == HASH || IsSpace(s[i]))
  }

  predicate EndsInBackslash(s: seq<byte>, i: nat)
    requires i < |s|
  {
    i == |s| - 1 && s[i] == BACKSLASH
  }

  predicate CommentNow(s: seq<byte>, i: nat, st: Scan) {
    st.inComment || Opens(s, i, st)
  }

  predicate SingleNow(s: seq<byte>, i: nat, st: Scan) {
    st.singleLine || Two(s, i, SLASH, SLASH)
  }

  predicate DirectiveNow(s: seq<byte>, i: nat, st: Scan)
    requires i < |s|
  {
    st.preproc || (FirstNow(s, i, st) && s[i] == HASH)
  }

  /** The state after looking at the byte at `i`. */
  function Look(s: seq<byte>, i: nat, st: Scan): Scan
    requires i < |s|
  {
    var first, last, left := FirstNow(s, i, st), EndsInBackslash(s, i), UTF8CharLength(s[i]) - 1;
    if st.inString then
      st.(inString := Pairs(s, i) || s[i] != QUOTE, firstChar := first, concatenate := last,
          left := left, pair := Pairs(s, i))
    else if s[i] == QUOTE then
      st.(inString := true, firstChar := first, concatenate := last, left := left)
    else
      Scan(CommentNow(s, i, st) && !Closes(s, i), false, SingleNow(s, i, st), DirectiveNow(s, i, st),
           first, last, left, false)
  }

  /** The state after the byte at `i`. */
  function Visit(s: seq<byte>, i: nat, st: Scan): Scan
    requires i < |s|
  {
    if st.left > 0 then st.(left := st.left - 1)
    else if st.pair then st.(pair := false)
    else Look(s, i, st)
  }

  /** The state before index `i` of a line that starts in state `st`. */
  function ScanTo(s: seq<byte>, i: nat, st: Scan): Scan
    requires i <= |s|
    decreases i
  {
    if i == 0 then st else Visit(s, i - 1, ScanTo(s, i - 1, st))
  }

  /** The state at the end of the first `l` lines. */
  function LinesEnd(d: Document, l: nat): Scan
    requires l <= |d|
  {
    if l == 0 then INITIAL
    else ScanTo(d[l - 1], |d[l - 1]|, NewLine(LinesEnd(d, l - 1)))
  }

  /** The state before the first byte of line `l`. */
  function LineStart(d: Document, l: nat): Scan
    requires l < |d|
  {
    NewLine(LinesEnd(d, l))
  }

  function StateAt(d: Document, l: nat, i: nat): Scan
    requires l < |d| && i <= |d[l]|
  {
    ScanTo(d[l], i, LineStart(d, l))
  }

  /** The glyph at `i` with its flags: outside strings all three; in a string the single-line flag stays
      as it was, and of two bytes taken together the first keeps its preprocessor flag, too. */
  function Paint(g: Glyph, s: seq<byte>, i: nat, st: Scan): (r: Glyph)
    requires i < |s|
    ensures r.ch == g.ch && r.color == g.color
  {
    if st.left > 0 then g
    else if st.pair then g.(multiLineComment := st.inComment, preprocessor := st.preproc)
    else if st.inString && Pairs(s, i) then g.(multiLineComment := st.inComment)
    else if st.inString || s[i] == QUOTE then g.(multiLineComment := st.inComment, preprocessor := st.preproc)
    else
      g.(comment := SingleNow(s, i, st), multiLineComment := CommentNow(s, i, st),
         preprocessor := DirectiveNow(s, i, st))
  }

  /** Line `l` with the flags of the reference scanner. */
  function FlaggedLine(d: Document, l: nat, line: Line): (r: Line)
    requires l < |d| && d[l] == Chars(line)
    ensures |r| == |line|
    ensures forall i {:trigger r[i]} :: 0 <= i < |line| ==> r[i] == Paint(line[i], d[l], i, StateAt(d, l, i))
  {
    seq(|line|, i requires 0 <= i < |line| => Paint(line[i], d[l], i, StateAt(d, l, i)))
  }

  function Flagged(lines: seq<Line>): (r: seq<Line>)
    ensures |r| == |lines|
    ensures forall l {:trigger r[l]} :: 0 <= l < |lines| ==> r[l] == FlaggedLine(Doc(lines), l, lines[l])
  {
    var d := Doc(lines);
    seq(|lines|, l requires 0 <= l < |lines| => FlaggedLine(d, l, lines[l]))
  }

  lemma FlaggedGood(lines: seq<Line>)
    requires GoodLines(lines)
    ensures GoodLines(Flagged(lines)) && Doc(Flagged(lines)) == Doc(lines)
  {
    hide Paint, StateAt;
    var r := Flagged(lines);
    forall l | 0 <= l < |lines|
      ensures GoodLine(r[l]) && Chars(r[l]) == Chars(lines[l])
    {
      assert GoodLine(lines[l]);
      assert forall i :: 0 <= i < |r[l]| ==> r[l][i].ch == lines[l][i].ch && r[l][i].color == lines[l][i].color;
      assert Chars(r[l]) == Chars(lines[l]);
      forall i | 0 < i < |r[l]| && IsUTFSequence(r[l][i].ch)
        ensures r[l][i].color == r[l][i - 1].color
      {
        assert IsUTFSequence(lines[l][i].ch);
      }
    }
  }

  // ---------- The pass of the editor ----------

  /** In a string the pass takes the byte behind a backslash along without asking whether the line goes
      on. */
  predicate Overruns(d: Document, l: nat) {
    && l < |d|
    && d[l] != []
    && var i := |d[l]| - 1;
       Looks(StateAt(d, l, i)) && StateAt(d, l, i).inString && d[l][i] == BACKSLASH
  }

  predicate NeverOverruns(d: Document) {
    forall l :: 0 <= l < |d| ==> !Overruns(d, l)
  }

  /** Position (m, j) precedes position (l, i). */
  predicate BeforePos(m: nat, j: nat, l: nat, i: nat) {
    m < l || (m == l && j < i)
  }

  /** The editor keeps the place where a comment started, and the end of the document, (n, 0), for none:
      before index `i` of line `l` this stands for the Boolean of the scanner. */
  predicate Stands(n: nat, commentLine: nat, commentIndex: nat, l: nat, i: nat, st: Scan) {
    if st.inComment then BeforePos(commentLine, commentIndex, l, i)
    else commentLine == n && commentIndex == 0
  }

  /** The lines have their final flags before index `i` of line `l`, and the old ones from there on. */
  ghost predicate FlaggedUpTo(before: seq<Line>, lines: seq<Line>, l: nat, i: nat) {
    && |lines| == |before| && l <= |before| && (if l < |before| then i <= |before[l]| else i == 0)
    && (forall m {:trigger lines[m]} :: 0 <= m < l ==> lines[m] == Flagged(before)[m])
    && (forall m {:trigger lines[m]} :: l < m < |before| ==> lines[m] == before[m])
    && (l < |before| ==> lines[l] == Flagged(before)[l][..i] + before[l][i..])
  }

  /** One glyph gets its flags. */
  lemma FlagStep(before: seq<Line>, lines: seq<Line>, q: seq<Line>, l: nat, i: nat)
    requires FlaggedUpTo(before, lines, l, i) && l < |before| && i < |before[l]|
    requires |lines[l]| == |before[l]|
    requires q == lines[l := lines[l][i := Paint(before[l][i], Chars(before[l]), i, StateAt(Doc(before), l, i))]]
    ensures FlaggedUpTo(before, q, l, i + 1)
  {
    hide StateAt, Paint;
    assert q[l] == Flagged(before)[l][..i + 1] + before[l][i + 1..];
  }

  /** Passing over the rest of a character. */
  lemma {:induction false} PassOver(before: seq<Line>, lines: seq<Line>, l: nat, i: nat, n: nat)
    requires FlaggedUpTo(before, lines, l, i) && l < |before| && i <= n <= |before[l]|
    requires StateAt(Doc(before), l, i).left == n - i
    ensures FlaggedUpTo(before, lines, l, n)
    ensures StateAt(Doc(before), l, n) == StateAt(Doc(before), l, i).(left := 0)
    decreases n - i
  {
    if i < n {
      assert Flagged(before)[l][i] == before[l][i];
      assert lines[l] == Flagged(before)[l][..i + 1] + before[l][i + 1..];
      PassOver(before, lines, l, i + 1, n);
    }
  }

  lemma NextLineFlagged(before: seq<Line>, q: seq<Line>, l: nat, n: nat)
    requires FlaggedUpTo(before, q, l, n) && l < |before| && n == |before[l]|
    ensures FlaggedUpTo(before, q, l + 1, 0)
  {
    assert q[l] == Flagged(before)[l];
    assert l + 1 < |before| ==> Flagged(before)[l + 1][..0] + before[l + 1][0..] == before[l + 1];
  }

  /** The state that the variables of the pass hold at index `i` of line `l`: at the start of a line
      they still hold what the line before left. */
  function PassState(d: Document, l: nat, i: nat): Scan
    requires l <= |d| && (i > 0 ==> l < |d| && i <= |d[l]|)
  {
    if i == 0 then LinesEnd(d, l) else StateAt(d, l, i)
  }

  lemma StateThere(d: Document, l: nat, i: nat)
    requires l < |d| && 0 < i <= |d[l]|
    ensures PassState(d, l, i) == StateAt(d, l, i)
  {
  }

  /** No character reaches over the line end. */
  lemma CharacterFits(s: seq<byte>, i: nat)
    requires Framed(s) && i < |s|
    ensures i + UTF8CharLength(s[i]) <= |s|
  {
    if !IsUTFSequence(s[i]) {
      NextBoundary(s, i);
    }
  }

  lemma FlaggedKeepsText(before: seq<Line>, lines: seq<Line>, l: nat, i: nat)
    requires FlaggedUpTo(before, lines, l, i)
    ensures Doc(lines) == Doc(before)
    ensures l < |before| && i < |before[l]| ==> |lines[l]| == |before[l]| && lines[l][i..] == before[l][i..]
  {
    hide StateAt, Paint;
    forall m | 0 <= m < |lines|
      ensures Chars(lines[m]) == Chars(before[m])
    {
      assert m != l ==> lines[m] == Flagged(before)[m] || lines[m] == before[m];
    }
  }

  /** The reset at the start of a line. */
  lemma Entered(d: Document, l: nat, i: nat)
    requires l < |d| && i <= |d[l]|
    ensures var st, now := PassState(d, l, i), StateAt(d, l, i);
            && now.inComment == st.inComment && now.inString == st.inString
            && (if i == 0 && !st.concatenate then !now.singleLine && !now.preproc && now.firstChar
                else now.singleLine == st.singleLine && now.preproc == st.preproc && now.firstChar == st.firstChar)
            && (i == 0 ==> Looks(now) && !now.concatenate)
    ensures i == |d[l]| ==> PassState(d, l + 1, 0) == StateAt(d, l, i)
  {
  }

  /** The index behind what the pass takes at index `i`. */
  function Behind(s: seq<byte>, i: nat, st: Scan): nat
    requires i < |s|
  {
    if st.inString && Pairs(s, i) then i + 2 else i + UTF8CharLength(s[i])
  }

  /** What the pass does to line `l` at index `i`: it flags one glyph, or two taken together. */
  function Painted(line: Line, s: seq<byte>, i: nat, st: Scan): (r: Line)
    requires |line| == |s| && i < |s| && Looks(st) && Behind(s, i, st) <= |s|
    ensures |r| == |line|
  {
    var r := line[i := Paint(line[i], s, i, st)];
    if st.inString && Pairs(s, i) then r[i + 1 := Paint(line[i + 1], s, i + 1, Visit(s, i, st))] else r
  }

  /** The state behind it. */
  function Seen(s: seq<byte>, i: nat, st: Scan): Scan
    requires i < |s|
  {
    Look(s, i, st).(left := 0, pair := false)
  }

  /** In a string the pass writes one flag first and the other one behind. */
  lemma PaintedInString(line: Line, i: nat, st: Scan)
    requires i < |line| && Looks(st) && st.inString && Behind(Chars(line), i, st) <= |line|
    ensures var s := Chars(line);
            var one := line[i := line[i].(multiLineComment := st.inComment)];
            var index := if Pairs(s, i) then i + 1 else i;
            var two := if index == i then one else one[index := one[index].(multiLineComment := st.inComment)];
            Painted(line, s, i, st) == two[index := two[index].(preprocessor := st.preproc)]
  {
    var s := Chars(line);
    var one := line[i := line[i].(multiLineComment := st.inComment)];
    if Pairs(s, i) {
      assert one[i + 1] == line[i + 1];
    } else {
      assert one[i := one[i].(preprocessor := st.preproc)] == line[i := one[i].(preprocessor := st.preproc)];
    }
  }

  /** Outside strings, too. */
  lemma PaintedOutside(line: Line, i: nat, st: Scan, one: Line)
    requires i < |line| && Looks(st) && !st.inString && Behind(Chars(line), i, st) <= |line|
    requires var s := Chars(line);
             one == if line[i].ch == QUOTE then line[i := line[i].(multiLineComment := st.inComment)]
                    else line[i := line[i].(comment := SingleNow(s, i, st), multiLineComment := CommentNow(s, i, st))]
    ensures var s := Chars(line);
            Painted(line, s, i, st) == one[i := one[i].(preprocessor := DirectiveNow(s, i, st))]
  {
    var s := Chars(line);
    var directive := DirectiveNow(s, i, st);
    assert one[i := one[i].(preprocessor := directive)] == line[i := one[i].(preprocessor := directive)];
  }

  lemma SeenAfter(s: seq<byte>, i: nat, st: Scan)
    requires i < |s|
    ensures var seen, plain := Seen(s, i, st), !st.inString && s[i] != QUOTE;
            && seen.inComment == (if plain then CommentNow(s, i, st) && !Closes(s, i) else st.inComment)
            && seen.inString == (if st.inString then Pairs(s, i) || s[i] != QUOTE else s[i] == QUOTE)
            && seen.singleLine == (if plain then SingleNow(s, i, st) else st.singleLine)
            && seen.preproc == (if st.inString then st.preproc else DirectiveNow(s, i, st))
            && seen.firstChar == FirstNow(s, i, st)
            && seen.concatenate == EndsInBackslash(s, i)
  {
  }

  lemma TakenFits(d: Document, l: nat, i: nat)
    requires CleanDocument(d) && NeverOverruns(d) && l < |d| && i < |d[l]| && Looks(StateAt(d, l, i))
    ensures Behind(d[l], i, StateAt(d, l, i)) <= |d[l]|
  {
    hide StateAt, Framed;
    CharacterFits(d[l], i);
    assert !Overruns(d, l);
  }

  /** The pass stays within all lines if and only if no step of it leads behind the end of its line. */
  lemma StaysInside(d: Document)
    requires CleanDocument(d)
    ensures NeverOverruns(d) <==>
            forall l, i {:trigger StateAt(d, l, i)} ::
              0 <= l < |d| && 0 <= i < |d[l]| && Looks(StateAt(d, l, i)) ==> Behind(d[l], i, StateAt(d, l, i)) <= |d[l]|
  {
    hide StateAt, Framed;
    if NeverOverruns(d) {
      forall l, i | 0 <= l < |d| && 0 <= i < |d[l]| && Looks(StateAt(d, l, i))
        ensures Behind(d[l], i, StateAt(d, l, i)) <= |d[l]|
      {
        TakenFits(d, l, i);
      }
    } else {
      var l :| 0 <= l < |d| && Overruns(d, l);
      assert Behind(d[l], |d[l]| - 1, StateAt(d, l, |d[l]| - 1)) == |d[l]| + 1;
    }
  }

  /** Two bytes taken together. */
  lemma PassPair(before: seq<Line>, lines: seq<Line>, l: nat, i: nat)
    requires FlaggedUpTo(before, lines, l, i) && l < |before| && i + 2 <= |before[l]|
    requires |lines| == |before| && |lines[l]| == |before[l]| && lines[l][i..] == before[l][i..]
    requires var st := StateAt(Doc(before), l, i);
             Looks(st) && st.inString && Pairs(Chars(before[l]), i)
    ensures var s, st := Chars(before[l]), StateAt(Doc(before), l, i);
            && FlaggedUpTo(before, lines[l := Painted(lines[l], s, i, st)], l, i + 2)
            && StateAt(Doc(before), l, i + 2) == Seen(s, i, st)
  {
    hide Flagged, Paint, FlaggedUpTo, FirstNow;
    var d, s := Doc(before), Chars(before[l]);
    var st := StateAt(d, l, i);
    assert lines[l][i] == lines[l][i..][0] == before[l][i] && lines[l][i + 1] == lines[l][i..][1] == before[l][i + 1];
    var one := lines[l := lines[l][i := Paint(before[l][i], s, i, st)]];
    FlagStep(before, lines, one, l, i);
    assert StateAt(d, l, i + 1) == Visit(s, i, st);
    var two := one[l := one[l][i + 1 := Paint(before[l][i + 1], s, i + 1, StateAt(d, l, i + 1))]];
    FlagStep(before, one, two, l, i + 1);
    assert two == lines[l := Painted(lines[l], s, i, st)];
  }

  /** One character. */
  lemma PassOne(before: seq<Line>, lines: seq<Line>, l: nat, i: nat)
    requires FlaggedUpTo(before, lines, l, i) && l < |before| && i < |before[l]|
    requires |lines| == |before| && |lines[l]| == |before[l]| && lines[l][i..] == before[l][i..]
    requires i + UTF8CharLength(before[l][i].ch) <= |before[l]|
    requires var st := StateAt(Doc(before), l, i);
             Looks(st) && !(st.inString && Pairs(Chars(before[l]), i))
    ensures var s, st := Chars(before[l]), StateAt(Doc(before), l, i);
            && FlaggedUpTo(before, lines[l := Painted(lines[l], s, i, st)], l, Behind(s, i, st))
            && StateAt(Doc(before), l, Behind(s, i, st)) == Seen(s, i, st)
  {
    hide Flagged, Paint, FlaggedUpTo, FirstNow;
    var d, s := Doc(before), Chars(before[l]);
    var st := StateAt(d, l, i);
    assert lines[l][i] == lines[l][i..][0] == before[l][i];
    var one := lines[l := lines[l][i := Paint(before[l][i], s, i, st)]];
    FlagStep(before, lines, one, l, i);
    assert StateAt(d, l, i + 1) == Visit(s, i, st);
    PassOver(before, one, l, i + 1, i + UTF8CharLength(s[i]));
  }

  /** What one step of the pass does. */
  lemma PassCharacter(before: seq<Line>, lines: seq<Line>, l: nat, i: nat)
    requires GoodLines(before) && NeverOverruns(Doc(before)) && FlaggedUpTo(before, lines, l, i)
    requires l < |before| && i < |before[l]| && Looks(StateAt(Doc(before), l, i))
    ensures |lines[l]| == |before[l]| && Chars(lines[l]) == Chars(before[l])
    ensures var d, s := Doc(before), Chars(before[l]);
            var st := StateAt(d, l, i);
            var n := Behind(s, i, st);
            && i < n <= |s|
            && FlaggedUpTo(before, lines[l := Painted(lines[l], s, i, st)], l, n)
            && PassState(d, l, n) == Seen(s, i, st) && Looks(PassState(d, l, n))
            && (n == |s| ==> FlaggedUpTo(before, lines[l := Painted(lines[l], s, i, st)], l + 1, 0)
                             && PassState(d, l + 1, 0) == PassState(d, l, n))
  {
    hide Framed, StateAt, Look, Visit, Painted, FlaggedUpTo;
    var d, s := Doc(before), Chars(before[l]);
    GoodIsClean(before);
    FlaggedKeepsText(before, lines, l, i);
    assert Doc(lines)[l] == Doc(before)[l];
    TakenFits(d, l, i);
    if StateAt(d, l, i).inString && Pairs(s, i) {
      PassPair(before, lines, l, i);
    } else {
      PassOne(before, lines, l, i);
    }
    var n := Behind(s, i, StateAt(d, l, i));
    if n == |s| {
      NextLineFlagged(before, lines[l := Painted(lines[l], s, i, StateAt(d, l, i))], l, n);
      Entered(d, l, n);
    }
  }

  /** An empty line passes on the state. */
  lemma PassEmptyLine(before: seq<Line>, lines: seq<Line>, l: nat)
    requires FlaggedUpTo(before, lines, l, 0) && l < |before| && before[l] == []
    ensures FlaggedUpTo(before, lines, l + 1, 0)
    ensures PassState(Doc(before), l + 1, 0) == StateAt(Doc(before), l, 0)
  {
    NextLineFlagged(before, lines, l, 0);
  }

  lemma PassBegins(before: seq<Line>)
    requires GoodLines(before)
    ensures FlaggedUpTo(before, before, 0, 0) && PassState(Doc(before), 0, 0) == INITIAL
  {
    assert Flagged(before)[0][..0] + before[0][0..] == before[0];
  }

  lemma PassEnds(before: seq<Line>, lines: seq<Line>)
    requires GoodLines(before) && FlaggedUpTo(before, lines, |before|, 0)
    ensures lines == Flagged(before) && GoodLines(lines) && Doc(lines) == Doc(before)
  {
    FlaggedGood(before);
  }
}
