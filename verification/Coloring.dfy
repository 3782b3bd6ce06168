/** Colouring a line: the tokens of a line, and the colours they give to its characters. */
module Coloring {
  import opened Utf8
  import opened Glyphs
  import opened Tokenizers
  import opened ColorRange
  import opened Buffer
  import opened Editing

  /** The word lists of a language that is tokenized by a callback. */
  datatype Language = Language(
    keywords: set<seq<byte>>, identifiers: set<seq<byte>>, preprocIdentifiers: set<seq<byte>>)

  /** The colour of an identifier; in a preprocessor line only preprocessor identifiers stand out. */
  function IdentifierColor(lang: Language, id: seq<byte>, preprocessor: bool): PaletteIndex {
    if !preprocessor && id in lang.keywords then Keyword
    else if !preprocessor && id in lang.identifiers then KnownIdentifier
    else if id in lang.preprocIdentifiers then PreprocIdentifier
    else Identifier
  }

  function TokenColor(lang: Language, s: seq<byte>, t: Token, preprocessor: bool): PaletteIndex
    requires t.begin <= t.end <= |s|
  {
    if t.color == Identifier then IdentifierColor(lang, s[t.begin..t.end], preprocessor) else t.color
  }

  /** The preprocessor flags of a line. */
  function Directives(line: Line): (r: seq<bool>)
    ensures |r| == |line|
    ensures forall i {:trigger r[i]} :: 0 <= i < |line| ==> r[i] == line[i].preprocessor
  {
    seq(|line|, i requires 0 <= i < |line| => line[i].preprocessor)
  }

  /** The tokens from index `i` on; where no token starts, one byte is skipped. */
  function Tokens(lang: Language, s: seq<byte>, pre: seq<bool>, i: nat): (ts: seq<Token>)
    requires |pre| == |s|
    decreases |s| - i
  {
    if i >= |s| then []
    else
      var t := Tokenize(s, i);
      if t.None? then Tokens(lang, s, pre, i + 1)
      else
        [Token(t.value.begin, t.value.end, TokenColor(lang, s, t.value, pre[i]))]
        + Tokens(lang, s, pre, t.value.end)
  }

  predicate Covers(t: Token, k: nat) {
    t.begin <= k < t.end
  }

  /** Tokens in order, without overlap, inside the line from `i` on. */
  predicate Ordered(ts: seq<Token>, i: nat, n: nat) {
    && (forall a {:trigger ts[a]} :: 0 <= a < |ts| ==> i <= ts[a].begin <= ts[a].end <= n)
    && forall a, b {:trigger ts[a], ts[b]} :: 0 <= a < b < |ts| ==> ts[a].end <= ts[b].begin
  }

  lemma {:induction false} TokensOrdered(lang: Language, s: seq<byte>, pre: seq<bool>, i: nat)
    requires |pre| == |s|
    ensures Ordered(Tokens(lang, s, pre, i), i, |s|)
    decreases |s| - i
  {
    hide Tokenize;
    if i < |s| {
      var t := Tokenize(s, i);
      TokensOrdered(lang, s, pre, if t.None? then i + 1 else t.value.end);
    }
  }

  /** Every token is one that the tokenizer finds where it begins; words get the colour of their list. */
  lemma {:induction false} TokensFound(lang: Language, s: seq<byte>, pre: seq<bool>, i: nat, a: nat)
    requires |pre| == |s|
    ensures var ts := Tokens(lang, s, pre, i);
            a < |ts| && ts[a].begin < |s| ==>
              var u := TokenAt(s, ts[a].begin);
              && u.Some? && u.value.end == ts[a].end
              && (u.value.color != Identifier ==> ts[a].color == u.value.color)
    decreases |s| - i
  {
    hide TokenAt, IdentifierColor;
    if i < |s| {
      var t := Tokenize(s, i);
      if t.None? {
        TokensFound(lang, s, pre, i + 1, a);
      } else if a > 0 {
        TokensFound(lang, s, pre, t.value.end, a - 1);
      }
    }
  }

  predicate Uncovered(ts: seq<Token>, k: nat) {
    forall a {:trigger ts[a]} :: 0 <= a < |ts| ==> !Covers(ts[a], k)
  }

  lemma UncoveredParts(t: Token, ts: seq<Token>, k: nat)
    requires Uncovered([t] + ts, k)
    ensures !Covers(t, k) && Uncovered(ts, k)
  {
    assert ([t] + ts)[0] == t;
    assert forall a {:trigger ts[a]} :: 0 <= a < |ts| ==> ts[a] == ([t] + ts)[a + 1];
  }

  /** And none is missed: where no token covers a byte that is no space and no tab, the tokenizer finds none. */
  lemma {:induction false} NoTokenMissed(lang: Language, s: seq<byte>, pre: seq<bool>, i: nat, k: nat)
    requires |pre| == |s| && i <= k < |s| && s[k] != ' ' as int && s[k] != '\t' as int
    requires Uncovered(Tokens(lang, s, pre, i), k)
    ensures TokenAt(s, k).None?
    decreases |s| - i
  {
    hide TokenAt, TokenColor, Span, Uncovered;
    var ts, t := Tokens(lang, s, pre, i), Tokenize(s, i);
    if t.Some? {
      UncoveredParts(ts[0], Tokens(lang, s, pre, t.value.end), k);
      NoTokenMissed(lang, s, pre, t.value.end, k);
    } else if i < k {
      NoTokenMissed(lang, s, pre, i + 1, k);
    }
  }

  /** The colour at index `k`: that of the covering token. */
  function ColorOf(ts: seq<Token>, k: nat): PaletteIndex {
    if ts == [] then Default
    else if Covers(ts[0], k) then ts[0].color
    else ColorOf(ts[1..], k)
  }

  /** At most one token covers an index; its colour is the colour there, which is Default if there
      is none. */
  lemma {:induction false} OneTokenCovers(ts: seq<Token>, i: nat, n: nat, k: nat)
    requires Ordered(ts, i, n)
    ensures forall a, b :: 0 <= a < |ts| && 0 <= b < |ts| && Covers(ts[a], k) && Covers(ts[b], k) ==> a == b
    ensures forall a :: 0 <= a < |ts| && Covers(ts[a], k) ==> ColorOf(ts, k) == ts[a].color
    ensures (forall a :: 0 <= a < |ts| ==> !Covers(ts[a], k)) ==> ColorOf(ts, k) == Default
  {
    if ts != [] {
      OneTokenCovers(ts[1..], i, n, k);
      assert forall a :: 0 < a < |ts| ==> ts[a] == ts[1..][a - 1];
    }
  }

  lemma ColorBefore(ts: seq<Token>, i: nat, n: nat, k: nat)
    requires Ordered(ts, i, n) && k < i
    ensures ColorOf(ts, k) == Default
  {
    OneTokenCovers(ts, i, n, k);
  }

  /** The line with the colours of its tokens; characters and flags stay. */
  function Painted(line: Line, ts: seq<Token>): (r: Line)
    ensures |r| == |line|
    ensures forall k {:trigger r[k]} :: 0 <= k < |line| ==> r[k] == line[k].(color := ColorOf(ts, k))
  {
    seq(|line|, k requires 0 <= k < |line| => line[k].(color := ColorOf(ts, k)))
  }

  /** What ColorizeRange makes of a line. */
  function Colored(lang: Language, line: Line): Line {
    Painted(line, Tokens(lang, Chars(line), Directives(line), 0))
  }

  // ---------- Tokens never cut a character ----------

  lemma AsciiEnds(s: seq<byte>, e: nat)
    requires Framed(s) && 0 < e <= |s| && s[e - 1] < 0x80
    ensures Boundary(s, e - 1) && Boundary(s, e)
  {
    NextBoundaryAscii(s, e - 1);
  }

  lemma ClassAscii(k: Class, s: seq<byte>, i: nat, e: nat)
    requires All(k, s, i, e) && i < e
    ensures s[e - 1] < 0x80
  {
    assert Is(k, s[e - 1]);
  }

  lemma SpanAscii(k: Class, s: seq<byte>, i: nat)
    requires i <= |s| && (i > 0 ==> s[i - 1] < 0x80)
    ensures var e := Span(k, s, i);
            e > 0 ==> s[e - 1] < 0x80
  {
    if Span(k, s, i) > i {
      ClassAscii(k, s, i, Span(k, s, i));
    }
  }

  lemma ExponentAscii(s: seq<byte>, p: nat)
    requires 0 < p <= |s| && s[p - 1] < 0x80 && ExponentEnd(s, p).Some?
    ensures s[ExponentEnd(s, p).value - 1] < 0x80
  {
    hide Span;
    if IsAt(ExponentMarker, s, p) {
      SpanAscii(Digit, s, if IsAt(Sign, s, p + 1) then p + 2 else p + 1);
    }
  }

  lemma TailAscii(s: seq<byte>, m: nat)
    requires 0 < m <= |s| && s[m - 1] < 0x80 && TailEnd(s, m).Some?
    ensures s[TailEnd(s, m).value - 1] < 0x80
  {
    hide Span, ExponentEnd;
    if m < |s| && s[m] == DOT {
      SpanAscii(Digit, s, m + 1);
      ExponentAscii(s, Span(Digit, s, m + 1));
    } else if IsAt(HexMarker, s, m) {
      SpanAscii(HexDigit, s, m + 1);
      SpanAscii(SizeSuffix, s, Span(HexDigit, s, m + 1));
    } else if IsAt(BinaryMarker, s, m) {
      SpanAscii(BinaryDigit, s, m + 1);
      SpanAscii(SizeSuffix, s, Span(BinaryDigit, s, m + 1));
    } else {
      ExponentAscii(s, m);
      SpanAscii(SizeSuffix, s, EndOfF(s, m));
    }
  }

  lemma NumberAscii(s: seq<byte>, i: nat)
    requires i < |s| && NumberEnd(s, i).Some?
    ensures s[i] < 0x80 && s[NumberEnd(s, i).value - 1] < 0x80
  {
    hide Span, TailEnd;
    SpanAscii(Digit, s, i + 1);
    TailAscii(s, Span(Digit, s, i + 1));
  }

  /** A token starts and ends with an ASCII character. */
  lemma TokenAscii(s: seq<byte>, b: nat)
    requires b < |s| && TokenAt(s, b).Some?
    ensures s[b] < 0x80 && s[TokenAt(s, b).value.end - 1] < 0x80
  {
    hide Span, NumberEnd, All;
    if NumberEnd(s, b).Some? {
      NumberAscii(s, b);
    }
    if IdentifierEnd(s, b).Some? {
      ClassAscii(IdentifierChar, s, b, IdentifierEnd(s, b).value);
    }
  }

  lemma TokenBoundaries(s: seq<byte>, i: nat)
    requires Framed(s) && i <= |s| && Tokenize(s, i).Some?
    ensures var t := Tokenize(s, i).value;
            Boundary(s, t.begin) && Boundary(s, t.end)
  {
    hide Span, TokenAt, Framed;
    var b := Span(Blank, s, i);
    if b < |s| {
      TokenAscii(s, b);
      AsciiEnds(s, TokenAt(s, b).value.end);
    }
  }

  lemma {:induction false} TokensBoundaries(lang: Language, s: seq<byte>, pre: seq<bool>, i: nat)
    requires Framed(s) && |pre| == |s|
    ensures forall t :: t in Tokens(lang, s, pre, i) ==> Boundary(s, t.begin) && Boundary(s, t.end)
    decreases |s| - i
  {
    hide Tokenize, Framed;
    if i < |s| {
      var t := Tokenize(s, i);
      if t.Some? {
        TokenBoundaries(s, i);
      }
      TokensBoundaries(lang, s, pre, if t.None? then i + 1 else t.value.end);
    }
  }

  lemma {:induction false} ColorWithinCharacter(s: seq<byte>, ts: seq<Token>, k: nat)
    requires 0 < k < |s| && IsUTFSequence(s[k])
    requires forall t :: t in ts ==> Boundary(s, t.begin) && Boundary(s, t.end)
    ensures ColorOf(ts, k) == ColorOf(ts, k - 1)
  {
    if ts != [] {
      ColorWithinCharacter(s, ts[1..], k);
      assert Boundary(s, ts[0].begin) && Boundary(s, ts[0].end);
    }
  }

  /** Colouring changes no character and never splits one between two colours. */
  lemma ColoredGood(lang: Language, line: Line)
    requires GoodLine(line)
    ensures GoodLine(Colored(lang, line)) && Chars(Colored(lang, line)) == Chars(line)
  {
    hide Framed;
    var s, ts, r := Chars(line), Tokens(lang, Chars(line), Directives(line), 0), Colored(lang, line);
    assert Chars(r) == s;
    TokensBoundaries(lang, s, Directives(line), 0);
    forall k | 0 < k < |r| && IsUTFSequence(r[k].ch)
      ensures r[k].color == r[k - 1].color
    {
      assert s[k] == r[k].ch;
      ColorWithinCharacter(s, ts, k);
    }
  }

  /** The colour of every glyph of a coloured line, without reference to the order of the scan. */
  lemma GlyphColor(lang: Language, line: Line, k: nat)
    requires k < |line|
    ensures var ts := Tokens(lang, Chars(line), Directives(line), 0);
            && (forall a :: 0 <= a < |ts| && Covers(ts[a], k) ==> Colored(lang, line)[k].color == ts[a].color)
            && ((forall a :: 0 <= a < |ts| ==> !Covers(ts[a], k)) ==> Colored(lang, line)[k].color == Default)
            && Colored(lang, line)[k].ch == line[k].ch
  {
    hide Tokens;
    var ts := Tokens(lang, Chars(line), Directives(line), 0);
    TokensOrdered(lang, Chars(line), Directives(line), 0);
    OneTokenCovers(ts, 0, |line|, k);
  }

  lemma WordToken(s: seq<byte>, b: nat)
    requires b < |s| && TokenAt(s, b).Some?
    ensures TokenAt(s, b).value.color == Identifier <==> Is(Letter, s[b])
  {
    hide Span, NumberEnd;
  }

  /** The token and the blanks right before it have one preprocessor flag. */
  ghost predicate FlagBefore(s: seq<byte>, pre: seq<bool>, t: Token, flag: bool)
    requires |pre| == |s|
  {
    forall x :: 0 <= x <= t.begin < |s| && All(Blank, s, x, t.begin) ==> pre[x] == flag
  }

  /** The colours of the word lists: outside a preprocessor line exactly the keywords, the known identifiers
      that are no keywords, and the preprocessor identifiers that are neither get the colour of their
      list; on one only the preprocessor identifiers do. */
  lemma {:induction false} WordColors(lang: Language, s: seq<byte>, pre: seq<bool>, i: nat, t: Token)
    requires |pre| == |s| && t in Tokens(lang, s, pre, i) && t.begin < |s|
    ensures t.begin < t.end <= |s|
    ensures var word := s[t.begin..t.end];
            var known := Is(Letter, s[t.begin]);
            && (FlagBefore(s, pre, t, false) ==>
                  && (t.color == Keyword <==> known && word in lang.keywords)
                  && (t.color == KnownIdentifier <==>
                      known && word in lang.identifiers && word !in lang.keywords)
                  && (t.color == PreprocIdentifier <==>
                      known && word in lang.preprocIdentifiers
                      && word !in lang.keywords && word !in lang.identifiers))
            && (FlagBefore(s, pre, t, true) ==>
                  && t.color != Keyword && t.color != KnownIdentifier
                  && (t.color == PreprocIdentifier <==> known && word in lang.preprocIdentifiers))
    decreases |s| - i
  {
    hide TokenAt, Span;
    if i < |s| {
      var u := Tokenize(s, i);
      if u.None? {
        WordColors(lang, s, pre, i + 1, t);
      } else {
        var b := Span(Blank, s, i);
        var first := Token(u.value.begin, u.value.end, TokenColor(lang, s, u.value, pre[i]));
        if t == first {
          WordToken(s, b);
          TokenKinds(s, b);
        } else {
          WordColors(lang, s, pre, u.value.end, t);
        }
      }
    }
  }

  lemma TokenKinds(s: seq<byte>, b: nat)
    requires b < |s| && TokenAt(s, b).Some?
    ensures TokenAt(s, b).value.color in {String, CharLiteral, Identifier, PaletteIndex.Number, Punctuation}
  {
    hide Span, NumberEnd;
  }

  // ---------- The scan over one line ----------

  /** Up to `first` the line has its final colours. */
  ghost predicate PaintedUpTo(lang: Language, line: Line, r: Line, first: nat) {
    && |r| == |line| && first <= |line|
    && var s, pre := Chars(line), Directives(line);
       && (forall k {:trigger r[k]} :: 0 <= k < first ==> r[k] == Colored(lang, line)[k])
       && (forall k {:trigger r[k]} :: first <= k < |line| ==> r[k] == line[k].(color := Default))
       && (forall k :: first <= k < |line| ==>
             ColorOf(Tokens(lang, s, pre, 0), k) == ColorOf(Tokens(lang, s, pre, first), k))
  }

  /** No token at `first`: its glyph stays Default. */
  lemma SkipByte(lang: Language, line: Line, r: Line, first: nat)
    requires PaintedUpTo(lang, line, r, first) && first < |line| && Tokenize(Chars(line), first).None?
    ensures PaintedUpTo(lang, line, r, first + 1)
  {
    hide Tokenize;
    var s, pre := Chars(line), Directives(line);
    TokensOrdered(lang, s, pre, first + 1);
    ColorBefore(Tokens(lang, s, pre, first + 1), first + 1, |s|, first);
  }

  /** The glyphs of a token get its colour. */
  lemma PaintToken(lang: Language, line: Line, r: Line, q: Line, first: nat, t: Token)
    requires PaintedUpTo(lang, line, r, first) && first < |line| && Tokenize(Chars(line), first) == Some(t)
    requires |q| == |line|
    requires forall k {:trigger q[k]} :: 0 <= k < |line| ==>
               q[k] == if Covers(t, k) then r[k].(color := TokenColor(lang, Chars(line), t, line[first].preprocessor))
                       else r[k]
    ensures PaintedUpTo(lang, line, q, t.end)
  {
    hide Tokenize, TokenColor;
    var s, pre := Chars(line), Directives(line);
    var rest := Tokens(lang, s, pre, t.end);
    TokensOrdered(lang, s, pre, t.end);
    forall k | first <= k < |line|
      ensures ColorOf(Tokens(lang, s, pre, first), k) ==
              if Covers(t, k) then TokenColor(lang, s, t, line[first].preprocessor) else ColorOf(rest, k)
      ensures k < t.end ==> ColorOf(rest, k) == Default
    {
      assert Tokens(lang, s, pre, first)[1..] == rest;
      if k < t.end {
        ColorBefore(rest, t.end, |s|, k);
      }
    }
  }

  /** Give the glyphs from `begin` up to `end` a colour. */
  method Repaint(line: Line, begin: nat, end: nat, color: PaletteIndex) returns (r: Line)
    requires begin <= end <= |line|
    ensures |r| == |line|
    ensures forall k {:trigger r[k]} :: 0 <= k < |line| ==>
              r[k] == if begin <= k < end then line[k].(color := color) else line[k]
  {
    r := line;
    for j := begin to end
      invariant |r| == |line|
      invariant forall k {:trigger r[k]} :: 0 <= k < |line| ==>
                  r[k] == if begin <= k < j then line[k].(color := color) else line[k]
    {
      r := r[j := r[j].(color := color)];
    }
  }

  /** Look an identifier up in the word lists. */
  method ClassifyIdentifier(lang: Language, id: seq<byte>, preprocessor: bool) returns (color: PaletteIndex)
    ensures color == IdentifierColor(lang, id, preprocessor)
  {
    color := Identifier;
    if !preprocessor {
      if id in lang.keywords {
        color := Keyword;
      } else if id in lang.identifiers {
        color := KnownIdentifier;
      } else if id in lang.preprocIdentifiers {
        color := PreprocIdentifier;
      }
    } else {
      if id in lang.preprocIdentifiers {
        color := PreprocIdentifier;
      }
    }
  }

  /** The body of ColorizeRange: colour one line from scratch, token by token. */
  method ColorizeLine(lang: Language, line: Line) returns (r: Line)
    ensures r == Colored(lang, line)
  {
    hide Tokens, Tokenize, IdentifierColor, Framed;
    r := Repaint(line, 0, |line|, Default);
    var buffer := Chars(line);
    var first := 0;
    while first != |buffer|
      invariant first <= |line| && PaintedUpTo(lang, line, r, first)
      decreases |line| - first
    {
      var t := TokenizeFrom(buffer, first);
      if t.None? {
        SkipByte(lang, line, r, first);
        first := first + 1;
      } else {
        var color := t.value.color;
        if color == Identifier {
          color := ClassifyIdentifier(lang, buffer[t.value.begin..t.value.end], r[first].preprocessor);
        }
        ghost var before := r;
        r := Repaint(r, t.value.begin, t.value.end, color);
        PaintToken(lang, line, before, r, first, t.value);
        first := t.value.end;
      }
    }
  }

  // ---------- Ticks ----------

  /** The lines after one tick of the colouring. */
  function ColorTick(lang: Language, lines: seq<Line>, range: Range, increment: nat): (r: seq<Line>)
    ensures |r| == |lines|
    ensures forall l {:trigger r[l]} :: 0 <= l < |lines| ==>
              r[l] == if range.lo <= l < TickEnd(range, increment) then Colored(lang, lines[l]) else lines[l]
  {
    seq(|lines|, l requires 0 <= l < |lines| =>
      if range.lo <= l < TickEnd(range, increment) then Colored(lang, lines[l]) else lines[l])
  }

  /** The lines after `n` ticks without edits and requests between them. */
  function ColorTicks(lang: Language, lines: seq<Line>, range: Range, increment: nat, n: nat): (r: seq<Line>)
    ensures |r| == |lines|
    decreases n
  {
    if n == 0 then lines
    else ColorTicks(lang, ColorTick(lang, lines, range, increment), Tick(range, increment), increment, n - 1)
  }

  lemma {:induction false} ColoredAsOften(lang: Language, lines: seq<Line>, range: Range, increment: nat, n: nat,
                                             l: nat)
    requires l < |lines|
    ensures var r, times := ColorTicks(lang, lines, range, increment, n), TimesColoured(range, increment, n, l);
            && (times == 0 ==> r[l] == lines[l])
            && (times == 1 ==> r[l] == Colored(lang, lines[l]))
    decreases n
  {
    hide Colored;
    if n > 0 {
      ColoredAsOften(lang, ColorTick(lang, lines, range, increment), Tick(range, increment), increment, n - 1, l);
    }
  }

  /** After the needed number of ticks exactly the lines that were pending have the colours of their
      tokens, and nothing is pending any more. */
  lemma PendingLinesColored(lang: Language, lines: seq<Line>, range: Range, increment: nat, n: nat)
    requires increment > 0 && 0 <= range.lo < range.hi && n >= TicksNeeded(range, increment)
    ensures Ticks(range, increment, n) == SENTINEL
    ensures forall l {:trigger ColorTicks(lang, lines, range, increment, n)[l]} :: 0 <= l < |lines| ==>
              ColorTicks(lang, lines, range, increment, n)[l] ==
              if Pending(range, l) then Colored(lang, lines[l]) else lines[l]
  {
    hide Colored, TicksNeeded, TimesColoured, Ticks, ColorTicks;
    EveryPendingLineOnce(range, increment, n, 0);
    forall l: nat | l < |lines|
      ensures ColorTicks(lang, lines, range, increment, n)[l] ==
              if Pending(range, l) then Colored(lang, lines[l]) else lines[l]
    {
      EveryPendingLineOnce(range, increment, n, l);
      ColoredAsOften(lang, lines, range, increment, n, l);
    }
  }
}
