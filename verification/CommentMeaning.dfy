/** What the flags of the comment pass mean: the states of the scanner, characterised by positions of the
    document that are defined by mutual recursion, each on the positions before it. */
module CommentMeaning {
  import opened Utf8
  import opened Documents
  import opened Glyphs
  import opened Words
  import opened Tokenizers
  import opened Comments

  // ---------- Marks ----------

  predicate SlashStar(s: seq<byte>, i: nat) {
    i + 1 < |s| && s[i] == '/' as int && s[i + 1] == '*' as int
  }

  predicate SlashSlash(s: seq<byte>, i: nat) {
    i + 1 < |s| && s[i] == '/' as int && s[i + 1] == '/' as int
  }

  /** A star and a slash, the slash at `i`. */
  predicate StarSlash(s: seq<byte>, i: nat) {
    0 < i < |s| && s[i - 1] == '*' as int && s[i] == '/' as int
  }

  predicate QuoteQuote(s: seq<byte>, i: nat) {
    i + 1 < |s| && s[i] == '"' as int && s[i + 1] == '"' as int
  }

  /** A backslash, or the first of two quotation marks. */
  predicate TakesNext(s: seq<byte>, i: nat)
    requires i < |s|
  {
    s[i] == '\\' as int || QuoteQuote(s, i)
  }

  /** The marks that the scanner looks for. */
  lemma Marks(s: seq<byte>, i: nat, st: Scan)
    requires i < |s|
    ensures CommentNow(s, i, st) <==> st.inComment || (!st.singleLine && SlashStar(s, i))
    ensures SingleNow(s, i, st) <==> st.singleLine || SlashSlash(s, i)
    ensures Closes(s, i) <==> StarSlash(s, i)
    ensures Pairs(s, i) <==> TakesNext(s, i)
    ensures QUOTE == '"' as int && BACKSLASH == '\\' as int && HASH == '#' as int
    ensures IsSpace(s[i]) <==> s[i] == ' ' as int || '\t' as int <= s[i] <= '\r' as int
  {
  }

  // ---------- The bytes that the scanner looks at ----------

  predicate LooksAt(d: Document, m: nat, j: nat) {
    m < |d| && j < |d[m]| && Looks(StateAt(d, m, j))
  }

  /** A byte that belongs to the character looked at before it. */
  predicate Reaches(d: Document, l: nat, k: nat, i: nat) {
    LooksAt(d, l, k) && k < i < k + UTF8CharLength(d[l][k])
  }

  lemma {:induction false} ReachesOn(d: Document, l: nat, k: nat, i: nat)
    requires LooksAt(d, l, k) && k < i <= |d[l]| && i <= k + UTF8CharLength(d[l][k])
    ensures StateAt(d, l, i).left == k + UTF8CharLength(d[l][k]) - i
    decreases i
  {
    if i > k + 1 {
      ReachesOn(d, l, k, i - 1);
    }
  }

  lemma {:induction false} LeftReaches(d: Document, l: nat, i: nat)
    requires l < |d| && i <= |d[l]| && StateAt(d, l, i).left > 0
    ensures exists k :: Reaches(d, l, k, i)
    decreases i
  {
    if i > 0 {
      var k := i - 1;
      if StateAt(d, l, k).left > 0 {
        LeftReaches(d, l, k);
        var j :| Reaches(d, l, j, k);
        ReachesOn(d, l, j, k);
        assert Reaches(d, l, j, i);
      } else if !StateAt(d, l, k).pair {
        assert Reaches(d, l, k, i);
      }
    }
  }

  /** The scanner passes over a byte if and only if it belongs to the character looked at before, or a
      backslash or a quotation mark in a string takes it along. */
  lemma LooksMeans(d: Document, l: nat, i: nat)
    requires l < |d| && i < |d[l]|
    ensures StateAt(d, l, i).left > 0 <==> exists k :: Reaches(d, l, k, i)
    ensures StateAt(d, l, i).pair <==>
            0 < i && LooksAt(d, l, i - 1) && StateAt(d, l, i - 1).inString && TakesNext(d[l], i - 1)
  {
    if StateAt(d, l, i).left > 0 {
      LeftReaches(d, l, i);
    }
    if k :| Reaches(d, l, k, i) {
      ReachesOn(d, l, k, i);
    }
    PairMeans(d, l, i);
  }

  lemma {:induction false} PairMeans(d: Document, l: nat, i: nat)
    requires l < |d| && i <= |d[l]|
    ensures StateAt(d, l, i).pair <==>
            0 < i && LooksAt(d, l, i - 1) && StateAt(d, l, i - 1).inString && TakesNext(d[l], i - 1)
    ensures StateAt(d, l, i).pair ==> StateAt(d, l, i).left == 0
    decreases i
  {
    if i > 0 {
      PairMeans(d, l, i - 1);
    }
  }

  // ---------- From one state to the next ----------

  /** A character outside strings. */
  predicate Plain(d: Document, m: nat, j: nat) {
    LooksAt(d, m, j) && !StateAt(d, m, j).inString && d[m][j] != QUOTE
  }

  lemma NextState(d: Document, l: nat, k: nat)
    requires l < |d| && k < |d[l]|
    ensures var s, now, next := d[l], StateAt(d, l, k), StateAt(d, l, k + 1);
            && (LooksAt(d, l, k) ==>
                  && next.firstChar == FirstNow(s, k, now)
                  && next.inString == (if now.inString then TakesNext(s, k) || s[k] != QUOTE else s[k] == QUOTE))
            && (!LooksAt(d, l, k) ==> next.firstChar == now.firstChar && next.inString == now.inString)
            && next.inComment ==
               (if Plain(d, l, k) then (now.inComment || (!now.singleLine && SlashStar(s, k))) && !StarSlash(s, k)
                else now.inComment)
            && next.singleLine == (if Plain(d, l, k) then now.singleLine || SlashSlash(s, k) else now.singleLine)
            && next.preproc == (if Plain(d, l, k) then DirectiveNow(s, k, now) else now.preproc)
  {
    hide FirstNow, DirectiveNow, LinesEnd, NewLine;
    Marks(d[l], k, StateAt(d, l, k));
    hide CommentNow, SingleNow, Closes, Pairs, SlashStar, SlashSlash, StarSlash, TakesNext;
  }

  /** Line `x` ends with a backslash that the scanner looks at: the next line belongs to it. */
  predicate Continued(d: Document, x: nat) {
    x < |d| && d[x] != [] && LooksAt(d, x, |d[x]| - 1) && d[x][|d[x]| - 1] == BACKSLASH
  }

  lemma {:induction false} ConcatenateAt(d: Document, l: nat, i: nat)
    requires l < |d| && i <= |d[l]|
    ensures StateAt(d, l, i).concatenate <==> i == |d[l]| && Continued(d, l)
    decreases i
  {
    hide FirstNow;
    if i > 0 {
      ConcatenateAt(d, l, i - 1);
    }
  }

  lemma ConcatenateMeans(d: Document, l: nat)
    requires l <= |d|
    ensures LinesEnd(d, l).concatenate <==> l > 0 && Continued(d, l - 1)
  {
    hide Continued;
    if l > 0 {
      ConcatenateAt(d, l - 1, |d[l - 1]|);
    }
  }

  /** The state at the start of a line. */
  lemma LineState(d: Document, l: nat)
    requires l < |d|
    ensures var now := StateAt(d, l, 0);
            if l == 0 then
              !now.inComment && !now.inString && !now.singleLine && !now.preproc && now.firstChar
            else
              var end := StateAt(d, l - 1, |d[l - 1]|);
              && now.inComment == end.inComment && now.inString == end.inString
              && now.singleLine == (Continued(d, l - 1) && end.singleLine)
              && now.preproc == (Continued(d, l - 1) && end.preproc)
              && now.firstChar == (Continued(d, l - 1) ==> end.firstChar)
  {
    hide Continued, Visit;
    ConcatenateMeans(d, l);
  }

  // ---------- Strings ----------

  predicate QuoteOpens(d: Document, m: nat, j: nat) {
    LooksAt(d, m, j) && !StateAt(d, m, j).inString && d[m][j] == QUOTE
  }

  /** A quotation mark ends a string unless another one follows. */
  predicate QuoteCloses(d: Document, m: nat, j: nat) {
    LooksAt(d, m, j) && StateAt(d, m, j).inString && d[m][j] == QUOTE && !QuoteQuote(d[m], j)
  }

  /** A string begun at (m, j) has not ended before (l, i). */
  ghost predicate StringSince(d: Document, m: nat, j: nat, l: nat, i: nat) {
    && QuoteOpens(d, m, j) && BeforePos(m, j, l, i)
    && forall x: nat, y: nat {:trigger QuoteCloses(d, x, y)} ::
         BeforePos(x, y, l, i) && !BeforePos(x, y, m, j) ==> !QuoteCloses(d, x, y)
  }

  ghost predicate InString(d: Document, l: nat, i: nat) {
    exists m: nat, j: nat :: StringSince(d, m, j, l, i)
  }

  lemma StringStep(d: Document, l: nat, k: nat)
    requires l < |d| && k < |d[l]|
    ensures InString(d, l, k + 1) <==> (InString(d, l, k) || QuoteOpens(d, l, k)) && !QuoteCloses(d, l, k)
  {
    hide StateAt;
    if (InString(d, l, k) || QuoteOpens(d, l, k)) && !QuoteCloses(d, l, k) {
      if QuoteOpens(d, l, k) {
        assert StringSince(d, l, k, l, k + 1);
      } else {
        var m: nat, j: nat :| StringSince(d, m, j, l, k);
        assert StringSince(d, m, j, l, k + 1);
      }
    }
    var i := k + 1;
    if m: nat, j: nat :| StringSince(d, m, j, l, i) {
      if BeforePos(m, j, l, k) {
        assert StringSince(d, m, j, l, k);
      } else {
        assert m == l && j == k;
      }
    }
  }

  lemma StringLine(d: Document, l: nat)
    requires 0 < l < |d|
    ensures InString(d, l, 0) <==> InString(d, l - 1, |d[l - 1]|)
  {
    hide StateAt;
    var p, n := l - 1, |d[l - 1]|;
    if m: nat, j: nat :| StringSince(d, m, j, l, 0) {
      assert StringSince(d, m, j, p, n);
    }
    if m: nat, j: nat :| StringSince(d, m, j, p, n) {
      assert StringSince(d, m, j, l, 0);
    }
  }

  /** The scanner is in a string exactly if an opening quotation mark precedes, be it in a comment, and no
      closing one has followed it; line ends do not close strings. */
  lemma {:induction false} InStringMeans(d: Document, l: nat, i: nat)
    requires l < |d| && i <= |d[l]|
    ensures StateAt(d, l, i).inString <==> InString(d, l, i)
    decreases l, i
  {
    hide StateAt, InString;
    if i > 0 {
      InStringMeans(d, l, i - 1);
      StringStep(d, l, i - 1);
      NextState(d, l, i - 1);
    } else {
      LineState(d, l);
      if l > 0 {
        InStringMeans(d, l - 1, |d[l - 1]|);
        StringLine(d, l);
      } else {
        NothingBefore(d);
      }
    }
  }

  /** The pass runs over the end of a line if and only if the line ends, in a string, with a backslash that
      the scanner looks at. */
  lemma OverrunsIff(d: Document, l: nat)
    requires l < |d|
    ensures Overruns(d, l) <==> Continued(d, l) && InString(d, l, |d[l]| - 1)
  {
    hide StateAt, InString;
    if d[l] != [] {
      InStringMeans(d, l, |d[l]| - 1);
    }
  }

  /** It never does in a text without quotation marks, or without backslashes at line ends. */
  lemma SafeTexts(d: Document)
    requires || (forall m, j :: 0 <= m < |d| && 0 <= j < |d[m]| ==> d[m][j] != QUOTE)
             || (forall m :: 0 <= m < |d| && d[m] != [] ==> d[m][|d[m]| - 1] != BACKSLASH)
    ensures NeverOverruns(d)
  {
    hide StateAt;
    forall l | 0 <= l < |d|
      ensures !Overruns(d, l)
    {
      OverrunsIff(d, l);
    }
  }

  // ---------- What it means to be in a comment ----------

  predicate OpensAt(d: Document, m: nat, j: nat) {
    Plain(d, m, j) && !StateAt(d, m, j).singleLine && SlashStar(d[m], j)
  }

  predicate ClosesAt(d: Document, m: nat, j: nat) {
    Plain(d, m, j) && StarSlash(d[m], j)
  }

  /** A comment opened at (m, j) and is not closed before (l, i). */
  ghost predicate OpenSince(d: Document, m: nat, j: nat, l: nat, i: nat) {
    && OpensAt(d, m, j) && BeforePos(m, j, l, i)
    && forall x: nat, y: nat {:trigger ClosesAt(d, x, y)} ::
         BeforePos(x, y, l, i) && !BeforePos(x, y, m, j) ==> !ClosesAt(d, x, y)
  }

  ghost predicate InComment(d: Document, l: nat, i: nat) {
    exists m: nat, j: nat :: OpenSince(d, m, j, l, i)
  }

  lemma CommentStep(d: Document, l: nat, k: nat)
    requires l < |d| && k < |d[l]|
    ensures InComment(d, l, k + 1) <==> (InComment(d, l, k) || OpensAt(d, l, k)) && !ClosesAt(d, l, k)
  {
    hide StateAt, SlashStar, StarSlash;
    if (InComment(d, l, k) || OpensAt(d, l, k)) && !ClosesAt(d, l, k) {
      if OpensAt(d, l, k) {
        assert OpenSince(d, l, k, l, k + 1);
      } else {
        var m: nat, j: nat :| OpenSince(d, m, j, l, k);
        assert OpenSince(d, m, j, l, k + 1);
      }
    }
    var i := k + 1;
    if m: nat, j: nat :| OpenSince(d, m, j, l, i) {
      if BeforePos(m, j, l, k) {
        assert OpenSince(d, m, j, l, k);
      } else {
        assert m == l && j == k;
      }
    }
  }

  lemma CommentLine(d: Document, l: nat)
    requires 0 < l < |d|
    ensures InComment(d, l, 0) <==> InComment(d, l - 1, |d[l - 1]|)
  {
    hide StateAt, SlashStar, StarSlash;
    var p, n := l - 1, |d[l - 1]|;
    if m: nat, j: nat :| OpenSince(d, m, j, l, 0) {
      assert OpenSince(d, m, j, p, n);
    }
    if m: nat, j: nat :| OpenSince(d, m, j, p, n) {
      assert OpenSince(d, m, j, l, 0);
    }
  }

  /** The Boolean of the scanner says that some comment start, not hidden by a single-line comment,
      precedes and no comment end has followed it. */
  lemma {:induction false} InCommentMeans(d: Document, l: nat, i: nat)
    requires l < |d| && i <= |d[l]|
    ensures StateAt(d, l, i).inComment <==> InComment(d, l, i)
    decreases l, i
  {
    hide StateAt, InComment, StarSlash, SlashStar;
    if i > 0 {
      InCommentMeans(d, l, i - 1);
      CommentStep(d, l, i - 1);
      NextState(d, l, i - 1);
    } else {
      LineState(d, l);
      if l > 0 {
        InCommentMeans(d, l - 1, |d[l - 1]|);
        CommentLine(d, l);
      } else {
        NothingBefore(d);
      }
    }
  }

  // ---------- Lines joined by backslashes ----------

  /** The lines m, ..., l are one. */
  predicate SameLine(d: Document, m: nat, l: nat) {
    m <= l && forall x: nat {:trigger Continued(d, x)} :: m <= x < l ==> Continued(d, x)
  }

  // ---------- Single-line comments ----------

  ghost predicate SingleSince(d: Document, m: nat, j: nat, l: nat, i: nat) {
    Plain(d, m, j) && SlashSlash(d[m], j) && BeforePos(m, j, l, i) && SameLine(d, m, l)
  }

  ghost predicate InSingleLine(d: Document, l: nat, i: nat) {
    exists m: nat, j: nat :: SingleSince(d, m, j, l, i)
  }

  lemma SingleStep(d: Document, l: nat, k: nat)
    requires l < |d| && k < |d[l]|
    ensures InSingleLine(d, l, k + 1) <==> InSingleLine(d, l, k) || (Plain(d, l, k) && SlashSlash(d[l], k))
  {
    hide Plain;
    if m: nat, j: nat :| SingleSince(d, m, j, l, k) {
      assert SingleSince(d, m, j, l, k + 1);
    }
    if Plain(d, l, k) && SlashSlash(d[l], k) {
      assert SingleSince(d, l, k, l, k + 1);
    }
    var i := k + 1;
    if m: nat, j: nat :| SingleSince(d, m, j, l, i) {
      assert SingleSince(d, m, j, l, k) || (m == l && j == k);
    }
  }

  lemma SingleLineStep(d: Document, l: nat)
    requires 0 < l < |d|
    ensures InSingleLine(d, l, 0) <==> Continued(d, l - 1) && InSingleLine(d, l - 1, |d[l - 1]|)
  {
    hide StateAt, Continued;
    var p, n := l - 1, |d[l - 1]|;
    if m: nat, j: nat :| SingleSince(d, m, j, l, 0) {
      assert Continued(d, p);
      assert SingleSince(d, m, j, p, n);
    }
    if Continued(d, p) {
      if m: nat, j: nat :| SingleSince(d, m, j, p, n) {
        assert SingleSince(d, m, j, l, 0);
      }
    }
  }

  /** The scanner is in a single-line comment exactly if two slashes precede in the same line, where a
      backslash at its end joins a line with the next. */
  lemma {:induction false} SingleLineMeans(d: Document, l: nat, i: nat)
    requires l < |d| && i <= |d[l]|
    ensures StateAt(d, l, i).singleLine <==> InSingleLine(d, l, i)
    decreases l, i
  {
    hide StateAt, InSingleLine, Continued, Plain;
    if i > 0 {
      SingleLineMeans(d, l, i - 1);
      SingleStep(d, l, i - 1);
      NextState(d, l, i - 1);
    } else {
      LineState(d, l);
      if l > 0 {
        SingleLineMeans(d, l - 1, |d[l - 1]|);
        SingleLineStep(d, l);
      } else {
        NothingBefore(d);
      }
    }
  }

  lemma NothingBefore(d: Document)
    ensures !InString(d, 0, 0) && !InComment(d, 0, 0) && !InSingleLine(d, 0, 0)
    ensures OnlyBlanks(d, 0, 0) && !InDirective(d, 0, 0)
  {
  }

  // ---------- Preprocessor lines ----------

  /** Only blanks and the preprocessor character precede in the same line. */
  ghost predicate OnlyBlanks(d: Document, l: nat, i: nat) {
    forall x: nat, y: nat {:trigger LooksAt(d, x, y)} ::
      LooksAt(d, x, y) && BeforePos(x, y, l, i) && SameLine(d, x, l) ==> d[x][y] == HASH || IsSpace(d[x][y])
  }

  ghost predicate DirectiveSince(d: Document, m: nat, j: nat, l: nat, i: nat) {
    Plain(d, m, j) && d[m][j] == HASH && BeforePos(m, j, l, i) && SameLine(d, m, l) && OnlyBlanks(d, m, j)
  }

  ghost predicate InDirective(d: Document, l: nat, i: nat) {
    exists m: nat, j: nat :: DirectiveSince(d, m, j, l, i)
  }

  lemma BlanksStep(d: Document, l: nat, k: nat)
    requires l < |d| && k < |d[l]|
    ensures OnlyBlanks(d, l, k + 1) <==>
            OnlyBlanks(d, l, k) && (LooksAt(d, l, k) ==> d[l][k] == HASH || IsSpace(d[l][k]))
  {
    hide StateAt, Continued;
  }

  lemma BlanksLineStep(d: Document, l: nat)
    requires 0 < l < |d|
    ensures OnlyBlanks(d, l, 0) <==> (Continued(d, l - 1) ==> OnlyBlanks(d, l - 1, |d[l - 1]|))
  {
    hide StateAt, Continued;
    var p, n := l - 1, |d[l - 1]|;
    forall x: nat, y: nat | LooksAt(d, x, y) && BeforePos(x, y, l, 0)
      ensures SameLine(d, x, l) <==> Continued(d, p) && SameLine(d, x, p)
    {
    }
  }

  lemma {:induction false} OnlyBlanksMeans(d: Document, l: nat, i: nat)
    requires l < |d| && i <= |d[l]|
    ensures StateAt(d, l, i).firstChar <==> OnlyBlanks(d, l, i)
    decreases l, i
  {
    hide StateAt, OnlyBlanks, Continued;
    if i > 0 {
      OnlyBlanksMeans(d, l, i - 1);
      BlanksStep(d, l, i - 1);
      NextState(d, l, i - 1);
    } else {
      LineState(d, l);
      if l > 0 {
        OnlyBlanksMeans(d, l - 1, |d[l - 1]|);
        BlanksLineStep(d, l);
      } else {
        NothingBefore(d);
      }
    }
  }

  lemma DirectiveStep(d: Document, l: nat, k: nat)
    requires l < |d| && k < |d[l]|
    ensures InDirective(d, l, k + 1) <==>
            InDirective(d, l, k) || (Plain(d, l, k) && d[l][k] == HASH && OnlyBlanks(d, l, k))
  {
    hide OnlyBlanks, Plain;
    if m: nat, j: nat :| DirectiveSince(d, m, j, l, k) {
      assert DirectiveSince(d, m, j, l, k + 1);
    }
    if Plain(d, l, k) && d[l][k] == HASH && OnlyBlanks(d, l, k) {
      assert DirectiveSince(d, l, k, l, k + 1);
    }
    var i := k + 1;
    if m: nat, j: nat :| DirectiveSince(d, m, j, l, i) {
      assert DirectiveSince(d, m, j, l, k) || (m == l && j == k);
    }
  }

  lemma DirectiveLineStep(d: Document, l: nat)
    requires 0 < l < |d|
    ensures InDirective(d, l, 0) <==> Continued(d, l - 1) && InDirective(d, l - 1, |d[l - 1]|)
  {
    hide OnlyBlanks, StateAt, Continued;
    var p, n := l - 1, |d[l - 1]|;
    if m: nat, j: nat :| DirectiveSince(d, m, j, l, 0) {
      assert Continued(d, p);
      assert DirectiveSince(d, m, j, p, n);
    }
    if Continued(d, p) {
      if m: nat, j: nat :| DirectiveSince(d, m, j, p, n) {
        assert DirectiveSince(d, m, j, l, 0);
      }
    }
  }

  /** The scanner is in a preprocessor line exactly if a preprocessor character, with nothing but blanks
      and such characters before it, precedes in the same line. */
  lemma {:induction false} DirectiveMeans(d: Document, l: nat, i: nat)
    requires l < |d| && i <= |d[l]|
    ensures StateAt(d, l, i).preproc <==> InDirective(d, l, i)
    decreases l, i
  {
    hide StateAt, OnlyBlanks, InDirective, Continued, Plain;
    if i > 0 {
      DirectiveMeans(d, l, i - 1);
      OnlyBlanksMeans(d, l, i - 1);
      DirectiveStep(d, l, i - 1);
      NextState(d, l, i - 1);
    } else {
      LineState(d, l);
      if l > 0 {
        DirectiveMeans(d, l - 1, |d[l - 1]|);
        DirectiveLineStep(d, l);
      } else {
        NothingBefore(d);
      }
    }
  }

  /** The flags that a glyph of a document gets, read off the document. In strings it keeps its single-line
      flag, and a byte that takes the next one along keeps its preprocessor flag; bytes that belong to the
      character before keep all flags. */
  lemma FlagsMean(d: Document, l: nat, i: nat, g: Glyph)
    requires l < |d| && i < |d[l]|
    ensures var r, st := Paint(g, d[l], i, StateAt(d, l, i)), StateAt(d, l, i);
            && (Plain(d, l, i) ==>
                  && (r.multiLineComment <==>
                      InComment(d, l, i) || (!InSingleLine(d, l, i) && SlashStar(d[l], i)))
                  && (r.comment <==> InSingleLine(d, l, i) || SlashSlash(d[l], i))
                  && (r.preprocessor <==> InDirective(d, l, i) || (OnlyBlanks(d, l, i) && d[l][i] == HASH)))
            && (!Plain(d, l, i) && !(exists k :: Reaches(d, l, k, i)) ==>
                  && (r.multiLineComment <==> InComment(d, l, i))
                  && r.comment == g.comment
                  && (if LooksAt(d, l, i) && InString(d, l, i) && TakesNext(d[l], i)
                      then r.preprocessor == g.preprocessor else r.preprocessor <==> InDirective(d, l, i)))
            && ((exists k :: Reaches(d, l, k, i)) ==> r == g)
  {
    hide StateAt, InComment, InSingleLine, InDirective, OnlyBlanks, InString;
    InCommentMeans(d, l, i);
    InStringMeans(d, l, i);
    SingleLineMeans(d, l, i);
    DirectiveMeans(d, l, i);
    OnlyBlanksMeans(d, l, i);
    LooksMeans(d, l, i);
  }
}
