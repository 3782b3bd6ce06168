/** The hand-written tokenizers for C and C++. */
module Tokenizers {
  import opened Utf8
  import opened Glyphs
  import opened Editing

  // ---------- Character classes ----------

  const QUOTE: byte := 34
  const APOSTROPHE: byte := 39
  const BACKSLASH: byte := 92
  const DOT: byte := 46

  datatype Class = Digit | HexDigit | BinaryDigit | SizeSuffix | Blank | Letter | IdentifierChar | Sign
                 | HexMarker | BinaryMarker | ExponentMarker | FloatSuffix | PunctuationMark

  predicate Is(k: Class, c: byte) {
    match k
    case Digit => 48 <= c <= 57
    case HexDigit => 48 <= c <= 57 || 97 <= c <= 102 || 65 <= c <= 70
    case BinaryDigit => c == 48 || c == 49
    case SizeSuffix => c == 117 || c == 85 || c == 108 || c == 76        // u U l L
    case Blank => c == SPACE || c == TAB
    case Letter => 97 <= c <= 122 || 65 <= c <= 90 || c == 95            // a-z A-Z _
    case IdentifierChar => 97 <= c <= 122 || 65 <= c <= 90 || 48 <= c <= 57 || c == 95
    case Sign => c == 43 || c == 45
    case HexMarker => c == 120 || c == 88
    case BinaryMarker => c == 98 || c == 66
    case ExponentMarker => c == 101 || c == 69
    case FloatSuffix => c == 102
    case PunctuationMark =>    // [ ] { } ! % ^ & * ( ) - + = ~ | < > ? : / ; , .
      c == 91 || c == 93 || c == 123 || c == 125 || c == 33 || c == 37 || c == 94 || c == 38 || c == 42
      || c == 40 || c == 41 || c == 45 || c == 43 || c == 61 || c == 126 || c == 124 || c == 60 || c == 62
      || c == 63 || c == 58 || c == 47 || c == 59 || c == 44 || c == 46
  }

  /** The classes, spelled out. */
  lemma ClassesMean(c: byte)
    ensures Is(Digit, c) <==> c as char in "0123456789"
    ensures Is(HexDigit, c) <==> c as char in "0123456789abcdefABCDEF"
    ensures Is(BinaryDigit, c) <==> c as char in "01"
    ensures Is(SizeSuffix, c) <==> c as char in "uUlL"
    ensures Is(Blank, c) <==> c as char in " \t"
    ensures Is(Letter, c) <==> 'a' <= c as char <= 'z' || 'A' <= c as char <= 'Z' || c as char == '_'
    ensures Is(IdentifierChar, c) <==> Is(Letter, c) || Is(Digit, c)
    ensures Is(Sign, c) <==> c as char in "+-"
    ensures Is(HexMarker, c) <==> c as char in "xX"
    ensures Is(BinaryMarker, c) <==> c as char in "bB"
    ensures Is(ExponentMarker, c) <==> c as char in "eE"
    ensures Is(FloatSuffix, c) <==> c as char == 'f'
    ensures Is(PunctuationMark, c) <==> c as char in "[]{}!%^&*()-+=~|<>?:/;,."
  {
  }

  predicate IsAt(k: Class, s: seq<byte>, i: nat) {
    i < |s| && Is(k, s[i])
  }

  /** The bytes from `i` up to `j` are all of class `k`. */
  predicate All(k: Class, s: seq<byte>, i: nat, j: nat) {
    i <= j <= |s| && forall x {:trigger s[x]} :: i <= x < j ==> Is(k, s[x])
  }

  /** The end of the run of class `k` that starts at `i`. */
  function Span(k: Class, s: seq<byte>, i: nat): (j: nat)
    requires i <= |s|
    ensures i <= j <= |s| && All(k, s, i, j) && !IsAt(k, s, j)
    decreases |s| - i
  {
    if IsAt(k, s, i) then Span(k, s, i + 1) else i
  }

  /** The loop that every tokenizer consists of. */
  method Skip(k: Class, s: seq<byte>, i: nat) returns (j: nat)
    requires i <= |s|
    ensures j == Span(k, s, i)
  {
    j := i;
    while j < |s| && Is(k, s[j])
      invariant i <= j <= |s| && Span(k, s, j) == Span(k, s, i)
    {
      j := j + 1;
    }
  }

  lemma SpanIsLongest(k: Class, s: seq<byte>, i: nat, j: nat)
    requires All(k, s, i, j)
    ensures j <= Span(k, s, i) && (j < Span(k, s, i) ==> Is(k, s[j]))
  {
  }

  // ---------- Numbers: the grammar ----------

  predicate OptionalSign(s: seq<byte>, i: nat, a: nat) {
    a == i || (IsAt(Sign, s, i) && a == i + 1)
  }

  predicate Digits(s: seq<byte>, i: nat, j: nat) {
    i < j && All(Digit, s, i, j)
  }

  /** An exponent marker, an optional sign, digits. */
  ghost predicate Exponent(s: seq<byte>, i: nat, j: nat) {
    IsAt(ExponentMarker, s, i) && exists a: nat :: OptionalSign(s, i + 1, a) && Digits(s, a, j)
  }

  ghost predicate OptionalExponent(s: seq<byte>, i: nat, j: nat) {
    j == i || Exponent(s, i, j)
  }

  predicate OptionalF(s: seq<byte>, i: nat, j: nat) {
    j == i || (IsAt(FloatSuffix, s, i) && j == i + 1)
  }

  /** What may follow the digits: a fraction with exponent and f; x and hexadecimal digits or b and
      binary digits with size suffixes; an exponent with f; or f with size suffixes. */
  ghost predicate Tail(s: seq<byte>, m: nat, e: nat) {
    || (m < |s| && s[m] == DOT
        && exists j: nat, k: nat :: All(Digit, s, m + 1, j) && OptionalExponent(s, j, k) && OptionalF(s, k, e))
    || (IsAt(HexMarker, s, m) && exists j: nat :: All(HexDigit, s, m + 1, j) && All(SizeSuffix, s, j, e))
    || (IsAt(BinaryMarker, s, m) && exists j: nat :: All(BinaryDigit, s, m + 1, j) && All(SizeSuffix, s, j, e))
    || (exists k: nat :: Exponent(s, m, k) && OptionalF(s, k, e))
    || (exists k: nat :: OptionalF(s, m, k) && All(SizeSuffix, s, k, e))
  }

  /** The bytes of `s` from `i` up to `e` are a number. */
  ghost predicate Number(s: seq<byte>, i: nat, e: nat) {
    exists a: nat, m: nat :: OptionalSign(s, i, a) && Digits(s, a, m) && Tail(s, m, e)
  }

  /** An optional sign, digits, and an optional fraction. */
  ghost predicate Mantissa(s: seq<byte>, i: nat, q: nat) {
    exists a: nat, m: nat :: OptionalSign(s, i, a) && Digits(s, a, m)
                   && (q == m || (m < |s| && s[m] == DOT && All(Digit, s, m + 1, q)))
  }

  /** An exponent marker at `q` that no digit follows, with or without a sign between. */
  predicate Dangling(s: seq<byte>, q: nat) {
    && IsAt(ExponentMarker, s, q)
    && !IsAt(Digit, s, q + 1)
    && !(IsAt(Sign, s, q + 1) && IsAt(Digit, s, q + 2))
  }

  ghost predicate DanglingExponent(s: seq<byte>, i: nat) {
    exists q: nat :: Mantissa(s, i, q) && Dangling(s, q)
  }

  // ---------- Numbers: what the tokenizer computes ----------

  function EndOfF(s: seq<byte>, p: nat): nat {
    if IsAt(FloatSuffix, s, p) then p + 1 else p
  }

  /** The end of the exponent at `p`, which is `p` when there is none; nothing for a dangling one. */
  function ExponentEnd(s: seq<byte>, p: nat): (r: Option<nat>)
    requires p <= |s|
    ensures r.Some? ==> p <= r.value <= |s|
  {
    if !IsAt(ExponentMarker, s, p) then Some(p)
    else
      var q := if IsAt(Sign, s, p + 1) then p + 2 else p + 1;
      var d := Span(Digit, s, q);
      if d == q then None else Some(d)
  }

  function TailEnd(s: seq<byte>, m: nat): (r: Option<nat>)
    requires m <= |s|
    ensures r.Some? ==> m <= r.value <= |s|
  {
    if m < |s| && s[m] == DOT then
      var k := ExponentEnd(s, Span(Digit, s, m + 1));
      if k.None? then None else Some(EndOfF(s, k.value))
    else if IsAt(HexMarker, s, m) then Some(Span(SizeSuffix, s, Span(HexDigit, s, m + 1)))
    else if IsAt(BinaryMarker, s, m) then Some(Span(SizeSuffix, s, Span(BinaryDigit, s, m + 1)))
    else
      var k := ExponentEnd(s, m);
      if k.None? then None
      else if k.value > m then Some(EndOfF(s, k.value))
      else Some(Span(SizeSuffix, s, EndOfF(s, m)))
  }

  function NumberEnd(s: seq<byte>, i: nat): (r: Option<nat>)
    requires i < |s|
    ensures r.Some? ==> i < r.value <= |s|
  {
    if !Is(Sign, s[i]) && !Is(Digit, s[i]) then None
    else
      var m := Span(Digit, s, i + 1);
      if Is(Sign, s[i]) && m == i + 1 then None else TailEnd(s, m)
  }

  /** The classes that the scan of a number tells apart are disjoint. */
  lemma MarkersDiffer(s: seq<byte>, i: nat)
    ensures IsAt(ExponentMarker, s, i) ==>
              && s[i] != DOT
              && !Is(Digit, s[i]) && !Is(HexMarker, s[i]) && !Is(BinaryMarker, s[i])
    ensures IsAt(Sign, s, i) || (i < |s| && s[i] == DOT) ==> !Is(Digit, s[i])
  {
  }

  // ---------- Numbers: longest prefix ----------

  /** No exponent at `p` reaches beyond the one found. */
  lemma ExponentLongest(s: seq<byte>, p: nat, k: nat)
    requires p <= |s| && OptionalExponent(s, p, k)
    ensures ExponentEnd(s, p).None? ==> k == p
    ensures var r := ExponentEnd(s, p);
            r.Some? ==> k <= r.value && (p < k < r.value ==> Is(Digit, s[k]))
  {
    if k != p {
      var a: nat :| OptionalSign(s, p + 1, a) && Digits(s, a, k);
      assert Is(Digit, s[a]);
      SpanIsLongest(Digit, s, a, k);
    }
  }

  lemma ExponentFound(s: seq<byte>, p: nat)
    requires p <= |s|
    ensures ExponentEnd(s, p).None? <==> Dangling(s, p)
    ensures ExponentEnd(s, p).Some? ==> OptionalExponent(s, p, ExponentEnd(s, p).value)
    ensures ExponentEnd(s, p).Some? && ExponentEnd(s, p).value > p ==> Exponent(s, p, ExponentEnd(s, p).value)
  {
    if IsAt(ExponentMarker, s, p) {
      var q := if IsAt(Sign, s, p + 1) then p + 2 else p + 1;
      var d := Span(Digit, s, q);
      if d > q {
        assert OptionalSign(s, p + 1, q) && Digits(s, q, d);
      }
    }
  }

  lemma FractionTail(s: seq<byte>, m: nat, e: nat)
    requires m < |s| && s[m] == DOT
    ensures TailEnd(s, m) == Some(e) ==> Tail(s, m, e)
    ensures Tail(s, m, e) && TailEnd(s, m).Some? ==> e <= TailEnd(s, m).value
  {
    var n := Span(Digit, s, m + 1);
    ExponentFound(s, n);
    if TailEnd(s, m) == Some(e) {
      assert OptionalF(s, ExponentEnd(s, n).value, e);
    }
    if Tail(s, m, e) && TailEnd(s, m).Some? {
      if j: nat, k: nat :| All(Digit, s, m + 1, j) && OptionalExponent(s, j, k) && OptionalF(s, k, e) {
        SpanIsLongest(Digit, s, m + 1, j);
        if j == n {
          ExponentLongest(s, n, k);
        }
      }
    }
  }

  lemma MarkedTail(s: seq<byte>, m: nat, e: nat, marker: Class, digit: Class)
    requires (marker == HexMarker && digit == HexDigit) || (marker == BinaryMarker && digit == BinaryDigit)
    requires IsAt(marker, s, m)
    ensures TailEnd(s, m) == Some(e) ==> Tail(s, m, e)
    ensures Tail(s, m, e) ==> TailEnd(s, m).Some? && e <= TailEnd(s, m).value
  {
    var n := Span(digit, s, m + 1);
    if Tail(s, m, e) {
      if j: nat :| All(digit, s, m + 1, j) && All(SizeSuffix, s, j, e) {
        SpanIsLongest(digit, s, m + 1, j);
        if j == n {
          SpanIsLongest(SizeSuffix, s, n, e);
        } else if j < e {
          assert Is(SizeSuffix, s[j]);
        }
      } else {
        var k: nat :| OptionalF(s, m, k) && All(SizeSuffix, s, k, e);
        if k < e {
          assert Is(SizeSuffix, s[k]);
        }
      }
    }
  }

  lemma PlainTail(s: seq<byte>, m: nat, e: nat)
    requires m <= |s| && !IsAt(HexMarker, s, m) && !IsAt(BinaryMarker, s, m) && !(m < |s| && s[m] == DOT)
    ensures TailEnd(s, m) == Some(e) ==> Tail(s, m, e)
    ensures Tail(s, m, e) && TailEnd(s, m).Some? ==> e <= TailEnd(s, m).value
  {
    ExponentFound(s, m);
    if TailEnd(s, m) == Some(e) {
      assert OptionalF(s, ExponentEnd(s, m).value, EndOfF(s, ExponentEnd(s, m).value));
    }
    if Tail(s, m, e) && TailEnd(s, m).Some? {
      if k: nat :| Exponent(s, m, k) && OptionalF(s, k, e) {
        ExponentLongest(s, m, k);
      } else {
        var k: nat :| OptionalF(s, m, k) && All(SizeSuffix, s, k, e);
        SpanIsLongest(SizeSuffix, s, k, e);
        if k < e {
          assert Is(SizeSuffix, s[k]);
        }
      }
    }
  }

  lemma TailLongest(s: seq<byte>, m: nat, e: nat)
    requires m <= |s|
    ensures TailEnd(s, m) == Some(e) ==> Tail(s, m, e)
    ensures Tail(s, m, e) && TailEnd(s, m).Some? ==> e <= TailEnd(s, m).value
  {
    if m < |s| && s[m] == DOT {
      FractionTail(s, m, e);
    } else if IsAt(HexMarker, s, m) {
      MarkedTail(s, m, e, HexMarker, HexDigit);
    } else if IsAt(BinaryMarker, s, m) {
      MarkedTail(s, m, e, BinaryMarker, BinaryDigit);
    } else {
      PlainTail(s, m, e);
    }
  }

  /** Where the digits of a number starting at `i` start. */
  function DigitsStart(s: seq<byte>, i: nat): nat {
    if IsAt(Sign, s, i) then i + 1 else i
  }

  lemma DigitsDetermined(s: seq<byte>, i: nat, a: nat, m: nat)
    requires i < |s| && OptionalSign(s, i, a) && Digits(s, a, m)
    ensures a == DigitsStart(s, i) && Is(Digit, s[a]) && (Is(Sign, s[i]) || Is(Digit, s[i]))
    ensures var n := Span(Digit, s, i + 1);
            m <= n && (m < n ==> Is(Digit, s[m])) && !(Is(Sign, s[i]) && n == i + 1)
  {
    assert Is(Digit, s[a]);
    SpanIsLongest(Digit, s, a, m);
  }

  lemma NumberDigits(s: seq<byte>, i: nat)
    requires i < |s|
    ensures var n := Span(Digit, s, i + 1);
            (Is(Sign, s[i]) || Is(Digit, s[i])) && !(Is(Sign, s[i]) && n == i + 1) ==>
              OptionalSign(s, i, DigitsStart(s, i)) && Digits(s, DigitsStart(s, i), n)
  {
  }

  lemma TailAtDigit(s: seq<byte>, m: nat, e: nat)
    requires IsAt(Digit, s, m) && Tail(s, m, e)
    ensures e == m
  {
    var k: nat :| OptionalF(s, m, k) && All(SizeSuffix, s, k, e);
    SpanIsLongest(SizeSuffix, s, k, e);
  }

  /** When TokenizeCStyleNumber accepts, it returns the longest prefix in the grammar. */
  lemma NumberIsLongest(s: seq<byte>, i: nat, e: nat)
    requires i < |s| && NumberEnd(s, i).Some?
    ensures NumberEnd(s, i) == Some(e) <==>
            Number(s, i, e) && forall f: nat :: Number(s, i, f) ==> f <= e
  {
    hide Is, All, Tail, TailEnd, Span;
    var n, r := Span(Digit, s, i + 1), NumberEnd(s, i).value;
    NumberDigits(s, i);
    TailLongest(s, n, r);
    assert Number(s, i, r);
    forall f: nat | Number(s, i, f)
      ensures f <= r
    {
      var a: nat, m: nat :| OptionalSign(s, i, a) && Digits(s, a, m) && Tail(s, m, f);
      DigitsDetermined(s, i, a, m);
      if m < n {
        TailAtDigit(s, m, f);
      } else {
        TailLongest(s, n, f);
      }
    }
  }

  lemma DanglingMantissa(s: seq<byte>, i: nat)
    requires i < |s| && DanglingExponent(s, i)
    ensures NumberEnd(s, i).None?
  {
    hide Is, All, Span, ExponentEnd;
    var q: nat :| Mantissa(s, i, q) && Dangling(s, q);
    var a: nat, m: nat :| OptionalSign(s, i, a) && Digits(s, a, m)
                          && (q == m || (m < |s| && s[m] == DOT && All(Digit, s, m + 1, q)));
    DigitsDetermined(s, i, a, m);
    ExponentFound(s, q);
    MarkersDiffer(s, m);
    MarkersDiffer(s, q);
    if q != m {
      SpanIsLongest(Digit, s, m + 1, q);
    }
  }

  lemma RejectedTail(s: seq<byte>, i: nat)
    requires i < |s| && (Is(Sign, s[i]) || Is(Digit, s[i]))
    requires var n := Span(Digit, s, i + 1);
             !(Is(Sign, s[i]) && n == i + 1) && TailEnd(s, n).None?
    ensures DanglingExponent(s, i)
  {
    hide Span, All;
    var n := Span(Digit, s, i + 1);
    NumberDigits(s, i);
    var q := if n < |s| && s[n] == DOT then Span(Digit, s, n + 1) else n;
    ExponentFound(s, q);
    assert OptionalSign(s, i, DigitsStart(s, i)) && Digits(s, DigitsStart(s, i), n);
    assert Mantissa(s, i, q);
  }

  /** It rejects exactly when no prefix is in the grammar, or an exponent marker without digits
      follows the mantissa. */
  lemma NumberRejected(s: seq<byte>, i: nat)
    requires i < |s|
    ensures NumberEnd(s, i).None? <==> (forall e: nat :: !Number(s, i, e)) || DanglingExponent(s, i)
  {
    if NumberEnd(s, i).Some? {
      NumberIsLongest(s, i, NumberEnd(s, i).value);
      if DanglingExponent(s, i) {
        DanglingMantissa(s, i);
      }
    } else if e: nat :| Number(s, i, e) {
      var a: nat, m: nat :| OptionalSign(s, i, a) && Digits(s, a, m) && Tail(s, m, e);
      DigitsDetermined(s, i, a, m);
      RejectedTail(s, i);
    }
  }

  /** Skip over one byte of class `k`, if there is one. */
  method SkipOne(k: Class, s: seq<byte>, i: nat) returns (j: nat)
    ensures j == if IsAt(k, s, i) then i + 1 else i
  {
    j := if i < |s| && Is(k, s[i]) then i + 1 else i;
  }

  method TokenizeCStyleNumber(s: seq<byte>, begin: nat) returns (end: Option<nat>)
    requires begin < |s|
    ensures end.Some? <==> (exists e: nat :: Number(s, begin, e)) && !DanglingExponent(s, begin)
    ensures end.Some? ==> Number(s, begin, end.value) && forall e: nat :: Number(s, begin, e) ==> e <= end.value
    ensures end == NumberEnd(s, begin)
  {
    NumberRejected(s, begin);
    if NumberEnd(s, begin).Some? {
      NumberIsLongest(s, begin, NumberEnd(s, begin).value);
    }
    end := ScanNumber(s, begin);
  }

  /** The scan itself. */
  method ScanNumber(s: seq<byte>, begin: nat) returns (end: Option<nat>)
    requires begin < |s|
    ensures end == NumberEnd(s, begin)
  {
    hide Is, All, Span;
    MarkersDiffer(s, begin);
    var startsWithNumber := Is(Digit, s[begin]);
    if !Is(Sign, s[begin]) && !startsWithNumber {
      return None;
    }
    var p := Skip(Digit, s, begin + 1);
    var hasNumber := startsWithNumber || p > begin + 1;
    if !hasNumber {
      return None;
    }
    var isFloat, isHex, isBinary := false, false, false;
    if p < |s| {
      if s[p] == DOT {
        isFloat := true;
        p := Skip(Digit, s, p + 1);
      } else if Is(HexMarker, s[p]) {
        isHex := true;
        p := Skip(HexDigit, s, p + 1);
      } else if Is(BinaryMarker, s[p]) {
        isBinary := true;
        p := Skip(BinaryDigit, s, p + 1);
      }
    }
    if !isHex && !isBinary {
      if p < |s| && Is(ExponentMarker, s[p]) {
        isFloat := true;
        var q := SkipOne(Sign, s, p + 1);
        p := Skip(Digit, s, q);
        if p == q {
          return None;
        }
      }
      p := SkipOne(FloatSuffix, s, p);
    }
    if !isFloat {
      p := Skip(SizeSuffix, s, p);
    }
    end := Some(p);
  }

  // ---------- Strings, character literals, identifiers, punctuation ----------

  /** A quotation mark that no backslash precedes. */
  predicate ClosesString(s: seq<byte>, i: nat, j: nat) {
    i < j < |s| && s[j] == QUOTE && s[j - 1] != BACKSLASH
  }

  /** The first place from `j` on that closes the string that starts at `i`. */
  function StringEndFrom(s: seq<byte>, i: nat, j: nat): (r: Option<nat>)
    requires i < j <= |s|
    ensures r.None? ==> forall k :: j <= k ==> !ClosesString(s, i, k)
    ensures r.Some? ==> j < r.value <= |s| && ClosesString(s, i, r.value - 1)
                        && forall k :: j <= k < r.value - 1 ==> !ClosesString(s, i, k)
    decreases |s| - j
  {
    if j == |s| then None
    else if ClosesString(s, i, j) then Some(j + 1)
    else StringEndFrom(s, i, j + 1)
  }

  function StringEnd(s: seq<byte>, i: nat): Option<nat>
    requires i < |s|
  {
    if s[i] == QUOTE then StringEndFrom(s, i, i + 1) else None
  }

  /** A string ends at the first quotation mark without a backslash before it. */
  method TokenizeCStyleString(s: seq<byte>, begin: nat) returns (end: Option<nat>)
    requires begin < |s|
    ensures end == StringEnd(s, begin)
  {
    if s[begin] == QUOTE {
      var p := begin + 1;
      while p < |s|
        invariant begin < p <= |s|
        invariant p < |s| && s[p] == QUOTE ==> s[p - 1] != BACKSLASH
        invariant StringEndFrom(s, begin, p) == StringEndFrom(s, begin, begin + 1)
        decreases |s| - p
      {
        if s[p] == QUOTE {
          return Some(p + 1);
        }
        if s[p] == BACKSLASH && p + 1 < |s| && s[p + 1] == QUOTE {
          p := p + 1;
        }
        p := p + 1;
      }
    }
    end := None;
  }

  /** An apostrophe, an optional backslash, one byte and an apostrophe. */
  function CharLiteralEnd(s: seq<byte>, i: nat): (r: Option<nat>)
    requires i < |s|
    ensures r.Some? ==> i < r.value <= |s| && s[r.value - 1] == APOSTROPHE == s[i]
  {
    var n := if i + 1 < |s| && s[i + 1] == BACKSLASH then 3 else 2;
    if s[i] == APOSTROPHE && i + n < |s| && s[i + n] == APOSTROPHE then Some(i + n + 1) else None
  }

  method TokenizeCStyleCharacterLiteral(s: seq<byte>, begin: nat) returns (end: Option<nat>)
    requires begin < |s|
    ensures end == CharLiteralEnd(s, begin)
  {
    if s[begin] == APOSTROPHE {
      var p := begin + 1;
      if p < |s| && s[p] == BACKSLASH {
        p := p + 1;
      }
      if p < |s| {
        p := p + 1;
      }
      if p < |s| && s[p] == APOSTROPHE {
        return Some(p + 1);
      }
    }
    end := None;
  }

  function IdentifierEnd(s: seq<byte>, i: nat): (r: Option<nat>)
    requires i < |s|
    ensures r.Some? ==> i < r.value <= |s| && All(IdentifierChar, s, i, r.value) && !IsAt(IdentifierChar, s, r.value)
  {
    if Is(Letter, s[i]) then Some(Span(IdentifierChar, s, i + 1)) else None
  }

  method TokenizeCStyleIdentifier(s: seq<byte>, begin: nat) returns (end: Option<nat>)
    requires begin < |s|
    ensures end == IdentifierEnd(s, begin)
  {
    if Is(Letter, s[begin]) {
      var p := Skip(IdentifierChar, s, begin + 1);
      return Some(p);
    }
    end := None;
  }

  method TokenizeCStylePunctuation(s: seq<byte>, begin: nat) returns (end: Option<nat>)
    requires begin < |s|
    ensures end == if Is(PunctuationMark, s[begin]) then Some(begin + 1) else None
  {
    end := if Is(PunctuationMark, s[begin]) then Some(begin + 1) else None;
  }

  // ---------- One token ----------

  datatype Token = Token(begin: nat, end: nat, color: PaletteIndex)

  /** The token kinds in the order in which they are tried. */
  function TokenAt(s: seq<byte>, b: nat): (r: Option<Token>)
    requires b < |s|
    ensures r.Some? ==> b == r.value.begin < r.value.end <= |s|
  {
    if StringEnd(s, b).Some? then Some(Token(b, StringEnd(s, b).value, String))
    else if CharLiteralEnd(s, b).Some? then Some(Token(b, CharLiteralEnd(s, b).value, CharLiteral))
    else if IdentifierEnd(s, b).Some? then Some(Token(b, IdentifierEnd(s, b).value, Identifier))
    else if NumberEnd(s, b).Some? then Some(Token(b, NumberEnd(s, b).value, PaletteIndex.Number))
    else if Is(PunctuationMark, s[b]) then Some(Token(b, b + 1, Punctuation))
    else None
  }

  /** A byte of an identifier; the first one is no digit. */
  predicate InIdentifier(c: byte) {
    97 <= c <= 122 || 65 <= c <= 90 || 48 <= c <= 57 || c == 95
  }

  /** The text at `b` starts with a string up to `e`: it ends with the first quotation mark behind `b` that no
      backslash precedes. */
  predicate StringAt(s: seq<byte>, b: nat, e: nat) {
    && b + 1 < e <= |s| && s[b] == 34 && s[e - 1] == 34 && s[e - 2] != 92
    && forall k :: b < k < e - 1 && s[k] == 34 ==> s[k - 1] == 92
  }

  /** An apostrophe, one byte, or a backslash and one byte, and an apostrophe. */
  predicate CharLiteralAt(s: seq<byte>, b: nat, e: nat) {
    && b + 2 < e <= |s| && s[b] == 39 && s[e - 1] == 39
    && e == b + (if s[b + 1] == 92 then 4 else 3)
  }

  /** All bytes of an identifier there are. */
  predicate IdentifierAt(s: seq<byte>, b: nat, e: nat) {
    && b < e <= |s| && InIdentifier(s[b]) && !(48 <= s[b] <= 57)
    && (forall k :: b < k < e ==> InIdentifier(s[k]))
    && (e < |s| ==> !InIdentifier(s[e]))
  }

  /** The longest number at `b`, unless an exponent marker without digits follows its mantissa. */
  ghost predicate NumberAt(s: seq<byte>, b: nat, e: nat) {
    && b < |s|
    && Number(s, b, e)
    && (forall f: nat :: Number(s, b, f) ==> f <= e)
    && !DanglingExponent(s, b)
  }

  predicate PunctuationAt(s: seq<byte>, b: nat, e: nat) {
    b < |s| && e == b + 1 && InPunctuation(s[b])
  }

  predicate InPunctuation(c: byte) {
    c in {91, 93, 123, 125, 33, 37, 94, 38, 42, 40, 41, 45, 43, 61, 126, 124, 60, 62, 63, 58, 47, 59, 44, 46}
  }

  /** Each colour is given exactly to the text that has its form; punctuation that begins a number is part of
      the number. */
  lemma TokenMeans(s: seq<byte>, b: nat, e: nat)
    requires b < |s|
    ensures TokenAt(s, b) == Some(Token(b, e, String)) <==> StringAt(s, b, e)
    ensures TokenAt(s, b) == Some(Token(b, e, CharLiteral)) <==> CharLiteralAt(s, b, e)
    ensures TokenAt(s, b) == Some(Token(b, e, Identifier)) <==> IdentifierAt(s, b, e)
    ensures TokenAt(s, b) == Some(Token(b, e, PaletteIndex.Number)) <==> NumberAt(s, b, e)
    ensures TokenAt(s, b) == Some(Token(b, e, Punctuation)) <==>
            PunctuationAt(s, b, e) && !(exists f: nat :: NumberAt(s, b, f))
  {
    hide StringEnd, CharLiteralEnd, IdentifierEnd, NumberEnd, StringAt, CharLiteralAt, IdentifierAt, NumberAt, Is,
         InIdentifier, InPunctuation;
    StringMeans(s, b, e);
    CharLiteralMeans(s, b, e);
    IdentifierMeans(s, b, e);
    NumberMeans(s, b, e);
    FirstByte(s, b);
    PunctuationMeans(s[b]);
    if NumberEnd(s, b).Some? {
      NumberStarts(s, b);
    }
    if f: nat :| NumberAt(s, b, f) {
      NumberMeans(s, b, f);
    }
    if NumberEnd(s, b).Some? {
      NumberMeans(s, b, NumberEnd(s, b).value);
    }
  }

  lemma StringMeans(s: seq<byte>, b: nat, e: nat)
    requires b < |s|
    ensures StringEnd(s, b) == Some(e) <==> StringAt(s, b, e)
  {
    forall k | b < k < |s|
      ensures ClosesString(s, b, k) <==> s[k] == 34 && s[k - 1] != 92
    {
    }
    if StringAt(s, b, e) {
      assert ClosesString(s, b, e - 1);
      var r := StringEnd(s, b);
      assert ClosesString(s, b, r.value - 1);
    }
    if StringEnd(s, b) == Some(e) {
      assert ClosesString(s, b, e - 1);
      forall k | b < k < e - 1 && s[k] == 34
        ensures s[k - 1] == 92
      {
        assert !ClosesString(s, b, k);
      }
    }
  }

  lemma CharLiteralMeans(s: seq<byte>, b: nat, e: nat)
    requires b < |s|
    ensures CharLiteralEnd(s, b) == Some(e) <==> CharLiteralAt(s, b, e)
  {
  }

  lemma PunctuationMeans(c: byte)
    ensures Is(PunctuationMark, c) <==> InPunctuation(c)
    ensures InPunctuation(c) ==> c != 34 && c != 39 && !InIdentifier(c)
  {
  }

  /** No two kinds of token start with the same byte, but for the signs of numbers. */
  lemma FirstByte(s: seq<byte>, b: nat)
    requires b < |s|
    ensures StringEnd(s, b).Some? ==> s[b] == 34
    ensures CharLiteralEnd(s, b).Some? ==> s[b] == 39
    ensures IdentifierEnd(s, b).Some? ==> InIdentifier(s[b]) && !(48 <= s[b] <= 57)
  {
  }

  lemma IdentifierMeans(s: seq<byte>, b: nat, e: nat)
    requires b < |s|
    ensures IdentifierEnd(s, b) == Some(e) <==> IdentifierAt(s, b, e)
  {
    if IdentifierAt(s, b, e) {
      SpanIsLongest(IdentifierChar, s, b + 1, e);
    }
  }

  lemma NumberMeans(s: seq<byte>, b: nat, e: nat)
    requires b < |s|
    ensures NumberEnd(s, b) == Some(e) <==> NumberAt(s, b, e)
  {
    hide Number, DanglingExponent, NumberEnd;
    NumberRejected(s, b);
    if NumberEnd(s, b).Some? {
      NumberIsLongest(s, b, e);
    }
  }

  lemma NumberStarts(s: seq<byte>, b: nat)
    requires b < |s| && NumberEnd(s, b).Some?
    ensures s[b] == 43 || s[b] == 45 || 48 <= s[b] <= 57
  {
  }

  /** The callback: blanks are skipped; nothing but blanks is an empty token at the end. */
  function Tokenize(s: seq<byte>, i: nat): (r: Option<Token>)
    requires i <= |s|
    ensures r.Some? ==> i <= r.value.begin <= r.value.end <= |s| && (i < |s| ==> i < r.value.end)
  {
    var b := Span(Blank, s, i);
    if b == |s| then Some(Token(b, b, Default)) else TokenAt(s, b)
  }

  /** The token is the one at the first place that is no space and no tab, and at the end of the line there
      is an empty one. */
  lemma BlanksSkipped(s: seq<byte>, i: nat, b: nat)
    requires i <= b <= |s| && (forall k :: i <= k < b ==> s[k] == 32 || s[k] == 9)
    requires b < |s| ==> s[b] != 32 && s[b] != 9
    ensures Tokenize(s, i) == if b == |s| then Some(Token(b, b, Default)) else TokenAt(s, b)
  {
    hide TokenAt;
    SpanIsLongest(Blank, s, i, b);
  }

  method TokenizeFrom(s: seq<byte>, first: nat) returns (r: Option<Token>)
    requires first <= |s|
    ensures r == Tokenize(s, first)
  {
    hide Is, All, Span;
    var begin := Skip(Blank, s, first);
    if begin == |s| {
      return Some(Token(begin, begin, Default));
    }
    var end := TokenizeCStyleString(s, begin);
    if end.Some? {
      return Some(Token(begin, end.value, String));
    }
    end := TokenizeCStyleCharacterLiteral(s, begin);
    if end.Some? {
      return Some(Token(begin, end.value, CharLiteral));
    }
    end := TokenizeCStyleIdentifier(s, begin);
    if end.Some? {
      return Some(Token(begin, end.value, Identifier));
    }
    end := TokenizeCStyleNumber(s, begin);
    if end.Some? {
      return Some(Token(begin, end.value, PaletteIndex.Number));
    }
    end := TokenizeCStylePunctuation(s, begin);
    if end.Some? {
      return Some(Token(begin, end.value, Punctuation));
    }
    r := None;
  }
}
