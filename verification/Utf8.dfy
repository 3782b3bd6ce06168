/** Bytes and UTF-8 code sequences as the editor sees them. */
module Utf8 {

  type byte = x: int | 0 <= x < 256

  const TAB: byte := 9
  const NEWLINE: byte := 10
  const RETURN: byte := 13
  const SPACE: byte := 32

  /** Length of the code sequence announced by a lead byte; includes the 5- and 6-byte
      forms of section 2 of RFC 2279, and answers 1 for every other byte. */
  function UTF8CharLength(c: byte): (n: nat)
    ensures 1 <= n <= 6
  {
    if 0xFC <= c <= 0xFD then 6
    else if 0xF8 <= c <= 0xFB then 5
    else if 0xF0 <= c <= 0xF7 then 4
    else if 0xE0 <= c <= 0xEF then 3
    else if 0xC0 <= c <= 0xDF then 2
    else 1
  }

  /** A continuation byte 10xxxxxx. */
  predicate IsUTFSequence(c: byte) {
    0x80 <= c < 0xC0
  }

  /** The source states both functions with bit masks; the ranges above are those masks. */
  lemma MasksAreRanges(b: bv8)
    ensures UTF8CharLength(b as byte) ==
            if b & 0xFE == 0xFC then 6
            else if b & 0xFC == 0xF8 then 5
            else if b & 0xF8 == 0xF0 then 4
            else if b & 0xF0 == 0xE0 then 3
            else if b & 0xE0 == 0xC0 then 2
            else 1
    ensures IsUTFSequence(b as byte) <==> b & 0xC0 == 0x80
  {
    assert b & 0xFE == 0xFC <==> 0xFC <= b <= 0xFD;
    assert b & 0xFC == 0xF8 <==> 0xF8 <= b <= 0xFB;
    assert b & 0xF8 == 0xF0 <==> 0xF0 <= b <= 0xF7;
    assert b & 0xF0 == 0xE0 <==> 0xE0 <= b <= 0xEF;
    assert b & 0xE0 == 0xC0 <==> 0xC0 <= b <= 0xDF;
    assert b & 0xC0 == 0x80 <==> 0x80 <= b <= 0xBF;
  }

  /** The lead byte at `i` is followed by its continuation bytes and by nothing else before
      the next lead byte. */
  predicate CompleteAt(s: seq<byte>, i: nat)
    requires i < |s|
  {
    var j := i + UTF8CharLength(s[i]);
    && j <= |s|
    && (forall k :: i < k < j ==> IsUTFSequence(s[k]))
    && (j < |s| ==> !IsUTFSequence(s[j]))
  }

  /** `s` is a concatenation of complete code sequences (FramedIsConcatenation). */
  predicate Framed(s: seq<byte>) {
    && (|s| > 0 ==> !IsUTFSequence(s[0]))
    && forall i {:trigger CompleteAt(s, i)} :: 0 <= i < |s| && !IsUTFSequence(s[i]) ==> CompleteAt(s, i)
  }

  /** `i` starts a code sequence or ends the string. */
  predicate Boundary(s: seq<byte>, i: int) {
    0 <= i <= |s| && (i < |s| ==> !IsUTFSequence(s[i]))
  }

  /** One complete code sequence. */
  predicate CodeSequence(c: seq<byte>) {
    && |c| > 0
    && !IsUTFSequence(c[0])
    && |c| == UTF8CharLength(c[0])
    && forall k :: 0 < k < |c| ==> IsUTFSequence(c[k])
  }

  function Concat(cs: seq<seq<byte>>): seq<byte> {
    if cs == [] then [] else cs[0] + Concat(cs[1..])
  }

  lemma CompleteInSlice(s: seq<byte>, i: nat, j: nat, k: nat)
    requires Framed(s) && i + k < j <= |s| && Boundary(s, j) && !IsUTFSequence(s[i + k])
    ensures CompleteAt(s[i..j], k)
  {
    assert CompleteAt(s, i + k);
    var n := UTF8CharLength(s[i + k]);
    assert i + k + n <= j;
    assert forall m :: k < m < k + n ==> s[i..j][m] == s[i + m];
  }

  lemma FramedSlice(s: seq<byte>, i: nat, j: nat)
    requires Framed(s) && i <= j && Boundary(s, i) && Boundary(s, j)
    ensures Framed(s[i..j])
  {
    var r := s[i..j];
    forall k | 0 <= k < |r| && !IsUTFSequence(r[k])
      ensures CompleteAt(r, k)
    {
      CompleteInSlice(s, i, j, k);
    }
  }

  lemma CompleteInConcat(a: seq<byte>, b: seq<byte>, k: nat)
    requires Framed(a) && Framed(b) && k < |a + b| && !IsUTFSequence((a + b)[k])
    ensures CompleteAt(a + b, k)
  {
    var r := a + b;
    if k < |a| {
      assert CompleteAt(a, k);
      assert forall m :: k < m < k + UTF8CharLength(a[k]) ==> r[m] == a[m];
    } else {
      assert CompleteAt(b, k - |a|);
      assert forall m :: k < m < k + UTF8CharLength(r[k]) ==> r[m] == b[m - |a|];
    }
  }

  lemma FramedConcat(a: seq<byte>, b: seq<byte>)
    requires Framed(a) && Framed(b)
    ensures Framed(a + b)
    ensures Boundary(a + b, |a|)
  {
    forall k | 0 <= k < |a + b| && !IsUTFSequence((a + b)[k])
      ensures CompleteAt(a + b, k)
    {
      CompleteInConcat(a, b, k);
    }
  }

  lemma NextBoundary(s: seq<byte>, i: nat)
    requires Framed(s) && Boundary(s, i) && i < |s|
    ensures Boundary(s, i + UTF8CharLength(s[i]))
    ensures forall j :: i < j < i + UTF8CharLength(s[i]) ==> !Boundary(s, j)
    ensures CodeSequence(s[i..i + UTF8CharLength(s[i])])
  {
    assert CompleteAt(s, i);
  }

  /** A framed string is exactly a concatenation of complete code sequences. */
  lemma {:induction false} FramedIsConcatenation(s: seq<byte>)
    ensures Framed(s) <==>
            exists cs: seq<seq<byte>> :: AllSequences(cs) && Concat(cs) == s
  {
    if Framed(s) {
      var cs := CodeSequences(s);
    }
    forall cs: seq<seq<byte>> | AllSequences(cs) && Concat(cs) == s
      ensures Framed(s)
    {
      ConcatFramed(cs);
    }
  }

  lemma FirstSequence(s: seq<byte>) returns (n: nat)
    requires Framed(s) && s != []
    ensures 0 < n <= |s| && CodeSequence(s[..n]) && Framed(s[n..])
  {
    n := UTF8CharLength(s[0]);
    NextBoundary(s, 0);
    FramedSlice(s, n, |s|);
    assert s[n..|s|] == s[n..] && s[0..n] == s[..n];
  }

  ghost predicate AllSequences(cs: seq<seq<byte>>) {
    forall c :: c in cs ==> CodeSequence(c)
  }

  lemma PrependSequence(c: seq<byte>, rest: seq<seq<byte>>)
    requires CodeSequence(c) && AllSequences(rest)
    ensures AllSequences([c] + rest)
    ensures Concat([c] + rest) == c + Concat(rest)
  {
    assert ([c] + rest)[1..] == rest;
  }

  lemma {:induction false} CodeSequences(s: seq<byte>) returns (cs: seq<seq<byte>>)
    requires Framed(s)
    ensures AllSequences(cs) && Concat(cs) == s
  {
    if s == [] {
      cs := [];
    } else {
      var n := FirstSequence(s);
      var rest := CodeSequences(s[n..]);
      cs := [s[..n]] + rest;
      PrependSequence(s[..n], rest);
      assert s == s[..n] + s[n..];
    }
  }

  lemma CodeSequenceFramed(c: seq<byte>)
    requires CodeSequence(c)
    ensures Framed(c)
  {
    assert CompleteAt(c, 0);
    assert forall k :: 0 < k < |c| ==> IsUTFSequence(c[k]);
  }

  lemma {:induction false} ConcatFramed(cs: seq<seq<byte>>)
    requires AllSequences(cs)
    ensures Framed(Concat(cs))
  {
    if cs != [] {
      ConcatFramed(cs[1..]);
      CodeSequenceFramed(cs[0]);
      FramedConcat(cs[0], Concat(cs[1..]));
    }
  }

  /** Where the code sequence before `i` starts: step back over continuation bytes. */
  function PreviousBoundary(s: seq<byte>, i: nat): (k: nat)
    requires 0 < i <= |s|
    ensures k < i
    ensures forall j :: k < j < i ==> IsUTFSequence(s[j])
    ensures k == 0 || !IsUTFSequence(s[k])
  {
    if i == 1 || !IsUTFSequence(s[i - 1]) then i - 1 else PreviousBoundary(s, i - 1)
  }

  /** Stepping back over continuation bytes inverts one step forward by UTF8CharLength. */
  lemma PreviousOfNext(s: seq<byte>, i: nat)
    requires Framed(s) && Boundary(s, i) && 0 < i
    ensures var k := PreviousBoundary(s, i);
            Boundary(s, k) && k + UTF8CharLength(s[k]) == i
  {
    var k := PreviousBoundary(s, i);
    assert Boundary(s, k);
    NextBoundary(s, k);
  }

  lemma NextOfPrevious(s: seq<byte>, i: nat)
    requires Framed(s) && Boundary(s, i) && i < |s|
    ensures i + UTF8CharLength(s[i]) <= |s|
    ensures PreviousBoundary(s, i + UTF8CharLength(s[i])) == i
  {
    assert CompleteAt(s, i);
    PreviousUnique(s, i, i + UTF8CharLength(s[i]));
  }

  lemma {:induction false} PreviousUnique(s: seq<byte>, k: nat, i: nat)
    requires k < i <= |s| && !IsUTFSequence(s[k])
    requires forall j :: k < j < i ==> IsUTFSequence(s[j])
    ensures PreviousBoundary(s, i) == k
    decreases i
  {
    if i > k + 1 {
      assert IsUTFSequence(s[i - 1]);
      PreviousUnique(s, k, i - 1);
    }
  }

  // ---------- Encoding one character ----------

  /** A 16-bit ImWchar. */
  type wchar = x: int | 0 <= x < 0x10000

  /** The bytes written for one character; empty when the character is refused. */
  function ImTextCharToUtf8(c: wchar): (r: seq<byte>) {
    if c < 0x80 then [c]
    else if c < 0x800 then [0xC0 + c / 64, 0x80 + c % 64]
    else if 0xDC00 <= c < 0xE000 then []
    else if 0xD800 <= c < 0xDC00 then
      [0xF0 + c / 0x40000, 0x80 + c / 0x1000 % 64, 0x80 + c / 64 % 64, 0x80 + c % 64]
    else [0xE0 + c / 0x1000, 0x80 + c / 64 % 64, 0x80 + c % 64]
  }

  /** The payload bits of a code sequence, as laid out in section 3 of RFC 3629. */
  function Payload(s: seq<byte>): nat
    requires 1 <= |s| <= 4 && CodeSequence(s)
  {
    var bits := k requires 0 < k < |s| => s[k] as int - 0x80;
    match |s|
    case 1 => s[0]
    case 2 => (s[0] as int - 0xC0) * 64 + bits(1)
    case 3 => (s[0] as int - 0xE0) * 0x1000 + bits(1) * 64 + bits(2)
    case _ => (s[0] as int - 0xF0) * 0x40000 + bits(1) * 0x1000 + bits(2) * 64 + bits(3)
  }

  /** Typed characters become one complete code sequence that carries the character; only the
      trailing surrogates are refused. */
  lemma EncodingRoundTrip(c: wchar)
    ensures ImTextCharToUtf8(c) == [] <==> 0xDC00 <= c < 0xE000
    ensures var r := ImTextCharToUtf8(c);
            r != [] ==> |r| <= 4 && CodeSequence(r) && Framed(r) && Payload(r) == c
  {
    var r := ImTextCharToUtf8(c);
    assert c == c / 64 * 64 + c % 64;
    assert c / 64 == c / 0x1000 * 64 + c / 64 % 64;
    assert c / 0x1000 == c / 0x40000 * 64 + c / 0x1000 % 64;
    if r != [] {
      assert CodeSequence(r);
      CodeSequenceFramed(r);
    }
  }
}
