/**
  The hand-written unescape loops of `webrtc_handle_signaling` (src/webrtc.cpp).  They undo the
  escaped quote only; every other escape stays as two characters.
 */
module Unescape {
  import opened CStrings
  import opened Escape

  /** What the loop collects when its pointer stands at the start of `s`. */
  function Unescaped(s: string): string {
    if s == [] || s[0] == NUL || s[0] == '"' then []
    else if s[0] == '\\' && |s| > 1 && s[1] == '"' then ['"'] + Unescaped(s[2..])
    else [s[0]] + Unescaped(s[1..])
  }

  /** The loop itself, over the text of the message from `start` on. */
  method UnescapeLoop(data: string, start: nat) returns (text: string)
    requires start <= |data|
    ensures text == Unescaped(data[start..])
  {
    text := [];
    var p := start;
    while p < |data| && data[p] != NUL && data[p] != '"'
      invariant start <= p <= |data|
      invariant Unescaped(data[start..]) == text + Unescaped(data[p..])
    {
      assert data[p..][1..] == data[p + 1..];
      if data[p] == '\\' && p + 1 < |data| && data[p + 1] == '"' {
        assert data[p..][2..] == data[p + 2..];
        ConcatAssoc(text, ['"'], Unescaped(data[p + 2..]));
        text := text + ['"'];
        p := p + 1;
      } else {
        ConcatAssoc(text, [data[p]], Unescaped(data[p + 1..]));
        text := text + [data[p]];
      }
      p := p + 1;
    }
    assert Unescaped(data[p..]) == [];
  }

  // ---------------------------------------------------------------- every text

  /** A quote that ends the text: it does not stand right behind a backslash. */
  predicate Bare(s: string, p: nat) {
    p < |s| && s[p] == '"' && (p == 0 || s[p - 1] != '\\')
  }

  /** The text ends at `p`: at the first NUL or bare quote, or with the string. */
  ghost predicate EndsAt(s: string, p: nat) {
    && p <= |s| && (p < |s| ==> s[p] == NUL || Bare(s, p))
    && forall j: nat | j < p :: s[j] != NUL && !Bare(s, j)
  }

  /** The string without the backslashes that stand before a quote. */
  function WithoutGuards(t: string): string {
    if t == [] then []
    else (if t[0] == '\\' && |t| > 1 && t[1] == '"' then [] else [t[0]]) + WithoutGuards(t[1..])
  }

  /**
    What the loop returns for any string whatever: everything before the first NUL or bare quote,
    less the backslashes that stand before a quote.
   */
  lemma {:induction false} TextIsUpToBareQuote(s: string) returns (p: nat)
    ensures EndsAt(s, p) && Unescaped(s) == WithoutGuards(s[..p])
  {
    if s == [] || s[0] == NUL || s[0] == '"' {
      p := 0;
    } else {
      var n := if s[0] == '\\' && |s| > 1 && s[1] == '"' then 2 else 1;
      var q := TextIsUpToBareQuote(s[n..]);
      p := n + q;
      EndsLater(s, n, q);
      HeadWithoutGuards(s, n, q);
    }
  }

  lemma HeadWithoutGuards(s: string, n: nat, q: nat)
    requires s != [] && s[0] != '"'
    requires n == (if s[0] == '\\' && |s| > 1 && s[1] == '"' then 2 else 1) && q <= |s[n..]|
    ensures WithoutGuards(s[..n + q]) == [s[n - 1]] + WithoutGuards(s[n..][..q])
  {
    var t := s[..n + q];
    if n == 1 {
      assert t[1..] == s[1..][..q];
    } else {
      assert t[1..][1..] == s[2..][..q];
      assert t[1..][0] == '"';
    }
  }

  lemma EndsLater(s: string, n: nat, q: nat)
    requires s != [] && s[0] != NUL && s[0] != '"'
    requires n == if s[0] == '\\' && |s| > 1 && s[1] == '"' then 2 else 1
    requires EndsAt(s[n..], q)
    ensures EndsAt(s, n + q)
  {
    forall j: nat | n <= j < |s| ensures Bare(s, j) == Bare(s[n..], j - n) {}
    forall j: nat | j < n + q ensures s[j] != NUL && !Bare(s, j) {
      if j >= n { assert s[n..][j - n] != NUL && !Bare(s[n..], j - n); }
    }
  }

  /** The payload as the loop returns it: each stubborn character as its two-character escape. */
  function HalfDecoded(s: string): (r: string)
    ensures |r| >= |s|
  {
    if s == [] then []
    else (if s[0] == '"' then "\"" else EscapeOf(s[0])) + HalfDecoded(s[1..])
  }

  /** Free of the four characters that do not come back. */
  predicate StubbornFree(s: string) {
    forall c <- s :: c != '\\' && c != '\n' && c != '\r' && c != '\t'
  }

  /** Half-decoding is the identity exactly on payloads without backslash, LF, CR and TAB. */
  lemma {:induction false} HalfDecodedIdentity(s: string)
    ensures HalfDecoded(s) == s <==> StubbornFree(s)
    ensures !StubbornFree(s) ==> |HalfDecoded(s)| > |s|
  {
    if s != [] {
      HalfDecodedIdentity(s[1..]);
      assert s == [s[0]] + s[1..];
      assert forall c <- s[1..] :: c in s;
      if StubbornFree(s) {
        assert s[0] in s;
        assert HalfDecoded(s[1..]) == s[1..];
      }
    }
  }

  lemma {:induction false} HalfDecodedConcat(a: string, b: string)
    ensures HalfDecoded(a + b) == HalfDecoded(a) + HalfDecoded(b)
  {
    if a == [] {
      assert a + b == b;
    } else {
      assert (a + b)[1..] == a[1..] + b;
      HalfDecodedConcat(a[1..], b);
      ConcatAssoc(HalfDecoded([a[0]]), HalfDecoded(a[1..]), HalfDecoded(b));
      assert [a[0]][1..] == [];
      assert HalfDecoded([a[0]]) == if a[0] == '"' then "\"" else EscapeOf(a[0]);
    }
  }

  /** One escaped character is half-decoded, unless it is a backslash run into a quote. */
  lemma UnescapeChar(c: char, r: string)
    requires c != NUL
    requires c == '\\' ==> r == [] || r[0] != '"'
    ensures Unescaped(EscapeOf(c) + r) == HalfDecoded([c]) + Unescaped(r)
  {
    var e := EscapeOf(c);
    assert [c][1..] == [] && HalfDecoded([c]) == if c == '"' then "\"" else e;
    assert (e + r)[|e|..] == r;
    if Stubborn(c) { UnescapeStubborn(c, r); }
  }

  lemma UnescapeStubborn(c: char, r: string)
    requires Stubborn(c)
    requires c == '\\' ==> r == [] || r[0] != '"'
    ensures Unescaped(EscapeOf(c) + r) == EscapeOf(c) + Unescaped(r)
  {
    var second := [Letter(c)];
    UnescapeOrdinary(Letter(c), r);
    UnescapeOrdinary('\\', second + r);
    ConcatAssoc(['\\'], second, r);
    ConcatAssoc(['\\'], second, Unescaped(r));
    assert EscapeOf(c) == ['\\'] + second;
  }

  /** A character that neither ends the text nor starts an escaped quote is copied. */
  lemma UnescapeOrdinary(x: char, r: string)
    requires x != NUL && x != '"' && (x == '\\' ==> r == [] || r[0] != '"')
    ensures Unescaped([x] + r) == [x] + Unescaped(r)
  {
    assert ([x] + r)[1..] == r;
  }

  /** Escaped text followed by anything that cannot capture a final backslash. */
  lemma {:induction false} UnescapeText(s: string, rest: string)
    requires NulFree(s)
    requires s != [] && s[|s| - 1] == '\\' ==> rest == [] || rest[0] != '"'
    ensures Unescaped(FullEscape(s) + rest) == HalfDecoded(s) + Unescaped(rest)
  {
    if s == [] {
      assert FullEscape(s) + rest == rest;
    } else {
      var r := FullEscape(s[1..]) + rest;
      UnescapeText(s[1..], rest);
      ConcatAssoc(EscapeOf(s[0]), FullEscape(s[1..]), rest);
      FullEscapeGrows(s[1..]);
      if s[1..] == [] { assert r == rest; } else { assert r[0] == FullEscape(s[1..])[0]; }
      UnescapeChar(s[0], r);
      assert s == [s[0]] + s[1..];
      HalfDecodedConcat([s[0]], s[1..]);
      ConcatAssoc(HalfDecoded([s[0]]), HalfDecoded(s[1..]), Unescaped(rest));
    }
  }

  predicate EndsInBackslash(s: string) { s != [] && s[|s| - 1] == '\\' }

  /** What the loop returns for the escape of `s`, a closing quote and `tail`. */
  function Decoded(s: string, tail: string): string {
    if EndsInBackslash(s)
    then HalfDecoded(s[..|s| - 1]) + "\\\"" + Unescaped(tail)
    else HalfDecoded(s)
  }

  /**
    The law of the decoder: it stops at the closing quote and returns the half-decoded payload,
    unless the payload ends in a backslash, when it takes the quote for an escaped one and reads
    on into the tail.
   */
  lemma UnescapeLaw(s: string, tail: string)
    requires NulFree(s)
    ensures Unescaped(FullEscape(s) + "\"" + tail) == Decoded(s, tail)
  {
    ConcatAssoc(FullEscape(s), "\"", tail);
    var rest := "\"" + tail;
    if !EndsInBackslash(s) {
      UnescapeText(s, rest);
      assert HalfDecoded(s) + [] == HalfDecoded(s);
    } else {
      FinalBackslash(s, tail);
    }
  }

  lemma FinalBackslash(s: string, tail: string)
    requires NulFree(s) && EndsInBackslash(s)
    ensures Unescaped(FullEscape(s) + ("\"" + tail)) == Decoded(s, tail)
  {
    var n, rest := |s| - 1, "\"" + tail;
    assert s == s[..n] + ['\\'];
    FullEscapeConcat(s[..n], ['\\']);
    EscapeSingle('\\');
    var after := "\\\\" + rest;
    ConcatAssoc(FullEscape(s[..n]), "\\\\", rest);
    UnescapeText(s[..n], after);
    BackslashTakesQuote(tail);
    ConcatAssoc(HalfDecoded(s[..n]), "\\\"", Unescaped(tail));
  }

  /** The second of two backslashes before the closing quote captures it. */
  lemma BackslashTakesQuote(tail: string)
    ensures Unescaped("\\\\" + ("\"" + tail)) == "\\\"" + Unescaped(tail)
  {
    var after := "\\\\" + ("\"" + tail);
    assert after[1..][2..] == tail;
    assert Unescaped(after) == "\\" + Unescaped(after[1..]);
    assert Unescaped(after[1..]) == "\"" + Unescaped(tail);
  }

  /** Decoding returns the payload exactly when it has no backslash, LF, CR or TAB. */
  lemma UnescapeIsIdentityIff(s: string, tail: string)
    requires NulFree(s)
    ensures Unescaped(FullEscape(s) + "\"" + tail) == s <==> StubbornFree(s)
  {
    UnescapeLaw(s, tail);
    HalfDecodedIdentity(s);
    if EndsInBackslash(s) {
      assert |Decoded(s, tail)| > |s|;
      assert s[|s| - 1] in s;
    }
  }

  // ---------------------------------------------------------------- cut messages

  /** What the loop returns for escaped text cut after `m` bytes. */
  function CutText(s: string, m: nat): string {
    var k := CutAt(s, m);
    HalfDecoded(s[..k]) + (if |FullEscape(s[..k])| == m then [] else "\\")
  }

  /**
    When the text is cut after `m` bytes the loop still returns a half-decoded prefix, followed
    by one stray backslash when the cut fell inside an escape.
   */
  lemma {:induction false} UnescapeCut(s: string, m: nat)
    requires NulFree(s) && m <= |FullEscape(s)|
    ensures Unescaped(FullEscape(s)[..m]) == CutText(s, m)
    ensures var k := CutAt(s, m);
            |FullEscape(s[..k])| == m || (|FullEscape(s[..k])| == m - 1 && k < |s| && Escapable(s[k]))
  {
    var k := CutAt(s, m);
    CutIsLatest(s, m);
    assert s == s[..k] + s[k..];
    var e, r := FullEscape(s[..k]), FullEscape(s[k..]);
    FullEscapeConcat(s[..k], s[k..]);
    assert s[..k] == s || k < |s|;
    if k < |s| {
      assert r == EscapeOf(s[k]) + FullEscape(s[k..][1..]);
    }
    var rest := r[..m - |e|];
    assert FullEscape(s)[..m] == e + rest;
    assert |rest| <= 1 && (rest != [] ==> rest == "\\");
    UnescapeText(s[..k], rest);
    assert rest != [] ==> rest[1..] == [] && Unescaped(rest) == "\\";
  }

  // ---------------------------------------------------------------- payloads that a cut leaves whole

  function Backslashes(n: nat): (b: string)
    ensures |b| == n && forall i | 0 <= i < n :: b[i] == '\\'
  {
    seq(n, _ => '\\')
  }

  function TrailingBackslashes(s: string): (n: nat)
    ensures n <= |s| && forall i | |s| - n <= i < |s| :: s[i] == '\\'
    ensures n < |s| ==> s[|s| - n - 1] != '\\'
  {
    if s == [] || s[|s| - 1] != '\\' then 0 else 1 + TrailingBackslashes(s[..|s| - 1])
  }

  function LeadingBackslashes(s: string): (n: nat)
    ensures n <= |s| && forall i | 0 <= i < n :: s[i] == '\\'
    ensures n < |s| ==> s[n] != '\\'
  {
    if s == [] || s[0] != '\\' then 0 else 1 + LeadingBackslashes(s[1..])
  }

  /** The payload without the backslashes it ends in. */
  function Stem(s: string): string { s[..|s| - TrailingBackslashes(s)] }

  /**
    The payload comes through `m` bytes of its escape: because it is free of the four characters
    and fits, or because its doubled final backslashes are cut exactly in half.
   */
  predicate ComesThrough(s: string, m: nat) {
    || (StubbornFree(s) && |FullEscape(s)| <= m)
    || (EndsInBackslash(s) && StubbornFree(Stem(s)) && |FullEscape(Stem(s))| + TrailingBackslashes(s) == m)
  }

  lemma {:induction false} EscapeBackslashes(n: nat)
    ensures FullEscape(Backslashes(n)) == Backslashes(2 * n)
  {
    if n > 0 {
      assert Backslashes(n)[1..] == Backslashes(n - 1);
      EscapeBackslashes(n - 1);
      assert EscapeOf('\\') + Backslashes(2 * n - 2) == Backslashes(2 * n);
    }
  }

  lemma {:induction false} UnescapeBackslashes(n: nat, rest: string)
    requires rest == [] || rest[0] != '"'
    ensures Unescaped(Backslashes(n) + rest) == Backslashes(n) + Unescaped(rest)
  {
    if n == 0 {
      assert Backslashes(0) + rest == rest;
    } else {
      var b := Backslashes(n - 1);
      assert Backslashes(n) == ['\\'] + b;
      ConcatAssoc(['\\'], b, rest);
      UnescapeBackslashes(n - 1, rest);
      UnescapeOrdinary('\\', b + rest);
      ConcatAssoc(['\\'], b, Unescaped(rest));
    }
  }

  /** A payload that starts with a backslash comes through only as backslashes cut in half. */
  lemma BackslashRun(s: string, m: nat)
    requires NulFree(s) && s != [] && s[0] == '\\' && m <= |FullEscape(s)|
    ensures Unescaped(FullEscape(s)[..m]) == s <==> s == Backslashes(|s|) && m == |s|
  {
    var r := LeadingBackslashes(s);
    assert s == Backslashes(r) + s[r..];
    if m <= 2 * r { CutInsideRun(r, s[r..], m); } else { CutBehindRun(r, s[r..], m); }
  }

  lemma EscapeRun(r: nat, q: string)
    ensures FullEscape(Backslashes(r) + q) == Backslashes(2 * r) + FullEscape(q)
  {
    FullEscapeConcat(Backslashes(r), q);
    EscapeBackslashes(r);
  }

  lemma CutInsideRun(r: nat, q: string, m: nat)
    requires m <= 2 * r
    ensures m <= |FullEscape(Backslashes(r) + q)|
    ensures Unescaped(FullEscape(Backslashes(r) + q)[..m]) == Backslashes(m)
  {
    EscapeRun(r, q);
    assert FullEscape(Backslashes(r) + q)[..m] == Backslashes(m) + [];
    UnescapeBackslashes(m, []);
    assert Backslashes(m) + [] == Backslashes(m);
  }

  lemma CutBehindRun(r: nat, q: string, m: nat)
    requires r > 0 && (q == [] || q[0] != '\\') && 2 * r < m <= |FullEscape(Backslashes(r) + q)|
    ensures Unescaped(FullEscape(Backslashes(r) + q)[..m]) != Backslashes(r) + q
    ensures Backslashes(r) + q != Backslashes(r + |q|)
  {
    EscapeRun(r, q);
    FullEscapeGrows(q);
    var z := FullEscape(q)[..m - 2 * r];
    assert FullEscape(Backslashes(r) + q)[..m] == Backslashes(2 * r) + z;
    UnescapeBackslashes(2 * r, z);
    assert (Backslashes(2 * r) + Unescaped(z))[r] == '\\';
    assert q != [] && (Backslashes(r) + q)[r] == q[0];
  }

  /** `ComesThrough` looks at a character that is not stubborn only through the width of its escape. */
  lemma ComesThroughStep(c: char, q: string, m: nat)
    requires !Stubborn(c)
    ensures ComesThrough([c] + q, m) <==> m >= Width(c) && ComesThrough(q, m - Width(c))
  {
    var s := [c] + q;
    assert s[1..] == q;
    TrailingStep(c, q);
    assert Stem(s) == [c] + Stem(q);
    assert Stem(s)[1..] == Stem(q);
    StubbornFreeStep(c, q);
    StubbornFreeStep(c, Stem(q));
  }

  lemma StubbornFreeStep(c: char, q: string)
    requires !Stubborn(c)
    ensures StubbornFree([c] + q) <==> StubbornFree(q)
  {
    if StubbornFree([c] + q) { assert forall x <- q :: x in [c] + q; }
  }

  lemma TrailingIs(s: string, n: nat)
    requires n <= |s| && (forall i | |s| - n <= i < |s| :: s[i] == '\\') && (n < |s| ==> s[|s| - n - 1] != '\\')
    ensures TrailingBackslashes(s) == n
  {}

  lemma TrailingStep(c: char, q: string)
    requires c != '\\'
    ensures TrailingBackslashes([c] + q) == TrailingBackslashes(q)
  {
    TrailingIs([c] + q, TrailingBackslashes(q));
  }

  /** Text cut after `m` bytes decodes to the payload exactly when the payload comes through them. */
  lemma {:induction false} CutIsIdentityIff(s: string, m: nat)
    requires NulFree(s) && m <= |FullEscape(s)|
    ensures Unescaped(FullEscape(s)[..m]) == s <==> ComesThrough(s, m)
  {
    if s == [] {
    } else if s[0] == '\\' {
      BackslashRun(s, m);
      StartsWithBackslash(s, m);
    } else if Stubborn(s[0]) {
      ControlStops(s, m);
    } else if m < Width(s[0]) {
      ComesThroughStep(s[0], s[1..], m);
      assert s == [s[0]] + s[1..];
      ShortCut(s, m);
    } else {
      CutIsIdentityIff(s[1..], m - Width(s[0]));
      FirstComesThrough(s, m);
    }
  }

  lemma FirstComesThrough(s: string, m: nat)
    requires NulFree(s) && s != [] && !Stubborn(s[0]) && Width(s[0]) <= m <= |FullEscape(s)|
    ensures (Unescaped(FullEscape(s)[..m]) == s) == (Unescaped(FullEscape(s[1..])[..m - Width(s[0])]) == s[1..])
    ensures ComesThrough(s, m) == ComesThrough(s[1..], m - Width(s[0]))
  {
    var c, q := s[0], s[1..];
    assert s == [c] + q;
    ComesThroughStep(c, q, m);
    CutStep(c, q, m);
    SameHead(c, Unescaped(FullEscape(q)[..m - Width(c)]), q);
  }

  lemma SameHead(c: char, a: string, b: string)
    ensures [c] + a == [c] + b <==> a == b
  {
    assert ([c] + a)[1..] == a && ([c] + b)[1..] == b;
  }

  lemma CutStep(c: char, q: string, m: nat)
    requires c != NUL && !Stubborn(c) && Width(c) <= m <= Width(c) + |FullEscape(q)|
    ensures |FullEscape([c] + q)| == Width(c) + |FullEscape(q)|
    ensures Unescaped(FullEscape([c] + q)[..m]) == [c] + Unescaped(FullEscape(q)[..m - Width(c)])
  {
    var z := FullEscape(q)[..m - Width(c)];
    assert ([c] + q)[1..] == q;
    assert FullEscape([c] + q)[..m] == EscapeOf(c) + z;
    UnescapeChar(c, z);
    assert [c][1..] == [] && HalfDecoded([c]) == [c];
  }

  lemma StartsWithBackslash(s: string, m: nat)
    requires s != [] && s[0] == '\\'
    ensures ComesThrough(s, m) <==> s == Backslashes(|s|) && m == |s|
  {
    var n := TrailingBackslashes(s);
    assert s[0] in s;
    if n < |s| {
      assert Stem(s)[0] in Stem(s);
    } else {
      assert Stem(s) == [] && s == Backslashes(|s|);
    }
    if s == Backslashes(|s|) { TrailingIs(s, |s|); }
  }

  /** LF, CR and TAB come out as a backslash, however little is left of them. */
  lemma ControlStops(s: string, m: nat)
    requires s != [] && Stubborn(s[0]) && s[0] != '\\' && m <= |FullEscape(s)|
    ensures Unescaped(FullEscape(s)[..m]) != s && !ComesThrough(s, m)
  {
    var y := FullEscape(s)[..m];
    assert m >= 1 ==> y[0] == '\\' && (m >= 2 ==> y[1] == Letter(s[0]));
    assert s[0] in s;
    assert TrailingBackslashes(s) < |s|;
    assert Stem(s)[0] in Stem(s);
  }

  lemma ShortCut(s: string, m: nat)
    requires s != [] && m < Width(s[0]) && s[0] != '\\' && m <= |FullEscape(s)|
    ensures Unescaped(FullEscape(s)[..m]) != s
  {
    var y := FullEscape(s)[..m];
    assert m == 1 ==> y[0] == '\\';
  }

  /** Nothing with LF, CR or TAB in it comes through, at any length. */
  lemma ControlNeverComesThrough(s: string, m: nat, i: nat)
    requires i < |s| && Stubborn(s[i]) && s[i] != '\\'
    ensures !ComesThrough(s, m)
  {
    assert s[i] in s;
    if i < |s| - TrailingBackslashes(s) { assert Stem(s)[i] in Stem(s); }
  }
}
