/**
  `json_escape` of src/signaling.c: a bounded, in-place escaper that skips what does not fit
  and carries on.
 */
module Escape {
  import opened CStrings

  predicate Escapable(c: char) { c == '"' || c == '\\' || c == '\n' || c == '\r' || c == '\t' }

  /** The escapable characters other than the quote. */
  predicate Stubborn(c: char) { Escapable(c) && c != '"' }

  /** The letter that follows the backslash. */
  function Letter(c: char): char {
    if c == '\n' then 'n' else if c == '\r' then 'r' else if c == '\t' then 't' else c
  }

  function Width(c: char): nat { if Escapable(c) then 2 else 1 }

  function EscapeOf(c: char): (e: string)
    ensures |e| == Width(c)
  {
    if Escapable(c) then ['\\', Letter(c)] else [c]
  }

  /** The escape of a whole string, with no bound. */
  function FullEscape(s: string): string {
    if s == [] then [] else EscapeOf(s[0]) + FullEscape(s[1..])
  }

  /** What the loop writes when `room` more characters fit. */
  function BoundedEscape(s: string, room: nat): (r: string)
    ensures |r| <= room
  {
    if s == [] || room == 0 then []
    else if Width(s[0]) <= room then
      EscapeOf(s[0]) + BoundedEscape(s[1..], room - Width(s[0]))
    else BoundedEscape(s[1..], room)
  }

  /** `json_escape(in, out, out_size)`; returns the length written before the terminator. */
  method JsonEscape(input: string, out: array<char>) returns (n: nat)
    requires NulFree(input) && out.Length >= 1
    modifies out
    ensures n < out.Length && out[n] == NUL
    ensures out[..n] == BoundedEscape(input, out.Length - 1) == CStr(out[..])
    ensures forall k | n < k < out.Length :: out[k] == old(out[k])
  {
    ghost var goal := BoundedEscape(input, out.Length - 1);
    var i, j := 0, 0;
    assert input[0..] == input && goal[0..] == goal;
    OwedFrom(input, 0, out.Length - 1, goal, 0);
    while i < |input| && j < out.Length - 1
      invariant 0 <= i <= |input| && 0 <= j < out.Length && j <= |goal|
      invariant forall k | 0 <= k < j :: out[k] == goal[k]
      invariant StillOwed(input, i, out.Length - 1 - j, goal, j)
      invariant forall k | j <= k < out.Length :: out[k] == old(out[k])
    {
      if Escapable(input[i]) {
        if j + 2 < out.Length {
          out[j] := '\\';
          out[j + 1] := Letter(input[i]);
          j := j + 2;
        }
      } else {
        out[j] := input[i];
        j := j + 1;
      }
      i := i + 1;
    }
    out[j] := NUL;
    n := j;
    BoundedNulFree(input, out.Length - 1);
    Terminated(out[..], goal);
  }

  /**
    The loop still has to write `goal[j..]`: what the characters from `i` on produce when `room`
    more fit.
   */
  ghost predicate StillOwed(s: string, i: nat, room: nat, goal: string, j: nat)
    requires i <= |s| && j <= |goal|
    decreases |s| - i
  {
    if i == |s| || room == 0 then j == |goal|
    else if !Escapable(s[i]) then
      j < |goal| && goal[j] == s[i] && StillOwed(s, i + 1, room - 1, goal, j + 1)
    else if room >= 2 then
      && j + 1 < |goal| && goal[j] == '\\' && goal[j + 1] == Letter(s[i])
      && StillOwed(s, i + 1, room - 2, goal, j + 2)
    else StillOwed(s, i + 1, room, goal, j)
  }

  lemma {:induction false} OwedFrom(s: string, i: nat, room: nat, goal: string, j: nat)
    requires i <= |s| && j <= |goal| && goal[j..] == BoundedEscape(s[i..], room)
    ensures StillOwed(s, i, room, goal, j)
    decreases |s| - i
  {
    if i < |s| && room != 0 {
      var r := goal[j..];
      assert s[i..][1..] == s[i + 1..];
      if !Escapable(s[i]) {
        assert r[1..] == goal[j + 1..] && r[0] == goal[j];
        OwedFrom(s, i + 1, room - 1, goal, j + 1);
      } else if room >= 2 {
        assert r[2..] == goal[j + 2..] && r[0] == goal[j] && r[1] == goal[j + 1];
        OwedFrom(s, i + 1, room - 2, goal, j + 2);
      } else {
        OwedFrom(s, i + 1, room, goal, j);
      }
    }
  }

  lemma {:induction false} Terminated(buf: string, text: string)
    requires |text| < |buf| && NulFree(text) && buf[|text|] == NUL
    requires forall k | 0 <= k < |text| :: buf[k] == text[k]
    ensures buf[..|text|] == text == CStr(buf)
  {
    if text != [] {
      assert buf[0] == text[0];
      Terminated(buf[1..], text[1..]);
      assert text == [text[0]] + text[1..];
    }
  }

  lemma {:induction false} BoundedNulFree(s: string, room: nat)
    requires NulFree(s)
    ensures NulFree(BoundedEscape(s, room))
  {
    if s != [] && room != 0 {
      if Width(s[0]) <= room {
        BoundedNulFree(s[1..], room - Width(s[0]));
      } else {
        BoundedNulFree(s[1..], room);
      }
    }
  }

  lemma {:induction false} FullEscapeConcat(a: string, b: string)
    ensures FullEscape(a + b) == FullEscape(a) + FullEscape(b)
  {
    if a == [] {
      assert a + b == b;
    } else {
      assert (a + b)[1..] == a[1..] + b;
      FullEscapeConcat(a[1..], b);
      ConcatAssoc(EscapeOf(a[0]), FullEscape(a[1..]), FullEscape(b));
    }
  }

  lemma EscapeSingle(c: char)
    ensures FullEscape([c]) == EscapeOf(c)
  {
    assert [c][1..] == [];
    assert FullEscape([c][1..]) == [];
  }

  lemma {:induction false} FullEscapeGrows(s: string)
    ensures |FullEscape(s)| >= |s|
    ensures NulFree(s) ==> NulFree(FullEscape(s))
    ensures s != [] ==> FullEscape(s) != [] && FullEscape(s)[0] != '"'
  {
    if s != [] { FullEscapeGrows(s[1..]); }
  }

  lemma {:induction false} FullEscapePlain(s: string)
    requires forall c <- s :: !Escapable(c)
    ensures FullEscape(s) == s
  {
    if s != [] { FullEscapePlain(s[1..]); }
  }

  // ---------------------------------------------------------------- the exact shape of the output

  /** How many leading characters are escaped in full before the first one that does not fit. */
  function CutAt(s: string, room: nat): (p: nat)
    ensures p <= |s|
  {
    if s == [] || Width(s[0]) > room then 0
    else 1 + CutAt(s[1..], room - Width(s[0]))
  }

  /** The first ordinary character at or after `p`; `|s|` when there is none. */
  function NextPlain(s: string, p: nat): (q: nat)
    requires p <= |s|
    ensures p <= q <= |s|
    ensures forall k | p <= k < q :: Escapable(s[k])
    ensures q < |s| ==> !Escapable(s[q])
    decreases |s| - p
  {
    if p == |s| || !Escapable(s[p]) then p else NextPlain(s, p + 1)
  }

  /** What follows the cut: nothing, or the next ordinary character when one byte is left. */
  function Straggler(s: string, room: nat): (t: string) {
    var p := CutAt(s, room);
    var q := NextPlain(s, p);
    if |FullEscape(s[..p])| < room && q < |s| then [s[q]] else []
  }

  /** The cut is as late as the bound allows. */
  lemma {:induction false} CutIsLatest(s: string, room: nat)
    ensures var p := CutAt(s, room);
            && |FullEscape(s[..p])| <= room
            && (p < |s| ==> |FullEscape(s[..p])| + Width(s[p]) > room)
  {
    var p := CutAt(s, room);
    if p > 0 {
      CutIsLatest(s[1..], room - Width(s[0]));
      assert s[..p][1..] == s[1..][..p - 1];
    }
  }

  /** As long as it fits, the loop writes the full escape. */
  lemma {:induction false} BoundedAppend(a: string, b: string, room: nat)
    requires |FullEscape(a)| <= room
    ensures BoundedEscape(a + b, room) == FullEscape(a) + BoundedEscape(b, room - |FullEscape(a)|)
  {
    if a == [] {
      assert a + b == b;
    } else {
      assert (a + b)[1..] == a[1..] + b;
      BoundedAppend(a[1..], b, room - Width(a[0]));
      ConcatAssoc(EscapeOf(a[0]), FullEscape(a[1..]), BoundedEscape(b, room - |FullEscape(a)|));
    }
  }

  /** With at most one byte left, the loop skips to the next ordinary character. */
  lemma {:induction false} OneByteLeft(s: string, p: nat, room: nat)
    requires p <= |s| && room <= 1
    ensures BoundedEscape(s[p..], room) ==
            if room == 1 && NextPlain(s, p) < |s| then [s[NextPlain(s, p)]] else []
    decreases |s| - p
  {
    if p < |s| && room == 1 {
      assert s[p..][1..] == s[p + 1..];
      if Escapable(s[p]) {
        OneByteLeft(s, p + 1, 1);
      } else {
        assert BoundedEscape(s[p + 1..], 0) == [];
      }
    }
  }

  /**
    The output is the escape of the longest prefix that fits, followed by at most one later
    ordinary character; that character appears only when exactly one byte was left, and only
    escapable characters were skipped before it.  Something is cut iff the whole does not fit.
   */
  lemma BoundedShape(s: string, room: nat)
    ensures var p := CutAt(s, room);
            && BoundedEscape(s, room) == FullEscape(s[..p]) + Straggler(s, room)
            && (p == |s| <==> |FullEscape(s)| <= room)
            && |FullEscape(s[..p])| <= room
            && (p < |s| ==> room - 1 <= |FullEscape(s[..p])|)
            && (p < |s| && |FullEscape(s[..p])| < room ==> Escapable(s[p]))
  {
    var p := CutAt(s, room);
    CutIsLatest(s, room);
    assert s == s[..p] + s[p..];
    BoundedAppend(s[..p], s[p..], room);
    FullEscapeConcat(s[..p], s[p..]);
    if p < |s| {
      OneByteLeft(s, p, room - |FullEscape(s[..p])|);
      assert |FullEscape(s[p..])| >= Width(s[p]);
    } else {
      assert s[..p] == s;
    }
  }

  /** The bounded escape is the full escape exactly when that fits. */
  lemma {:induction false} BoundedIsFullIffFits(s: string, room: nat)
    ensures BoundedEscape(s, room) == FullEscape(s) <==> |FullEscape(s)| <= room
  {
    BoundedShape(s, room);
    assert s[..|s|] == s;
  }

  /** The two agree on every byte but possibly the last that fits. */
  lemma {:induction false} BoundedAgrees(s: string, room: nat)
    requires room < |FullEscape(s)|
    ensures room - 1 <= |BoundedEscape(s, room)|
    ensures room >= 1 ==> BoundedEscape(s, room)[..room - 1] == FullEscape(s)[..room - 1]
  {
    BoundedShape(s, room);
    var p := CutAt(s, room);
    assert s == s[..p] + s[p..];
    FullEscapeConcat(s[..p], s[p..]);
  }
}
