/**
  Strings of section 7 of RFC 8259 and a conforming decoder, as the independent reference for
  what `json_escape` writes between the quotes.
 */
module JsonText {
  import opened CStrings
  import opened Escape
  import opened Subsequences

  predicate IsUnescaped(c: char) { c >= ' ' && c != '"' && c != '\\' }

  predicate IsHex(c: char) { '0' <= c <= '9' || 'a' <= c <= 'f' || 'A' <= c <= 'F' }

  function HexValue(c: char): (v: nat)
    requires IsHex(c)
    ensures v < 16
  {
    if c <= '9' then c as int - '0' as int
    else if c <= 'F' then c as int - 'A' as int + 10
    else c as int - 'a' as int + 10
  }

  /** The two-character escapes of the grammar and what they denote. */
  function ShortEscape(c: char): Option<char> {
    match c
    case '"' => Some('"')
    case '\\' => Some('\\')
    case '/' => Some('/')
    case 'b' => Some('\U{0008}')
    case 'f' => Some('\U{000C}')
    case 'n' => Some('\n')
    case 'r' => Some('\r')
    case 't' => Some('\t')
    case _ => None
  }

  predicate IsUnicodeEscape(s: string) {
    |s| >= 6 && s[0] == '\\' && s[1] == 'u' && forall k | 2 <= k < 6 :: IsHex(s[k])
  }

  function CodeUnit(s: string): nat
    requires IsUnicodeEscape(s)
  {
    ((HexValue(s[2]) * 16 + HexValue(s[3])) * 16 + HexValue(s[4])) * 16 + HexValue(s[5])
  }

  /** The text between the quotes of a JSON string. */
  predicate IsBody(s: string) {
    || s == []
    || (IsUnescaped(s[0]) && IsBody(s[1..]))
    || (|s| >= 2 && s[0] == '\\' && ShortEscape(s[1]).Some? && IsBody(s[2..]))
    || (IsUnicodeEscape(s) && IsBody(s[6..]))
  }

  predicate IsJsonString(t: string) {
    |t| >= 2 && t[0] == '"' && t[|t| - 1] == '"' && IsBody(t[1..|t| - 1])
  }

  function Prepend(a: string, r: Option<string>): Option<string> {
    if r.None? then None else Some(a + r.value)
  }

  /** The decoder; a `\u` escape naming a surrogate half is not decoded. */
  function Decode(s: string): Option<string> {
    if s == [] then Some([])
    else if IsUnescaped(s[0]) then Prepend([s[0]], Decode(s[1..]))
    else if |s| >= 2 && s[0] == '\\' && ShortEscape(s[1]).Some? then
      Prepend([ShortEscape(s[1]).value], Decode(s[2..]))
    else if IsUnicodeEscape(s) && !(0xD800 <= CodeUnit(s) < 0xE000) then
      Prepend([CodeUnit(s) as char], Decode(s[6..]))
    else None
  }

  /** Every backslash starts a pair and no quote stands outside one. */
  predicate Paired(s: string) {
    || s == []
    || (s[0] == '\\' && |s| >= 2 && Paired(s[2..]))
    || (s[0] != '\\' && s[0] != '"' && Paired(s[1..]))
  }

  /** No control character other than those `json_escape` knows. */
  predicate PrintableChar(c: char) { c >= ' ' || c == '\n' || c == '\r' || c == '\t' }

  predicate Printable(s: string) { forall c <- s :: PrintableChar(c) }

  // ---------------------------------------------------------------- what json_escape writes

  lemma CharPaired(c: char, r: string)
    requires Paired(r)
    ensures Paired(EscapeOf(c) + r)
  {
    var e := EscapeOf(c);
    assert (e + r)[|e|..] == r;
  }

  lemma {:induction false} EscapePaired(s: string)
    ensures Paired(FullEscape(s))
  {
    if s != [] {
      EscapePaired(s[1..]);
      CharPaired(s[0], FullEscape(s[1..]));
    }
  }

  lemma CharDecodes(c: char, r: string)
    ensures IsBody(EscapeOf(c) + r) <==> PrintableChar(c) && IsBody(r)
    ensures Decode(EscapeOf(c) + r) == if PrintableChar(c) then Prepend([c], Decode(r)) else None
  {
    var e := EscapeOf(c);
    assert (e + r)[|e|..] == r;
  }

  /** Escaped text is a JSON string, and decodes to the text, exactly when the text is printable. */
  lemma {:induction false} EscapeDecodes(s: string)
    ensures IsBody(FullEscape(s)) <==> Printable(s)
    ensures Decode(FullEscape(s)) == if Printable(s) then Some(s) else None
  {
    if s != [] {
      EscapeDecodes(s[1..]);
      CharDecodes(s[0], FullEscape(s[1..]));
      assert s == [s[0]] + s[1..];
      assert Printable(s) <==> PrintableChar(s[0]) && Printable(s[1..]);
    }
  }

  /** The characters of `s` that survive a bounded escape. */
  function Surviving(s: string, room: nat): string {
    s[..CutAt(s, room)] + Straggler(s, room)
  }

  /** What survives a bounded escape is a subsequence of the input. */
  lemma SurvivingIsSubsequence(s: string, room: nat)
    ensures Subsequence(Surviving(s, room), s)
  {
    var p := CutAt(s, room);
    StragglerIsSubsequence(s, room);
    SubsequenceRefl(s[..p]);
    SubsequenceConcat(s[..p], s[..p], Straggler(s, room), s[p..]);
    assert s == s[..p] + s[p..];
  }

  lemma StragglerIsSubsequence(s: string, room: nat)
    ensures Subsequence(Straggler(s, room), s[CutAt(s, room)..])
  {
    var p := CutAt(s, room);
    var q := NextPlain(s, p);
    if Straggler(s, room) != [] { SubsequencePick(s[q], s[p..], q - p); }
  }

  /** All of the input survives exactly when its full escape fits. */
  lemma SurvivingIsAllIffFits(s: string, room: nat)
    ensures Surviving(s, room) == s <==> |FullEscape(s)| <= room
  {
    var p := CutAt(s, room);
    BoundedShape(s, room);
    assert p < |s| ==> Surviving(s, room)[p..] == Straggler(s, room);
  }

  /** A bounded escape is the full escape of what survives it. */
  lemma BoundedEscapesSurviving(s: string, room: nat)
    ensures BoundedEscape(s, room) == FullEscape(Surviving(s, room))
  {
    BoundedShape(s, room);
    FullEscapePlain(Straggler(s, room));
    FullEscapeConcat(s[..CutAt(s, room)], Straggler(s, room));
  }

  /** For every input and bound, no quote is left unescaped and no backslash dangles. */
  lemma {:induction false} EscapedIsPaired(s: string, room: nat)
    ensures Paired(BoundedEscape(s, room))
  {
    BoundedEscapesSurviving(s, room);
    EscapePaired(Surviving(s, room));
  }

  /**
    In quotes, the output is a JSON string exactly when no other control character survives, and a
    conforming decoder then returns exactly the surviving characters.
   */
  lemma EscapedIsJson(s: string, room: nat)
    ensures IsJsonString("\"" + BoundedEscape(s, room) + "\"") <==> Printable(Surviving(s, room))
    ensures Decode(BoundedEscape(s, room)) ==
            if Printable(Surviving(s, room)) then Some(Surviving(s, room)) else None
  {
    var b := BoundedEscape(s, room);
    BoundedEscapesSurviving(s, room);
    EscapeDecodes(Surviving(s, room));
    var quoted := "\"" + b + "\"";
    assert quoted[1..|quoted| - 1] == b;
  }
}
