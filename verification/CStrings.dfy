/**
  C strings, bounded copies, substring search and the `viewer_%d` identifiers.

  A buffer is a `string`; the C string it holds ends at the first NUL.  Characters stand for
  bytes; every statement below holds for all of them.
 */
module CStrings {
  import opened Division

  const NUL: char := '\0'

  datatype Option<+T> = None | Some(value: T)

  predicate NulFree(s: string) { NUL !in s }

  /** The C string stored at the start of `buf`. */
  function CStr(buf: string): (s: string)
    ensures NulFree(s) && s <= buf
    ensures |s| < |buf| ==> buf[|s|] == NUL
    ensures NulFree(buf) ==> s == buf
  {
    if buf == [] || buf[0] == NUL then [] else [buf[0]] + CStr(buf[1..])
  }

  /** What a bounded copy keeps: at most `n` characters. */
  function Take(s: string, n: nat): (r: string)
    ensures r <= s && |r| == if |s| < n then |s| else n
  {
    if |s| <= n then s else s[..n]
  }

  lemma ConcatAssoc(a: string, b: string, c: string)
    ensures a + (b + c) == (a + b) + c
  {}

  predicate MatchAt(h: string, k: nat, n: string) {
    k + |n| <= |h| && forall i | 0 <= i < |n| :: h[k + i] == n[i]
  }

  predicate Contains(h: string, n: string) { StrStr(h, n, 0).Some? }

  predicate EndsWith(s: string, e: string) {
    |e| <= |s| && MatchAt(s, |s| - |e|, e)
  }

  /** `strstr`, started at `from`: the first position at or after `from` where `n` occurs. */
  function StrStr(h: string, n: string, from: nat): (r: Option<nat>)
    requires from <= |h|
    ensures r.Some? ==> from <= r.value <= |h| && MatchAt(h, r.value, n)
    ensures r.Some? ==> forall k: nat | from <= k < r.value :: !MatchAt(h, k, n)
    ensures r.None? ==> forall k: nat | from <= k :: !MatchAt(h, k, n)
    decreases |h| - from
  {
    if MatchAt(h, from, n) then Some(from)
    else if from == |h| then None
    else StrStr(h, n, from + 1)
  }

  // ---------------------------------------------------------------- decimal numbers

  predicate IsDigit(c: char) { '0' <= c <= '9' }

  function DigitChar(d: nat): (c: char)
    requires d < 10
    ensures IsDigit(c) && DigitValue(c) == d
  {
    ('0' as int + d) as char
  }

  function DigitValue(c: char): (d: nat)
    requires IsDigit(c)
    ensures d < 10
  {
    c as int - '0' as int
  }

  /** `%d` for a non-negative argument. */
  function PrintNat(n: nat): (s: string)
    ensures s != [] && forall c <- s :: IsDigit(c)
  {
    if n < 10 then [DigitChar(n)] else PrintNat(n / 10) + [DigitChar(n % 10)]
  }

  /** The length of the longest prefix made of digits. */
  function DigitSpan(s: string): (k: nat)
    ensures k <= |s| && (forall c <- s[..k] :: IsDigit(c))
    ensures k < |s| ==> !IsDigit(s[k])
  {
    if s == [] || !IsDigit(s[0]) then 0
    else
      var k := 1 + DigitSpan(s[1..]);
      assert s[..k] == [s[0]] + s[1..][..k - 1];
      k
  }

  function DecimalValue(s: string): nat
    requires forall c <- s :: IsDigit(c)
  {
    if s == [] then 0
    else 10 * DecimalValue(s[..|s| - 1]) + DigitValue(s[|s| - 1])
  }

  predicate IsSpace(c: char) { c == ' ' || '\t' <= c <= '\r' }

  function SkipSpace(s: string): string {
    if s != [] && IsSpace(s[0]) then SkipSpace(s[1..]) else s
  }

  /** The value of the digits a text starts with, if it starts with any. */
  function ScanDigits(s: string): Option<int> {
    var k := DigitSpan(s);
    if k == 0 then None else Some(DecimalValue(s[..k]))
  }

  function Negated(v: Option<int>): Option<int> { if v.None? then None else Some(-v.value) }

  /** `%d` of `sscanf`: leading white space, an optional sign, then at least one digit. */
  function ScanInt(text: string): Option<int> {
    var s := SkipSpace(text);
    if s == [] then None
    else if s[0] == '-' then Negated(ScanDigits(s[1..]))
    else if s[0] == '+' then ScanDigits(s[1..])
    else ScanDigits(s)
  }

  const VIEWER_PREFIX := "viewer_"

  /** `snprintf(id, 64, "viewer_%d", i)`: 63 characters and a terminator. */
  function ViewerId(i: nat): string { Take(VIEWER_PREFIX + PrintNat(i), 63) }

  /** `sscanf(id, "viewer_%d", &i)`; `None` when it does not return 1. */
  function ScanViewerId(id: string): Option<int> {
    if VIEWER_PREFIX <= id then ScanInt(id[|VIEWER_PREFIX|..]) else None
  }

  lemma {:induction false} PrintNatValue(n: nat)
    ensures DecimalValue(PrintNat(n)) == n
  {
    if n >= 10 {
      PrintNatValue(n / 10);
      var s := PrintNat(n);
      assert s[..|s| - 1] == PrintNat(n / 10);
    } else {
      assert PrintNat(n)[..0] == [];
    }
  }

  lemma {:induction false} DigitSpanOfDigits(s: string, tail: string)
    requires forall c <- s :: IsDigit(c)
    requires tail == [] || !IsDigit(tail[0])
    ensures DigitSpan(s + tail) == |s|
  {
    if s == [] {
      assert s + tail == tail;
    } else {
      assert (s + tail)[1..] == s[1..] + tail;
      DigitSpanOfDigits(s[1..], tail);
    }
  }

  /** Whatever text follows, scanning a printed number stops at its end and returns it. */
  lemma PrintThenScan(n: nat, tail: string)
    requires tail == [] || !IsDigit(tail[0])
    ensures ScanInt(PrintNat(n) + tail) == Some(n)
  {
    var s := PrintNat(n);
    var text := s + tail;
    assert text[0] == s[0] && IsDigit(s[0]);
    DigitSpanOfDigits(s, tail);
    assert text[..|s|] == s;
    PrintNatValue(n);
  }

  function Pow10(k: nat): (p: nat)
    ensures p > 0
  {
    if k == 0 then 1 else 10 * Pow10(k - 1)
  }

  lemma {:induction false} PrintNatLength(n: nat, k: nat)
    requires k >= 1 && n < Pow10(k)
    ensures |PrintNat(n)| <= k
  {
    if n >= 10 {
      PrintNatLength(n / 10, k - 1);
    }
  }

  /** The 64-byte identifier buffers never cut the index of any C `int`. */
  lemma ViewerIdUncut(i: nat)
    requires i <= 0x7fff_ffff
    ensures ViewerId(i) == "viewer_" + PrintNat(i)
  {
    assert Pow10(4) == 10000;
    assert Pow10(7) == 10000000;
    assert Pow10(10) == 10000000000;
    PrintNatLength(i, 10);
  }

  /** Printing an index and scanning it back is the identity on every non-negative `int`. */
  lemma ViewerIdRoundTrip(i: nat)
    requires i <= 0x7fff_ffff
    ensures ScanViewerId(ViewerId(i)) == Some(i)
    ensures NulFree(ViewerId(i)) && ViewerId(i) != "host"
  {
    ViewerIdUncut(i);
    PrintThenScan(i, []);
    assert PrintNat(i) + [] == PrintNat(i);
    assert ViewerId(i)[|VIEWER_PREFIX|..] == PrintNat(i);
    assert ViewerId(i)[0] == 'v';
  }

  /** Printing is positional: counted from the right, character `k` is the digit of weight `10^k`. */
  lemma {:induction false} PrintedDigit(n: nat, k: nat)
    requires k < |PrintNat(n)|
    ensures PrintNat(n)[|PrintNat(n)| - 1 - k] as int == '0' as int + n / Pow10(k) % 10
    decreases n
  {
    if k > 0 {
      PrintedDigit(n / 10, k - 1);
      DivideTwice(n, 10, Pow10(k - 1));
    }
  }

  /** No zero in front: the first printed character has a weight the number reaches. */
  lemma {:induction false} NoLeadingZero(n: nat)
    ensures |PrintNat(n)| > 1 ==> n >= Pow10(|PrintNat(n)| - 1)
  {
    if n >= 10 { NoLeadingZero(n / 10); }
  }

  // ---------------------------------------------------------------- every identifier

  /** An identifier taken apart: what stands behind `viewer_`. */
  datatype Reading = Reading(spaces: string, sign: string, digits: string, rest: string) {
    ghost predicate Of(id: string) {
      && id == "viewer_" + (spaces + (sign + (digits + rest)))
      && (forall c <- spaces :: c == ' ' || '\t' <= c <= '\r')
      && (sign == "" || sign == "+" || sign == "-")
      && digits != [] && (forall c <- digits :: '0' <= c <= '9')
      && (rest == [] || !('0' <= rest[0] <= '9'))
    }

    ghost function Value(): int
      requires forall c <- digits :: IsDigit(c)
    {
      var v: int := DecimalValue(digits);
      if sign == "-" then -v else v
    }
  }

  /** The identifier names the number: white space, a sign and digits may follow the prefix, then anything. */
  ghost predicate Names(id: string, v: int) {
    exists r: Reading :: r.Of(id) && r.Value() == v
  }

  lemma {:induction false} SkipsSpaces(spaces: string, t: string)
    requires (forall c <- spaces :: IsSpace(c)) && (t == [] || !IsSpace(t[0]))
    ensures SkipSpace(spaces + t) == t
  {
    if spaces == [] {
      assert spaces + t == t;
    } else {
      assert (spaces + t)[1..] == spaces[1..] + t;
      SkipsSpaces(spaces[1..], t);
    }
  }

  lemma {:induction false} SpacesSkipped(s: string) returns (spaces: string)
    ensures s == spaces + SkipSpace(s) && forall c <- spaces :: IsSpace(c)
  {
    if s != [] && IsSpace(s[0]) {
      var more := SpacesSkipped(s[1..]);
      spaces := [s[0]] + more;
    } else {
      spaces := [];
    }
  }

  /** Digits are read as their value, whatever follows. */
  lemma ScansDigits(digits: string, rest: string)
    requires digits != [] && (forall c <- digits :: IsDigit(c)) && (rest == [] || !IsDigit(rest[0]))
    ensures ScanDigits(digits + rest) == Some(DecimalValue(digits))
  {
    DigitSpanOfDigits(digits, rest);
    assert (digits + rest)[..|digits|] == digits;
  }

  lemma ScansNumber(sign: string, number: string)
    requires sign == "" || sign == "+" || sign == "-"
    requires number != [] && IsDigit(number[0])
    ensures ScanInt(sign + number) == if sign == "-" then Negated(ScanDigits(number)) else ScanDigits(number)
  {
    var t := sign + number;
    if sign == "" {
      assert t == number;
    } else {
      assert t[0] == sign[0] && t[1..] == number;
    }
  }

  lemma BehindPrefix(text: string)
    ensures ScanViewerId("viewer_" + text) == ScanInt(text)
  {
    assert (VIEWER_PREFIX + text)[|VIEWER_PREFIX|..] == text;
  }

  lemma BehindSpaces(spaces: string, t: string)
    requires (forall c <- spaces :: IsSpace(c)) && t != [] && !IsSpace(t[0])
    ensures ScanInt(spaces + t) == ScanInt(t)
  {
    SkipsSpaces(spaces, t);
  }

  lemma ScansReading(r: Reading, id: string)
    requires r.Of(id)
    ensures ScanViewerId(id) == Some(r.Value())
  {
    var number := r.digits + r.rest;
    var t := r.sign + number;
    assert number[0] == r.digits[0] && r.digits[0] in r.digits;
    BehindPrefix(r.spaces + t);
    BehindSpaces(r.spaces, t);
    ScansNumber(r.sign, number);
    ScansDigits(r.digits, r.rest);
  }

  lemma ReadingFound(id: string) returns (r: Reading)
    requires ScanViewerId(id).Some?
    ensures r.Of(id)
  {
    var text := id[|VIEWER_PREFIX|..];
    var spaces := SpacesSkipped(text);
    var s := SkipSpace(text);
    var signed := s != [] && (s[0] == '-' || s[0] == '+');
    var number := if signed then s[1..] else s;
    var k := DigitSpan(number);
    r := Reading(spaces, if signed then [s[0]] else "", number[..k], number[k..]);
    assert number == number[..k] + number[k..];
    assert s == r.sign + number;
    assert id == VIEWER_PREFIX + text;
  }

  /** Exactly which identifiers are read as which number. */
  lemma ScannedIffNamed(id: string, v: int)
    ensures ScanViewerId(id) == Some(v) <==> Names(id, v)
  {
    if ScanViewerId(id).Some? {
      var r := ReadingFound(id);
      ScansReading(r, id);
    }
    forall r: Reading | r.Of(id) ensures ScanViewerId(id) == Some(r.Value()) { ScansReading(r, id); }
  }

  /** Distinct indexes get distinct identifiers. */
  lemma ViewerIdInjective(i: nat, j: nat)
    requires i <= 0x7fff_ffff && j <= 0x7fff_ffff
    requires ViewerId(i) == ViewerId(j)
    ensures i == j
  {
    ViewerIdRoundTrip(i);
    ViewerIdRoundTrip(j);
  }
}
