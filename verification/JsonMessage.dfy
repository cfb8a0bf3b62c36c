/**
  A conforming reader of JSON objects whose members are strings (sections 4 and 7 of RFC 8259,
  without insignificant white space), and what it makes of a composed message.
 */
module JsonMessage {
  import opened CStrings
  import opened Escape
  import opened JsonText
  import opened Messages

  /** Text split at the first quote that is not part of an escape. */
  function ReadBody(t: string): (r: Option<(string, string)>)
    ensures r.Some? ==> |r.value.1| < |t|
  {
    if t == [] then None
    else if t[0] == '"' then Some(([], t[1..]))
    else
      var n := if t[0] == '\\' then 2 else 1;
      if |t| < n then None
      else match ReadBody(t[n..])
        case None => None
        case Some((body, rest)) => Some((t[..n] + body, rest))
  }

  /** A string in quotes, decoded, and what follows it. */
  function ReadString(t: string): (r: Option<(string, string)>)
    ensures r.Some? ==> |r.value.1| < |t|
  {
    if t == [] || t[0] != '"' then None
    else match ReadBody(t[1..])
      case None => None
      case Some((body, rest)) => if Decode(body).None? then None else Some((Decode(body).value, rest))
  }

  type Members = seq<(string, string)>

  function ReadMembers(t: string): Option<Members>
    decreases |t|
  {
    match ReadString(t)
    case None => None
    case Some((name, r)) =>
      if r == [] || r[0] != ':' then None
      else match ReadString(r[1..])
        case None => None
        case Some((value, rest)) =>
          if rest == "}" then Some([(name, value)])
          else if rest == [] || rest[0] != ',' then None
          else match ReadMembers(rest[1..])
            case None => None
            case Some(more) => Some([(name, value)] + more)
  }

  function ReadObject(t: string): Option<Members> {
    if t == [] || t[0] != '{' then None else ReadMembers(t[1..])
  }

  // ---------------------------------------------------------------- reading what was escaped

  lemma BodyStep(t: string, n: nat, body: string, rest: string)
    requires t != [] && t[0] != '"' && n == (if t[0] == '\\' then 2 else 1) && n <= |t|
    requires ReadBody(t[n..]) == Some((body, rest))
    ensures ReadBody(t) == Some((t[..n] + body, rest))
  {}

  lemma {:induction false} BodyRead(e: string, rest: string)
    requires Paired(e)
    ensures ReadBody(e + ("\"" + rest)) == Some((e, rest))
  {
    var t := e + ("\"" + rest);
    if e == [] {
      assert t == "\"" + rest;
      assert t[1..] == rest;
    } else {
      var n := if e[0] == '\\' then 2 else 1;
      BodyRead(e[n..], rest);
      assert t[n..] == e[n..] + ("\"" + rest);
      BodyStep(t, n, e[n..], rest);
      assert t[..n] + e[n..] == e;
    }
  }

  /** Cut text has no closing quote. */
  lemma {:induction false} CutBodyUnread(e: string, m: nat)
    requires Paired(e) && m <= |e|
    ensures ReadBody(e[..m]).None?
  {
    if m > 0 {
      var n := if e[0] == '\\' then 2 else 1;
      if m >= n {
        CutBodyUnread(e[n..], m - n);
        assert e[..m][n..] == e[n..][..m - n];
      }
    }
  }

  lemma StringRead(body: string, rest: string)
    requires Paired(body)
    ensures ReadString("\"" + (body + ("\"" + rest))) ==
            if Decode(body).None? then None else Some((Decode(body).value, rest))
  {
    BodyRead(body, rest);
    var t := "\"" + (body + ("\"" + rest));
    assert t[1..] == body + ("\"" + rest);
  }

  /** Escaped text behind a quote, closed by one. */
  lemma EscapeRead(s: string, rest: string)
    ensures ReadString("\"" + (FullEscape(s) + ("\"" + rest))) == if Printable(s) then Some((s, rest)) else None
  {
    EscapePaired(s);
    EscapeDecodes(s);
    StringRead(FullEscape(s), rest);
  }

  lemma PlainReads(w: string, rest: string)
    requires PlainWord(w) && Printable(w)
    ensures ReadString("\"" + (w + ("\"" + rest))) == Some((w, rest))
  {
    FullEscapePlain(w);
    EscapeRead(w, rest);
  }

  // ---------------------------------------------------------------- the messages

  /** The name of the member that carries the payload. */
  function PayloadName(kind: Kind): (n: string)
    ensures PlainWord(n) && Printable(n)
  {
    if kind == Ice then "candidate" else "sdp"
  }

  /** The pieces of a header, by position. */
  ghost predicate Shaped(h: string, w: string, n: string) {
    && |h| == 15 + |w| + |n| && h[0] == '{' && MatchAt(h, 1, Quoted("type")) && h[7] == ':'
    && MatchAt(h, 8, Quoted(w)) && h[10 + |w|] == ',' && MatchAt(h, 11 + |w|, Quoted(n))
    && h[13 + |w| + |n|] == ':' && h[14 + |w| + |n|] == '"'
  }

  lemma OfferShaped()
    ensures Shaped(OFFER_HEADER, "offer", "sdp")
  {}

  lemma AnswerShaped()
    ensures Shaped(ANSWER_HEADER, "answer", "sdp")
  {}

  lemma IceShaped()
    ensures Shaped(ICE_HEADER, "ice", "candidate")
  {}

  lemma HeaderShaped(kind: Kind)
    ensures Shaped(Header(kind), TypeWord(kind), PayloadName(kind))
  {
    match kind
    case Offer => OfferShaped();
    case Answer => AnswerShaped();
    case Ice => IceShaped();
  }

  /** A quoted plain word is read where it stands. */
  lemma WordRead(h: string, body: string, i: nat, w: string)
    requires PlainWord(w) && Printable(w) && MatchAt(h, i, Quoted(w))
    ensures ReadString((h + body)[i..]) == Some((w, (h + body)[i + |w| + 2..]))
  {
    var t, q := h + body, Quoted(w);
    var rest := t[i + |w| + 2..];
    assert t[i..][..|q|] == q && t[i..][|q|..] == rest;
    assert t[i..] == q + rest == "\"" + (w + ("\"" + rest));
    PlainReads(w, rest);
  }

  /** The last member: its value decides what is read. */
  lemma LastRead(t: string, name: string, r: string)
    requires ReadString(t) == Some((name, r)) && r != [] && r[0] == ':'
    ensures var value := ReadString(r[1..]);
            && (value.None? || value.value.1 == [] ==> ReadMembers(t).None?)
            && (value.Some? && value.value.1 == "}" ==> ReadMembers(t) == Some([(name, value.value.0)]))
  {}

  lemma PayloadRead(h: string, w: string, n: string, body: string)
    requires Shaped(h, w, n) && PlainWord(n) && Printable(n)
    ensures var r, value := ReadMembers((h + body)[11 + |w|..]), ReadString("\"" + body);
            && (value.None? || value.value.1 == [] ==> r.None?)
            && (value.Some? && value.value.1 == "}" ==> r == Some([(n, value.value.0)]))
  {
    var t := h + body;
    WordRead(h, body, 11 + |w|, n);
    var r := t[13 + |w| + |n|..];
    assert r[0] == ':' && r[1..] == "\"" + body;
    LastRead(t[11 + |w|..], n, r);
  }

  /** A member before a comma is put in front of the members behind it. */
  lemma MemberRead(t: string, name: string, r: string, value: string, rest: string)
    requires ReadString(t) == Some((name, r)) && r != [] && r[0] == ':'
    requires ReadString(r[1..]) == Some((value, rest)) && rest != [] && rest[0] == ','
    ensures ReadMembers(t) ==
            match ReadMembers(rest[1..]) case None => None case Some(more) => Some([(name, value)] + more)
  {}

  lemma TypeRead(h: string, w: string, n: string, body: string)
    requires Shaped(h, w, n) && PlainWord(w) && Printable(w)
    ensures ReadObject(h + body) ==
            match ReadMembers((h + body)[11 + |w|..])
            case None => None
            case Some(more) => Some([("type", w)] + more)
  {
    var t := h + body;
    WordRead(h, body, 1, "type");
    WordRead(h, body, 8, w);
    var r, rest := t[7..], t[10 + |w|..];
    assert r[0] == ':' && r[1..] == t[8..];
    assert rest[0] == ',' && rest[1..] == t[11 + |w|..];
    MemberRead(t[1..], "type", r, w, rest);
  }

  /** What is read of a message is decided by what stands behind its header. */
  lemma MessageRead(kind: Kind, body: string)
    ensures var r, value := ReadObject(Header(kind) + body), ReadString("\"" + body);
            && (value.None? || value.value.1 == [] ==> r.None?)
            && (value.Some? && value.value.1 == "}" ==> r == Some(Promised(kind, value.value.0)))
  {
    var h, w, n := Header(kind), TypeWord(kind), PayloadName(kind);
    HeaderShaped(kind);
    PayloadRead(h, w, n, body);
    TypeRead(h, w, n, body);
    var value := ReadString("\"" + body);
    if value.Some? { PromisedInParts(kind, value.value.0); }
  }

  /** The members of a message, as its templates promise them. */
  function Promised(kind: Kind, payload: string): Members {
    match kind
    case Offer => [("type", "offer"), ("sdp", payload)]
    case Answer => [("type", "answer"), ("sdp", payload)]
    case Ice => [("type", "ice"), ("candidate", payload)]
  }

  lemma WholeReads(kind: Kind, payload: string)
    ensures ReadObject(Whole(kind, payload)) == if Printable(payload) then Some(Promised(kind, payload)) else None
  {
    var e := FullEscape(payload);
    EscapeRead(payload, "}");
    ConcatAssoc(Header(kind), e, FOOTER);
    assert FOOTER == "\"" + "}";
    MessageRead(kind, e + ("\"" + "}"));
  }

  lemma PromisedInParts(kind: Kind, payload: string)
    ensures [("type", TypeWord(kind))] + [(PayloadName(kind), payload)] == Promised(kind, payload)
  {}

  /** A message cut in its payload, or of its final brace, is no object. */
  lemma CutUnread(kind: Kind, payload: string, m: nat)
    requires m <= |FullEscape(payload)| + 1
    ensures ReadObject(Header(kind) + (FullEscape(payload) + FOOTER)[..m]).None?
  {
    var e := FullEscape(payload);
    var body := (e + FOOTER)[..m];
    if m <= |e| {
      EscapePaired(payload);
      assert body == e[..m];
      CutBodyUnread(e, m);
      assert ("\"" + body)[1..] == body;
    } else {
      assert body == e + ("\"" + "");
      EscapeRead(payload, "");
    }
    MessageRead(kind, body);
  }

  /**
    A composed message is a JSON object with the promised type and payload exactly when it fits
    and the payload has no control character but LF, CR and TAB; one that was cut, by however
    little, is none.
   */
  lemma ComposedIsObjectIff(kind: Kind, payload: string)
    ensures ReadObject(Compose(kind, payload)) ==
            if |Whole(kind, payload)| <= 4095 && Printable(payload) then Some(Promised(kind, payload)) else None
  {
    ComposeIsOneCut(kind, payload);
    ConcatAssoc(Header(kind), FullEscape(payload), FOOTER);
    if |Whole(kind, payload)| <= 4095 {
      WholeReads(kind, payload);
    } else {
      var m := 4095 - |Header(kind)|;
      assert Whole(kind, payload)[..4095] == Header(kind) + (FullEscape(payload) + FOOTER)[..m];
      CutUnread(kind, payload, m);
    }
  }
}
