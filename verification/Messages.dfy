/**
  The signalling messages: composed by `signaling_send_offer/answer/ice` (src/signaling.c),
  classified and taken apart by `webrtc_handle_signaling` (src/webrtc.cpp).
 */
module Messages {
  import opened CStrings
  import opened Escape
  import opened Unescape

  datatype Kind = Offer | Answer | Ice

  /** What the receiver does with a message; `Rejected` is NEARCADE_ERR_INVALID_ARG. */
  datatype Verdict = Rejected | SetAnswer(sdp: string) | AddCandidate(candidate: string) | NoAction

  const LIMIT: nat := 4095

  const FOOTER := "\"}"
  const SDP_KEY := "\"sdp\":\""
  const CANDIDATE_KEY := "\"candidate\":\""

  /** A word no part of which needs escaping. */
  predicate PlainWord(w: string) { w != [] && forall c <- w :: !Escapable(c) }

  function TypeWord(kind: Kind): (w: string)
    ensures PlainWord(w) && |w| <= 6 && NulFree(w)
  {
    match kind
    case Offer => "offer"
    case Answer => "answer"
    case Ice => "ice"
  }

  function Quoted(w: string): string { "\"" + w + "\"" }

  /** The key of the payload, up to and including its opening quote. */
  function Key(kind: Kind): string { if kind == Ice then CANDIDATE_KEY else SDP_KEY }

  const OFFER_HEADER := "{\"type\":\"offer\",\"sdp\":\""
  const ANSWER_HEADER := "{\"type\":\"answer\",\"sdp\":\""
  const ICE_HEADER := "{\"type\":\"ice\",\"candidate\":\""

  /** Everything before the payload. */
  function Header(kind: Kind): (h: string)
    ensures 15 <= |h| <= 40 && NulFree(h) && h[|h| - 1] == '"'
  {
    match kind
    case Offer => OFFER_HEADER
    case Answer => ANSWER_HEADER
    case Ice => ICE_HEADER
  }

  /** The message with no bound anywhere. */
  function Whole(kind: Kind, payload: string): string {
    Header(kind) + FullEscape(payload) + FOOTER
  }

  /** The message as composed: a bounded escape into one buffer, a bounded print into another. */
  function Compose(kind: Kind, payload: string): string {
    Take(Header(kind) + BoundedEscape(payload, LIMIT) + FOOTER, LIMIT)
  }

  /**
    The two bounded copies behave as one: the header pushes out every byte at which the
    escaper itself may have lost something.
   */
  lemma ComposeIsOneCut(kind: Kind, payload: string)
    ensures Compose(kind, payload) == Take(Whole(kind, payload), 4095)
  {
    var h, e, b := Header(kind), FullEscape(payload), BoundedEscape(payload, LIMIT);
    if |e| <= LIMIT {
      BoundedIsFullIffFits(payload, LIMIT);
    } else {
      BoundedAgrees(payload, LIMIT);
      var m := LIMIT - |h|;
      assert b[..m] == b[..LIMIT - 1][..m] == e[..LIMIT - 1][..m] == e[..m];
      assert (h + b + FOOTER)[..LIMIT] == h + b[..m];
      assert (h + e + FOOTER)[..LIMIT] == h + e[..m];
    }
  }

  /** Composition as the source does it, through the escape buffer. */
  method ComposeMessage(kind: Kind, payload: string) returns (buf: string)
    requires NulFree(payload)
    ensures buf == Take(Whole(kind, payload), 4095)
    ensures NulFree(buf)
  {
    var escaped := new char[4096];
    var n := JsonEscape(payload, escaped);
    buf := Take(Header(kind) + escaped[..n] + FOOTER, LIMIT);
    assert buf == Compose(kind, payload);
    ComposeIsOneCut(kind, payload);
    ComposeNulFree(kind, payload);
  }

  lemma ComposeNulFree(kind: Kind, payload: string)
    requires NulFree(payload)
    ensures NulFree(Compose(kind, payload))
  {
    BoundedNulFree(payload, LIMIT);
    assert NulFree(Header(kind) + BoundedEscape(payload, LIMIT) + FOOTER);
  }

  // ---------------------------------------------------------------- the receiver

  function Classify(data: string): Option<Kind> {
    if Contains(data, Quoted(TypeWord(Answer))) then Some(Answer)
    else if Contains(data, Quoted(TypeWord(Offer))) then Some(Offer)
    else if Contains(data, Quoted(TypeWord(Ice))) then Some(Ice)
    else None
  }

  /** The text after the first occurrence of a key, as the unescape loop returns it. */
  function Extract(data: string, key: string): Option<string> {
    match StrStr(data, key, 0)
    case None => None
    case Some(k) => Some(Unescaped(data[k + |key|..]))
  }

  function Handle(data: string): Verdict {
    match Classify(data)
    case None => Rejected
    case Some(Offer) => NoAction
    case Some(Answer) =>
      (match Extract(data, SDP_KEY) case None => Rejected case Some(text) => SetAnswer(text))
    case Some(Ice) =>
      (match Extract(data, CANDIDATE_KEY) case None => Rejected case Some(text) => AddCandidate(text))
  }

  ghost predicate Occurs(data: string, n: string) { exists k: nat :: MatchAt(data, k, n) }

  predicate FirstAt(data: string, k: nat, n: string) {
    MatchAt(data, k, n) && forall j: nat | j < k :: !MatchAt(data, j, n)
  }

  lemma ContainsIffOccurs(data: string, n: string)
    ensures Contains(data, n) <==> Occurs(data, n)
    ensures Contains(data, n) ==> FirstAt(data, StrStr(data, n, 0).value, n)
  {}

  /** Which texts the receiver acts on, and how: any text whatever, composed or not. */
  ghost predicate ActsOn(data: string, v: Verdict) {
    var answer, offer, ice := Occurs(data, "\"answer\""), Occurs(data, "\"offer\""), Occurs(data, "\"ice\"");
    var sdp, candidate := Occurs(data, "\"sdp\":\""), Occurs(data, "\"candidate\":\"");
    && (v.SetAnswer? <==> answer && sdp)
    && (v.AddCandidate? <==> ice && candidate && !answer && !offer)
    && (v.NoAction? <==> offer && !answer)
    && (v.Rejected? <==> (answer && !sdp) || (!answer && !offer && !(ice && candidate)))
  }

  /** What it applies is the text behind the first occurrence of the key. */
  ghost predicate AppliesText(data: string, v: Verdict) {
    && (v.SetAnswer? ==> exists k: nat :: FirstAt(data, k, "\"sdp\":\"") && v.sdp == Unescaped(data[k + 7..]))
    && (v.AddCandidate? ==>
          exists k: nat :: FirstAt(data, k, "\"candidate\":\"") && v.candidate == Unescaped(data[k + 13..]))
  }

  lemma HandleEveryText(data: string)
    ensures ActsOn(data, Handle(data)) && AppliesText(data, Handle(data))
  {
    assert Quoted(TypeWord(Answer)) == "\"answer\"" && Quoted(TypeWord(Offer)) == "\"offer\"";
    assert Quoted(TypeWord(Ice)) == "\"ice\"";
    ContainsIffOccurs(data, "\"answer\"");
    ContainsIffOccurs(data, "\"offer\"");
    ContainsIffOccurs(data, "\"ice\"");
    ContainsIffOccurs(data, SDP_KEY);
    ContainsIffOccurs(data, CANDIDATE_KEY);
  }

  method HandleMessage(data: string) returns (v: Verdict)
    ensures v == Handle(data)
    ensures ActsOn(data, v) && AppliesText(data, v)
  {
    HandleEveryText(data);
    var kind := Classify(data);
    if kind.None? { return Rejected; }
    v := NoAction;
    if kind.value == Answer {
      var sdp := ExtractText(data, SDP_KEY);
      v := if sdp.None? then Rejected else SetAnswer(sdp.value);
    } else if kind.value == Ice {
      var candidate := ExtractText(data, CANDIDATE_KEY);
      v := if candidate.None? then Rejected else AddCandidate(candidate.value);
    }
  }

  /** Find a key and run the loop from behind it. */
  method ExtractText(data: string, key: string) returns (text: Option<string>)
    ensures text == Extract(data, key)
  {
    var at := StrStr(data, key, 0);
    if at.None? { return None; }
    var t := UnescapeLoop(data, at.value + |key|);
    text := Some(t);
  }

  // ---------------------------------------------------------------- quoted words in messages

  lemma ContainsAt(h: string, k: nat, n: string)
    requires MatchAt(h, k, n)
    ensures Contains(h, n)
  {}

  /** Every quote inside escaped text follows a backslash. */
  lemma {:induction false} QuoteIsEscaped(p: string, x: nat)
    requires x < |FullEscape(p)| && FullEscape(p)[x] == '"'
    ensures x >= 1 && FullEscape(p)[x - 1] == '\\'
  {
    var e := EscapeOf(p[0]);
    if x >= |e| {
      QuoteIsEscaped(p[1..], x - |e|);
    }
  }

  /** Taking the last character off a string takes its escape off the escaped text. */
  lemma EscapeLast(p: string)
    requires p != []
    ensures FullEscape(p) == FullEscape(p[..|p| - 1]) + EscapeOf(p[|p| - 1])
  {
    var n := |p| - 1;
    assert p == p[..n] + [p[n]];
    FullEscapeConcat(p[..n], [p[n]]);
    EscapeSingle(p[n]);
  }

  /** Escaped text ends in a quote and a plain word only if the text itself does. */
  lemma {:induction false} SuffixInversion(p: string, w: string)
    requires forall c <- w :: !Escapable(c)
    requires EndsWith(FullEscape(p), "\"" + w)
    ensures EndsWith(p, "\"" + w)
  {
    assert p != [];
    EscapeLast(p);
    var p', c := p[..|p| - 1], p[|p| - 1];
    LastOfSuffix(FullEscape(p'), c, w);
    if w != [] {
      SuffixInversion(p', w[..|w| - 1]);
      SuffixExtends(p', c, w);
      assert p == p' + [c];
    } else {
      assert p[|p| - 1] == '"';
    }
  }

  /** If `e` and one more escape end in a quote and a word, that escape is the last character. */
  lemma LastOfSuffix(e: string, c: char, w: string)
    requires forall x <- w :: !Escapable(x)
    requires EndsWith(e + EscapeOf(c), "\"" + w)
    ensures w == [] ==> c == '"'
    ensures w != [] ==> c == w[|w| - 1] && EndsWith(e, "\"" + w[..|w| - 1])
  {
    var f, u := e + EscapeOf(c), "\"" + w;
    assert f[|f| - |u| + (|u| - 1)] == u[|u| - 1];
    if w != [] {
      var u' := "\"" + w[..|w| - 1];
      assert f[|f| - |u| + (|u| - 2)] == u[|u| - 2];
      assert w[|w| - 1] in w && (|w| > 1 ==> w[|w| - 2] in w);
      assert f == e + [c];
      forall i | 0 <= i < |u'| ensures e[|e| - |u'| + i] == u'[i] {
        assert f[|f| - |u| + i] == u[i];
      }
    }
  }

  lemma SuffixExtends(p: string, c: char, w: string)
    requires w != [] && c == w[|w| - 1] && EndsWith(p, "\"" + w[..|w| - 1])
    ensures EndsWith(p + [c], "\"" + w)
  {
    var f, u, u' := p + [c], "\"" + w, "\"" + w[..|w| - 1];
    forall i | 0 <= i < |u| ensures f[|f| - |u| + i] == u[i] {
      if i < |u'| { assert p[|p| - |u'| + i] == u'[i]; }
    }
  }

  lemma {:induction false} PlainInversion(p: string, w: string)
    requires forall c <- w :: !Escapable(c)
    requires FullEscape(p) == w
    ensures p == w
  {
    if p != [] {
      assert w[0] in w && w[0] != '\\';
      assert FullEscape(p[1..]) == w[1..];
      PlainInversion(p[1..], w[1..]);
      assert p == [p[0]] + p[1..];
    }
  }

  /** The payload closes a quoted word together with the quotes around it. */
  predicate Imitates(payload: string, w: string) {
    payload == w || EndsWith(payload, "\"" + w)
  }

  lemma QuoteInsidePayload(h: string, p: string, x: nat)
    requires |h| <= x < |h| + |FullEscape(p)|
    requires (h + FullEscape(p) + FOOTER)[x] == '"'
    ensures x > |h| && (h + FullEscape(p) + FOOTER)[x - 1] == '\\'
  {
    QuoteIsEscaped(p, x - |h|);
  }

  /** A quoted word in a message is in its header, or ends exactly at the closing quote. */
  lemma QuotedWordPlaces(h: string, p: string, w: string, k: nat)
    requires PlainWord(w) && h != [] && h[|h| - 1] == '"'
    requires MatchAt(h + FullEscape(p) + FOOTER, k, Quoted(w))
    ensures k + |w| + 2 <= |h| || k + |w| + 1 == |h| + |FullEscape(p)|
  {
    var e, q := FullEscape(p), Quoted(w);
    var d := h + e + FOOTER;
    var x := k + |q| - 1;
    assert d[k + (|q| - 1)] == q[|q| - 1] == '"';
    assert d[k + (|q| - 2)] == q[|q| - 2] == w[|w| - 1];
    assert w[|w| - 1] in w;
    if |h| <= x < |h| + |e| { QuoteInsidePayload(h, p, x); }
  }

  /** Exactly which messages contain a quoted word. */
  lemma QuotedWordInMessage(h: string, p: string, w: string)
    requires PlainWord(w) && h != [] && h[|h| - 1] == '"'
    ensures Contains(h + FullEscape(p) + FOOTER, Quoted(w)) <==> Contains(h, Quoted(w)) || Imitates(p, w)
  {
    var q := Quoted(w);
    var d := h + FullEscape(p) + FOOTER;
    if Contains(d, q) {
      var k := StrStr(d, q, 0).value;
      QuotedWordPlaces(h, p, w, k);
      if k + |q| <= |h| {
        MatchInPrefix(h, FullEscape(p) + FOOTER, k, q);
        ConcatAssoc(h, FullEscape(p), FOOTER);
        ContainsAt(h, k, q);
      } else {
        ClosingWord(h, p, w, k);
      }
    }
    if Contains(h, q) {
      var k := StrStr(h, q, 0).value;
      MatchInPrefix(h, FullEscape(p) + FOOTER, k, q);
      ConcatAssoc(h, FullEscape(p), FOOTER);
      ContainsAt(d, k, q);
    }
    if Imitates(p, w) { ImitationMatches(h, p, w); }
  }

  lemma MatchInPrefix(h: string, t: string, k: nat, n: string)
    requires k + |n| <= |h|
    ensures MatchAt(h, k, n) <==> MatchAt(h + t, k, n)
  {
  }

  lemma ClosingWord(h: string, p: string, w: string, k: nat)
    requires PlainWord(w) && h != [] && h[|h| - 1] == '"'
    requires MatchAt(h + FullEscape(p) + FOOTER, k, Quoted(w))
    requires k + |w| + 1 == |h| + |FullEscape(p)|
    ensures Imitates(p, w)
  {
    var e, q, u := FullEscape(p), Quoted(w), "\"" + w;
    var d := h + e + FOOTER;
    assert forall i | 0 <= i < |u| :: q[i] == u[i];
    if k >= |h| {
      forall i | 0 <= i < |u| ensures e[|e| - |u| + i] == u[i] {
        assert d[k + i] == q[i];
      }
      SuffixInversion(p, w);
    } else if k == |h| - 1 {
      forall i | 0 <= i < |w| ensures e[i] == w[i] {
        assert e[i] == d[k + (i + 1)] == q[i + 1];
      }
      assert e == w;
      PlainInversion(p, w);
    } else {
      NoQuoteInside(d, w, k, |h| - 1 - k);
      assert false;
    }
  }

  lemma NoQuoteInside(d: string, w: string, k: nat, x: nat)
    requires PlainWord(w) && MatchAt(d, k, Quoted(w)) && 1 <= x <= |w|
    ensures d[k + x] != '"'
  {
    assert d[k + x] == Quoted(w)[x] == w[x - 1];
    assert w[x - 1] in w;
  }

  lemma ImitationMatches(h: string, p: string, w: string)
    requires PlainWord(w) && h != [] && h[|h| - 1] == '"' && Imitates(p, w)
    ensures Contains(h + FullEscape(p) + FOOTER, Quoted(w))
  {
    var e, q := FullEscape(p), Quoted(w);
    var d := h + e + FOOTER;
    var k := |h| + |e| - |w| - 1;
    EscapedEnd(p, w);
    forall i | 0 <= i < |q| ensures d[k + i] == q[i] {
      if 1 <= i <= |w| { assert d[k + i] == e[|e| - |w| + (i - 1)]; }
    }
    ContainsAt(d, k, q);
  }

  lemma EscapedEnd(p: string, w: string)
    requires PlainWord(w) && Imitates(p, w)
    ensures var e := FullEscape(p);
            && |w| <= |e| && MatchAt(e, |e| - |w|, w)
            && (|e| > |w| ==> e[|e| - |w| - 1] == '"')
  {
    FullEscapePlain(w);
    if p != w {
      var a := p[..|p| - |w| - 1];
      EndsWithSplit(p, "\"" + w);
      FullEscapeConcat(a, "\"" + w);
      EscapeQuotePlain(w);
      ConcatAssoc(FullEscape(a), "\\\"", w);
      EndsAfterQuote(FullEscape(a), w);
    }
  }

  lemma EndsAfterQuote(a: string, w: string)
    ensures var e := a + "\\\"" + w;
            MatchAt(e, |e| - |w|, w) && e[|e| - |w| - 1] == '"'
  {}

  lemma EndsWithSplit(s: string, e: string)
    requires EndsWith(s, e)
    ensures s == s[..|s| - |e|] + e
  {}

  lemma EscapeQuotePlain(w: string)
    requires PlainWord(w)
    ensures FullEscape("\"" + w) == "\\\"" + w
  {
    FullEscapeConcat("\"", w);
    EscapeSingle('"');
    FullEscapePlain(w);
  }

  // ---------------------------------------------------------------- classification and extraction

  lemma AfterQuoteOffer(k: nat)
    requires k + 1 < |OFFER_HEADER| && OFFER_HEADER[k] == '"'
    ensures OFFER_HEADER[k + 1] in {'t', ':', 'o', ',', 's'}
    ensures OFFER_HEADER[k + 1] == 's' ==> k == |OFFER_HEADER| - 7
  {}

  lemma AfterQuoteAnswer(k: nat)
    requires k + 1 < |ANSWER_HEADER| && ANSWER_HEADER[k] == '"'
    ensures ANSWER_HEADER[k + 1] in {'t', ':', 'a', ',', 's'}
    ensures ANSWER_HEADER[k + 1] == 's' ==> k == |ANSWER_HEADER| - 7
  {}

  lemma AfterQuoteIce(k: nat)
    requires k + 1 < |ICE_HEADER| && ICE_HEADER[k] == '"'
    ensures ICE_HEADER[k + 1] in {'t', ':', 'i', ',', 'c'}
    ensures ICE_HEADER[k + 1] == 'c' ==> k == |ICE_HEADER| - 13
  {}

  /** What may follow a quote inside a header. */
  lemma AfterQuote(kind: Kind, k: nat)
    requires k + 1 < |Header(kind)| && Header(kind)[k] == '"'
    ensures var h := Header(kind);
            && (h[k + 1] == 'a' ==> kind == Answer)
            && (h[k + 1] == 'o' ==> kind == Offer)
            && (h[k + 1] == 'i' ==> kind == Ice)
            && (h[k + 1] == 's' ==> kind != Ice && k == |h| - 7)
            && (h[k + 1] == 'c' ==> kind == Ice && k == |h| - 13)
  {
    match kind
    case Offer => AfterQuoteOffer(k);
    case Answer => AfterQuoteAnswer(k);
    case Ice => AfterQuoteIce(k);
  }

  /** A header holds its own type word in quotes and neither of the others. */
  lemma HeaderWord(kind: Kind, other: Kind)
    ensures Contains(Header(kind), Quoted(TypeWord(other))) <==> kind == other
  {
    var h, q := Header(kind), Quoted(TypeWord(other));
    if kind == other { OwnWord(kind); }
    if Contains(h, q) {
      var k := StrStr(h, q, 0).value;
      assert h[k + 0] == q[0] && h[k + 1] == q[1];
      AfterQuote(kind, k);
    }
  }

  lemma OwnWord(kind: Kind)
    ensures Contains(Header(kind), Quoted(TypeWord(kind)))
  {
    var h, q := Header(kind), Quoted(TypeWord(kind));
    OwnWordAt(kind);
    ContainsAt(h, 8, q);
  }

  lemma OwnWordAt(kind: Kind)
    ensures MatchAt(Header(kind), 8, Quoted(TypeWord(kind)))
  {
    match kind
    case Offer => OwnWordOffer();
    case Answer => OwnWordAnswer();
    case Ice => OwnWordIce();
  }

  lemma OwnWordOffer()
    ensures MatchAt(OFFER_HEADER, 8, Quoted("offer"))
  {}

  lemma OwnWordAnswer()
    ensures MatchAt(ANSWER_HEADER, 8, Quoted("answer"))
  {}

  lemma OwnWordIce()
    ensures MatchAt(ICE_HEADER, 8, Quoted("ice"))
  {}

  lemma WordInWhole(kind: Kind, payload: string, other: Kind)
    ensures Contains(Whole(kind, payload), Quoted(TypeWord(other))) <==>
            kind == other || Imitates(payload, TypeWord(other))
  {
    HeaderWord(kind, other);
    QuotedWordInMessage(Header(kind), payload, TypeWord(other));
  }

  /** The exact type the receiver gives to a message that was not cut. */
  function Perceived(kind: Kind, payload: string): Kind {
    match kind
    case Answer => Answer
    case Offer => if Imitates(payload, TypeWord(Answer)) then Answer else Offer
    case Ice =>
      if Imitates(payload, TypeWord(Answer)) then Answer
      else if Imitates(payload, TypeWord(Offer)) then Offer else Ice
  }

  /**
    An answer is always taken for one.  An offer is, unless its payload is `answer` or ends in
    `"answer`; an ice message is, unless its payload does that with `answer` or `offer`.
   */
  lemma ClassifiedAs(kind: Kind, payload: string)
    ensures Classify(Whole(kind, payload)) == Some(Perceived(kind, payload))
  {
    WordInWhole(kind, payload, Answer);
    WordInWhole(kind, payload, Offer);
    WordInWhole(kind, payload, Ice);
  }

  lemma KeyEndsHeader(kind: Kind)
    ensures EndsWith(Header(kind), Key(kind))
  {
    match kind
    case Offer => KeyEndsOffer();
    case Answer => KeyEndsAnswer();
    case Ice => KeyEndsIce();
  }

  lemma KeyEndsOffer()
    ensures EndsWith(OFFER_HEADER, SDP_KEY)
  {}

  lemma KeyEndsAnswer()
    ensures EndsWith(ANSWER_HEADER, SDP_KEY)
  {}

  lemma KeyEndsIce()
    ensures EndsWith(ICE_HEADER, CANDIDATE_KEY)
  {}

  lemma FirstMatchIs(d: string, n: string, at: nat)
    requires MatchAt(d, at, n) && forall k: nat | k < at :: !MatchAt(d, k, n)
    ensures StrStr(d, n, 0) == Some(at)
  {}

  /** Whatever follows the header, the search for its key stops at the end of the header. */
  lemma KeyAtEndOfHeader(kind: Kind, t: string)
    ensures |Key(kind)| <= |Header(kind)|
    ensures StrStr(Header(kind) + t, Key(kind), 0) == Some(|Header(kind)| - |Key(kind)|)
  {
    KeyEndsHeader(kind);
    var at := |Header(kind)| - |Key(kind)|;
    MatchInPrefix(Header(kind), t, at, Key(kind));
    forall k: nat | k < at ensures !MatchAt(Header(kind) + t, k, Key(kind)) { KeyNotBefore(kind, t, k); }
    FirstMatchIs(Header(kind) + t, Key(kind), at);
  }

  lemma KeyNotBefore(kind: Kind, t: string, k: nat)
    requires k < |Header(kind)| - |Key(kind)|
    ensures !MatchAt(Header(kind) + t, k, Key(kind))
  {
    var h, key := Header(kind), Key(kind);
    if MatchAt(h + t, k, key) {
      assert (h + t)[k + 0] == key[0] && (h + t)[k + 1] == key[1];
      AfterQuote(kind, k);
    }
  }

  /** An ice message never offers an SDP, whatever its payload. */
  lemma NoSdpInIce(payload: string)
    ensures Extract(Whole(Ice, payload), SDP_KEY).None?
  {
    var h, d := Header(Ice), Whole(Ice, payload);
    if StrStr(d, SDP_KEY, 0).Some? {
      var k := StrStr(d, SDP_KEY, 0).value;
      SdpWord(d, k);
      QuotedWordPlaces(h, payload, "sdp", k);
      if k + 5 <= |h| { AfterQuote(Ice, k); }
    }
  }

  lemma SdpWord(d: string, k: nat)
    requires MatchAt(d, k, SDP_KEY)
    ensures MatchAt(d, k, Quoted("sdp")) && d[k] == '"' && d[k + 1] == 's' && d[k + 5] == ':'
  {
    assert d[k + 0] == SDP_KEY[0] && d[k + 1] == SDP_KEY[1] && d[k + 5] == SDP_KEY[5];
    forall i | 0 <= i < 5 ensures d[k + i] == Quoted("sdp")[i] {
      assert SDP_KEY[i] == Quoted("sdp")[i];
    }
  }

  /** What the receiver does with a message that was not cut, for every payload. */
  function Outcome(kind: Kind, payload: string): Verdict {
    match Perceived(kind, payload)
    case Offer => NoAction
    case Answer => if kind == Ice then Rejected else SetAnswer(Decoded(payload, "}"))
    case Ice => AddCandidate(Decoded(payload, "}"))
  }

  lemma HandleWhole(kind: Kind, payload: string)
    requires NulFree(payload)
    ensures Handle(Whole(kind, payload)) == Outcome(kind, payload)
  {
    ClassifiedAs(kind, payload);
    Extracted(kind, payload);
    if kind == Ice { NoSdpInIce(payload); }
  }

  /** Text that starts with a header yields what the loop makes of the rest. */
  lemma ExtractAfterHeader(kind: Kind, t: string)
    ensures Extract(Header(kind) + t, Key(kind)) == Some(Unescaped(t))
  {
    KeyAtEndOfHeader(kind, t);
    assert (Header(kind) + t)[|Header(kind)|..] == t;
  }

  /** The extractor finds the payload of its own kind. */
  lemma Extracted(kind: Kind, payload: string)
    requires NulFree(payload)
    ensures Extract(Whole(kind, payload), Key(kind)) == Some(Decoded(payload, "}"))
  {
    var h, e := Header(kind), FullEscape(payload);
    ConcatAssoc(h, e, FOOTER);
    ExtractAfterHeader(kind, e + FOOTER);
    assert e + FOOTER == e + "\"" + "}";
    UnescapeLaw(payload, "}");
  }
}
