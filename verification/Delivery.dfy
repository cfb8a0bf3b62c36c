/**
  What becomes of every composed message, of every kind and length: the type it is taken for, the
  text the receiver makes of it, and exactly when that text is the payload.
 */
module Delivery {
  import opened CStrings
  import opened Escape
  import opened Unescape
  import opened Messages

  /** The bytes of a message left for payload and footer. */
  function Room(kind: Kind): nat { LIMIT - |Header(kind)| }

  /** The payload is cut, or only its closing quote is lost. */
  predicate PayloadCut(kind: Kind, payload: string) { |FullEscape(payload)| >= Room(kind) }

  /** The type the receiver takes a composed message for. */
  function TakenFor(kind: Kind, payload: string): Kind {
    if PayloadCut(kind, payload) then kind else Perceived(kind, payload)
  }

  /** The text the receiver finds behind the key. */
  function Text(kind: Kind, payload: string): string {
    if PayloadCut(kind, payload) then CutText(payload, Room(kind))
    else Decoded(payload, if |FullEscape(payload)| + 1 == Room(kind) then "" else "}")
  }

  function Received(kind: Kind, payload: string): Verdict {
    match TakenFor(kind, payload)
    case Offer => NoAction
    case Answer => if kind == Ice then Rejected else SetAnswer(Text(kind, payload))
    case Ice => AddCandidate(Text(kind, payload))
  }

  lemma ComposedBody(kind: Kind, payload: string)
    ensures Compose(kind, payload) == Header(kind) + Take(FullEscape(payload) + FOOTER, Room(kind))
  {
    ComposeIsOneCut(kind, payload);
    ConcatAssoc(Header(kind), FullEscape(payload), FOOTER);
  }

  // ---------------------------------------------------------------- the type

  /** A message cut inside its payload contains a quoted word iff its header does. */
  lemma WordInCutMessage(h: string, p: string, m: nat, w: string)
    requires PlainWord(w) && m <= |FullEscape(p)|
    ensures Contains(h + FullEscape(p)[..m], Quoted(w)) <==> Contains(h, Quoted(w))
  {
    var q, z := Quoted(w), FullEscape(p)[..m];
    var d := h + z;
    if Contains(d, q) {
      var k := StrStr(d, q, 0).value;
      WordEndsInHeader(h, p, m, w, k);
      MatchInPrefix(h, z, k, q);
      ContainsAt(h, k, q);
    }
    if Contains(h, q) {
      var k := StrStr(h, q, 0).value;
      MatchInPrefix(h, z, k, q);
      ContainsAt(d, k, q);
    }
  }

  lemma WordEndsInHeader(h: string, p: string, m: nat, w: string, k: nat)
    requires PlainWord(w) && m <= |FullEscape(p)| && MatchAt(h + FullEscape(p)[..m], k, Quoted(w))
    ensures k + |Quoted(w)| <= |h|
  {
    var q, e := Quoted(w), FullEscape(p);
    var d := h + e[..m];
    var x := k + |q| - 1;
    assert d[k + (|q| - 1)] == q[|q| - 1] == '"';
    assert d[k + (|q| - 2)] == q[|q| - 2] == w[|w| - 1];
    assert w[|w| - 1] in w;
    if x >= |h| { QuoteInCut(h, p, m, x); }
  }

  lemma QuoteInCut(h: string, p: string, m: nat, x: nat)
    requires m <= |FullEscape(p)| && |h| <= x < |h| + m && (h + FullEscape(p)[..m])[x] == '"'
    ensures x > |h| && (h + FullEscape(p)[..m])[x - 1] == '\\'
  {
    QuoteIsEscaped(p, x - |h|);
  }

  /** Losing the final brace loses no match of a text that does not end in one. */
  lemma WithoutBrace(d: string, n: string)
    requires n != [] && n[|n| - 1] != '}'
    ensures Contains(d + "}", n) <==> Contains(d, n)
  {
    if Contains(d + "}", n) {
      var k := StrStr(d + "}", n, 0).value;
      assert (d + "}")[k + (|n| - 1)] == n[|n| - 1];
      MatchInPrefix(d, "}", k, n);
      ContainsAt(d, k, n);
    }
    if Contains(d, n) {
      var k := StrStr(d, n, 0).value;
      MatchInPrefix(d, "}", k, n);
      ContainsAt(d + "}", k, n);
    }
  }

  lemma LostQuote(kind: Kind, payload: string)
    requires PayloadCut(kind, payload)
    ensures Compose(kind, payload) == Header(kind) + FullEscape(payload)[..Room(kind)]
  {
    ComposedBody(kind, payload);
    assert (FullEscape(payload) + FOOTER)[..Room(kind)] == FullEscape(payload)[..Room(kind)];
  }

  lemma LostBrace(kind: Kind, payload: string)
    requires |FullEscape(payload)| + 1 == Room(kind)
    ensures Compose(kind, payload) == Header(kind) + (FullEscape(payload) + "\"" + "")
    ensures Compose(kind, payload) + "}" == Whole(kind, payload)
  {
    ComposedBody(kind, payload);
    BraceCutOff(FullEscape(payload));
    BracePutBack(Header(kind), FullEscape(payload));
  }

  lemma BraceCutOff(e: string)
    ensures (e + FOOTER)[..|e| + 1] == e + "\"" + ""
  {}

  lemma BracePutBack(h: string, e: string)
    ensures h + (e + "\"" + "") + "}" == h + e + FOOTER
  {}

  lemma NothingLost(kind: Kind, payload: string)
    requires |FullEscape(payload)| + 1 < Room(kind)
    ensures Compose(kind, payload) == Header(kind) + (FullEscape(payload) + "\"" + "}") == Whole(kind, payload)
  {
    ComposedBody(kind, payload);
    ConcatAssoc(Header(kind), FullEscape(payload), FOOTER);
    assert FullEscape(payload) + FOOTER == FullEscape(payload) + "\"" + "}";
  }

  /** The composed message when it is not cut, cut before the brace, or cut inside the payload. */
  lemma ThreeLengths(kind: Kind, payload: string)
    ensures var d, e := Compose(kind, payload), FullEscape(payload);
            if PayloadCut(kind, payload) then d == Header(kind) + e[..Room(kind)]
            else if |e| + 1 == Room(kind) then d + "}" == Whole(kind, payload) && d == Header(kind) + (e + "\"" + "")
            else d == Whole(kind, payload) && d == Header(kind) + (e + "\"" + "}")
  {
    if PayloadCut(kind, payload) {
      LostQuote(kind, payload);
    } else if |FullEscape(payload)| + 1 == Room(kind) {
      LostBrace(kind, payload);
    } else {
      NothingLost(kind, payload);
    }
  }

  lemma WordInComposed(kind: Kind, payload: string, other: Kind)
    ensures Contains(Compose(kind, payload), Quoted(TypeWord(other))) <==>
            kind == other || (!PayloadCut(kind, payload) && Imitates(payload, TypeWord(other)))
  {
    ThreeLengths(kind, payload);
    if PayloadCut(kind, payload) {
      WordInCutMessage(Header(kind), payload, Room(kind), TypeWord(other));
      HeaderWord(kind, other);
    } else {
      WordInWhole(kind, payload, other);
      WithoutBrace(Compose(kind, payload), Quoted(TypeWord(other)));
    }
  }

  lemma ComposedTakenFor(kind: Kind, payload: string)
    ensures Classify(Compose(kind, payload)) == Some(TakenFor(kind, payload))
  {
    WordInComposed(kind, payload, Answer);
    WordInComposed(kind, payload, Offer);
    WordInComposed(kind, payload, Ice);
  }

  // ---------------------------------------------------------------- the text

  lemma ComposedTextFound(kind: Kind, payload: string)
    requires NulFree(payload)
    ensures Extract(Compose(kind, payload), Key(kind)) == Some(Text(kind, payload))
  {
    var e := FullEscape(payload);
    ThreeLengths(kind, payload);
    if PayloadCut(kind, payload) {
      ExtractAfterHeader(kind, e[..Room(kind)]);
      UnescapeCut(payload, Room(kind));
    } else {
      var tail := if |e| + 1 == Room(kind) then "" else "}";
      ExtractAfterHeader(kind, e + "\"" + tail);
      UnescapeLaw(payload, tail);
    }
  }

  lemma NoSdpInComposedIce(payload: string)
    requires !PayloadCut(Ice, payload)
    ensures Extract(Compose(Ice, payload), SDP_KEY).None?
  {
    ThreeLengths(Ice, payload);
    NoSdpInIce(payload);
    WithoutBrace(Compose(Ice, payload), SDP_KEY);
  }

  /** What the receiver does with every composed message, of every kind, payload and length. */
  lemma HandleComposed(kind: Kind, payload: string)
    requires NulFree(payload)
    ensures Handle(Compose(kind, payload)) == Received(kind, payload)
  {
    ComposedTakenFor(kind, payload);
    ComposedTextFound(kind, payload);
    if kind == Ice && !PayloadCut(kind, payload) { NoSdpInComposedIce(payload); }
  }

  // ---------------------------------------------------------------- delivered unchanged

  function Unchanged(kind: Kind, payload: string): Verdict
    requires kind != Offer
  {
    if kind == Answer then SetAnswer(payload) else AddCandidate(payload)
  }

  lemma TextIsPayloadIff(kind: Kind, payload: string)
    requires NulFree(payload)
    ensures Text(kind, payload) == payload <==> ComesThrough(payload, Room(kind))
  {
    var e := FullEscape(payload);
    if PayloadCut(kind, payload) {
      UnescapeCut(payload, Room(kind));
      CutIsIdentityIff(payload, Room(kind));
    } else {
      var tail := if |e| + 1 == Room(kind) then "" else "}";
      UnescapeLaw(payload, tail);
      UnescapeIsIdentityIff(payload, tail);
      StemEscape(payload);
    }
  }

  /** Half of the doubled final backslashes is still inside the full escape. */
  lemma StemEscape(s: string)
    ensures |FullEscape(Stem(s))| + 2 * TrailingBackslashes(s) == |FullEscape(s)|
  {
    var n := TrailingBackslashes(s);
    assert s == Stem(s) + Backslashes(n);
    FullEscapeConcat(Stem(s), Backslashes(n));
    EscapeBackslashes(n);
  }

  /**
    An answer or a candidate of any length is delivered unchanged exactly when it is taken for
    what it is and comes through the room its header leaves: free of backslash, LF, CR and TAB
    and short enough, or free of them up to final backslashes that the cut halves.
   */
  lemma DeliveredIff(kind: Kind, payload: string)
    requires NulFree(payload) && kind != Offer
    ensures Handle(Compose(kind, payload)) == Unchanged(kind, payload) <==>
            TakenFor(kind, payload) == kind && ComesThrough(payload, Room(kind))
  {
    HandleComposed(kind, payload);
    TextIsPayloadIff(kind, payload);
  }

  /** An answer is always taken for one, so the condition is about its payload alone. */
  lemma AnswerDeliveredIff(sdp: string)
    requires NulFree(sdp)
    ensures Handle(Compose(Answer, sdp)) == SetAnswer(sdp) <==> ComesThrough(sdp, Room(Answer))
  {
    DeliveredIff(Answer, sdp);
  }

  /** SDP lines end in CR LF (section 5 of RFC 8866): an SDP never arrives as it was sent. */
  lemma ControlNeverDelivered(kind: Kind, payload: string, i: nat)
    requires NulFree(payload) && kind != Offer && i < |payload|
    requires payload[i] == '\n' || payload[i] == '\r' || payload[i] == '\t'
    ensures Handle(Compose(kind, payload)) != Unchanged(kind, payload)
  {
    DeliveredIff(kind, payload);
    ControlNeverComesThrough(payload, Room(kind), i);
  }

  /** The shortest SDP line, and what arrives instead. */
  lemma SdpLineIsMangled()
    ensures Handle(Compose(Answer, "v=0\r\n")) == SetAnswer("v=0\\r\\n")
  {
    HandleComposed(Answer, "v=0\r\n");
    EscapeOfSdpLine();
    assert HalfDecoded("v=0\r\n") == "v=0\\r\\n";
  }

  lemma EscapeOfSdpLine()
    ensures FullEscape("v=0\r\n") == "v=0\\r\\n"
  {}

  /** The other way round: backslashes that fill the room arrive unchanged because they are cut. */
  lemma HalvedBackslashesArrive(sdp: string)
    requires sdp == Backslashes(Room(Answer))
    ensures !StubbornFree(sdp) && Handle(Compose(Answer, sdp)) == SetAnswer(sdp)
  {
    StartsWithBackslash(sdp, Room(Answer));
    assert sdp[0] in sdp;
    AnswerDeliveredIff(sdp);
  }

  /** An answer free of the four characters arrives whole, or as a prefix plus at most one stray backslash. */
  lemma OverflowingAnswer(sdp: string)
    requires NulFree(sdp) && StubbornFree(sdp)
    ensures var k := CutAt(sdp, Room(Answer));
            var stray := if |FullEscape(sdp[..k])| == Room(Answer) then [] else "\\";
            Handle(Compose(Answer, sdp)) == SetAnswer(if PayloadCut(Answer, sdp) then sdp[..k] + stray else sdp)
  {
    var k := CutAt(sdp, Room(Answer));
    HandleComposed(Answer, sdp);
    TextIsPayloadIff(Answer, sdp);
    assert forall c <- sdp[..k] :: c in sdp;
    HalfDecodedIdentity(sdp[..k]);
  }

  // ---------------------------------------------------------------- misread messages

  /** An offer that imitates an answer, and keeps its closing quote, is applied as one. */
  lemma OfferMisread(sdp: string)
    requires NulFree(sdp) && StubbornFree(sdp) && Imitates(sdp, TypeWord(Answer)) && !PayloadCut(Offer, sdp)
    ensures Handle(Compose(Offer, sdp)) == SetAnswer(sdp)
  {
    HandleComposed(Offer, sdp);
    TextIsPayloadIff(Offer, sdp);
  }

  /** The shortest misread messages: the bare words. */
  lemma BareWordMisread()
    ensures Handle(Compose(Offer, TypeWord(Answer))) == SetAnswer(TypeWord(Answer))
    ensures Handle(Compose(Ice, TypeWord(Answer))) == Rejected
    ensures Handle(Compose(Ice, TypeWord(Offer))) == NoAction
  {
    BareAnswerMisread();
    BareOfferMisread();
  }

  lemma BareAnswerMisread()
    ensures Handle(Compose(Offer, TypeWord(Answer))) == SetAnswer(TypeWord(Answer))
    ensures Handle(Compose(Ice, TypeWord(Answer))) == Rejected
  {
    FullEscapePlain(TypeWord(Answer));
    OfferMisread(TypeWord(Answer));
    HandleComposed(Ice, TypeWord(Answer));
  }

  lemma BareOfferMisread()
    ensures Handle(Compose(Ice, TypeWord(Offer))) == NoAction
  {
    FullEscapePlain(TypeWord(Offer));
    HandleComposed(Ice, TypeWord(Offer));
    OfferIsNotAnswer();
  }

  lemma OfferIsNotAnswer()
    ensures !Imitates(TypeWord(Offer), TypeWord(Answer))
  {}
}
