/** Protocol checks (check.go) and the fragmentation rules they enforce (section 5.4 of RFC 6455). */
module Check {
  import opened Bytes
  import opened Frame

  function CheckHeader(h: Header, s: State): Error
  {
    if IsReserved(h.op) then Protocol(OpCodeReserved)
    else if IsControl(h.op) && h.length > MAX_CONTROL_PAYLOAD then Protocol(ControlPayloadOverflow)
    else if IsControl(h.op) && !h.fin then Protocol(ControlNotFinal)
    else if h.rsv != 0 && !s.extended then Protocol(NonZeroRsv)
    else if s.server && !h.masked then Protocol(MaskRequired)
    else if s.client && h.masked then Protocol(MaskUnexpected)
    else if s.fragmented && !IsControl(h.op) && h.op != OP_CONTINUATION then Protocol(ContinuationExpected)
    else if !s.fragmented && h.op == OP_CONTINUATION then Protocol(ContinuationUnexpected)
    else Nil
  }

  /** The fragment bit after a checked header: a control frame inside a message leaves it alone. */
  function Advance(s: State, h: Header): State
  {
    if s.fragmented && IsControl(h.op) then s else s.(fragmented := !h.fin)
  }

  /** The state after a sequence of headers, or None when one of them fails its check. */
  function Fold(s: State, hs: seq<Header>): Option<State>
    decreases hs
  {
    if hs == [] then Some(s)
    else if CheckHeader(hs[0], s) != Nil then None
    else Fold(Advance(s, hs[0]), hs[1..])
  }

  // The grammar of section 5.4 of RFC 6455, for endpoints without extensions.

  /** A header that follows the rules that concern a single frame. */
  predicate Lawful(h: Header, s: State)
  {
    h.rsv == 0 && (s.server ==> h.masked) && (s.client ==> !h.masked) && h.op < 16
  }

  predicate ControlFrame(h: Header)
  {
    8 <= h.op <= 10 && h.fin && h.length <= MAX_CONTROL_PAYLOAD
  }

  predicate MessageStart(h: Header) { h.op == OP_TEXT || h.op == OP_BINARY }

  predicate Continuation(h: Header) { h.op == OP_CONTINUATION }

  /** The frames that finish a fragmented message: controls and continuations, the last one alone final. */
  predicate MessageRest(hs: seq<Header>)
  {
    && hs != []
    && if |hs| == 1 then Continuation(hs[0]) && hs[0].fin
       else (ControlFrame(hs[0]) || (Continuation(hs[0]) && !hs[0].fin)) && MessageRest(hs[1..])
  }

  /** A control frame, an unfragmented message, or a fragmented one with controls injected anywhere in it. */
  predicate Item(hs: seq<Header>)
  {
    && hs != []
    && if |hs| == 1 then ControlFrame(hs[0]) || (MessageStart(hs[0]) && hs[0].fin)
       else MessageStart(hs[0]) && !hs[0].fin && MessageRest(hs[1..])
  }

  /** A sequence of whole items. */
  ghost predicate Conversation(hs: seq<Header>)
  {
    hs == [] || exists k {:trigger hs[..k]} :: 0 < k <= |hs| && Item(hs[..k]) && Conversation(hs[k..])
  }

  predicate AllLawful(hs: seq<Header>, s: State)
    decreases hs
  {
    hs == [] || (Lawful(hs[0], s) && AllLawful(hs[1..], s))
  }

  /** What CheckHeader demands of a header, for an endpoint without extensions. */
  lemma CheckHeaderMeans(h: Header, s: State)
    requires !s.extended && h.op < 16
    ensures CheckHeader(h, s) == Nil <==>
      && Lawful(h, s)
      && (ControlFrame(h) || (if s.fragmented then Continuation(h) else MessageStart(h)))
    ensures IsControl(h.op) <==> 8 <= h.op
  {}

  predicate FourBits(hs: seq<Header>)
  {
    forall i :: 0 <= i < |hs| ==> hs[i].op < 16
  }

  lemma {:induction false} LawfulTail(hs: seq<Header>, k: nat, s: State)
    requires k <= |hs|
    ensures AllLawful(hs, s) <==> AllLawful(hs[..k], s) && AllLawful(hs[k..], s)
    decreases k
  {
    if k > 0 {
      LawfulTail(hs[1..], k - 1, s);
      assert hs[1..][..k - 1] == hs[..k][1..] && hs[1..][k - 1..] == hs[k..];
    } else {
      assert hs[..0] == [] && hs[0..] == hs;
    }
  }

  /** The side of an endpoint is all that AllLawful looks at. */
  lemma {:induction false} LawfulAnywhere(hs: seq<Header>, s: State, b: bool)
    ensures AllLawful(hs, s.(fragmented := b)) == AllLawful(hs, s)
    decreases hs
  {
    if hs != [] {
      LawfulAnywhere(hs[1..], s, b);
    }
  }

  /** Inside a message, the checks accept what finishes it, and then are outside of a message. */
  lemma {:induction false} FoldInsideMessage(s: State, hs: seq<Header>, k: nat)
    requires !s.extended && s.fragmented && k <= |hs| && FourBits(hs)
    requires AllLawful(hs[..k], s) && MessageRest(hs[..k])
    ensures Fold(s, hs) == Fold(s.(fragmented := false), hs[k..])
    decreases k
  {
    hide CheckHeader;
    CheckHeaderMeans(hs[0], s);
    if k > 1 {
      assert hs[..k][1..] == hs[1..][..k - 1];
      FoldInsideMessage(s, hs[1..], k - 1);
      assert hs[1..][k - 1..] == hs[k..];
    }
  }

  /** What is accepted inside a message and ends outside of one starts with the rest of that message. */
  lemma {:induction false} RestOfMessage(s: State, hs: seq<Header>) returns (k: nat)
    requires !s.extended && s.fragmented && FourBits(hs)
    requires Fold(s, hs).Some? && !Fold(s, hs).value.fragmented
    ensures 0 < k <= |hs| && MessageRest(hs[..k]) && AllLawful(hs[..k], s)
    ensures Fold(s, hs) == Fold(s.(fragmented := false), hs[k..])
    decreases hs
  {
    hide CheckHeader;
    CheckHeaderMeans(hs[0], s);
    if Continuation(hs[0]) && hs[0].fin {
      k := 1;
    } else {
      var j := RestOfMessage(s, hs[1..]);
      k := j + 1;
      assert hs[1..][j..] == hs[k..];
      assert hs[..k][1..] == hs[1..][..j];
    }
  }

  lemma {:induction false} FoldKeepsTheSide(s: State, hs: seq<Header>)
    ensures Fold(s, hs).Some? ==> Fold(s, hs).value == s.(fragmented := Fold(s, hs).value.fragmented)
    decreases hs
  {
    hide CheckHeader;
    if hs != [] {
      FoldKeepsTheSide(Advance(s, hs[0]), hs[1..]);
    }
  }

  /** Folding the checks over headers, and ending with no message open, accepts exactly the grammar. */
  lemma {:induction false} FoldAcceptsTheGrammar(s: State, hs: seq<Header>)
    requires !s.extended && !s.fragmented && FourBits(hs)
    ensures Fold(s, hs).Some? && !Fold(s, hs).value.fragmented <==> AllLawful(hs, s) && Conversation(hs)
    ensures Fold(s, hs).Some? && !Fold(s, hs).value.fragmented ==> Fold(s, hs).value == s
  {
    FoldKeepsTheSide(s, hs);
    if Fold(s, hs).Some? && !Fold(s, hs).value.fragmented {
      AcceptedIsConversation(s, hs);
    }
    if AllLawful(hs, s) && Conversation(hs) {
      ConversationIsAccepted(s, hs);
    }
  }

  lemma {:induction false} AcceptedIsConversation(s: State, hs: seq<Header>)
    requires !s.extended && !s.fragmented && FourBits(hs)
    requires Fold(s, hs).Some? && !Fold(s, hs).value.fragmented
    ensures AllLawful(hs, s) && Conversation(hs)
    decreases hs
  {
    hide CheckHeader;
    if hs != [] {
      CheckHeaderMeans(hs[0], s);
      var k := 1;
      if !hs[0].fin {
        var j := RestOfMessage(Advance(s, hs[0]), hs[1..]);
        k := j + 1;
        assert hs[1..][j..] == hs[k..] && hs[..k][1..] == hs[1..][..j];
        LawfulAnywhere(hs[1..][..j], s, true);
      }
      assert Item(hs[..k]) && AllLawful(hs[..k], s);
      AcceptedIsConversation(s, hs[k..]);
      LawfulTail(hs, k, s);
    }
  }

  lemma {:induction false} ConversationIsAccepted(s: State, hs: seq<Header>)
    requires !s.extended && !s.fragmented && FourBits(hs)
    requires AllLawful(hs, s) && Conversation(hs)
    ensures Fold(s, hs) == Some(s)
    decreases hs
  {
    hide CheckHeader;
    if hs != [] {
      var k :| 0 < k <= |hs| && Item(hs[..k]) && Conversation(hs[k..]);
      LawfulTail(hs, k, s);
      CheckHeaderMeans(hs[0], s);
      assert hs[..k][0] == hs[0];
      ConversationIsAccepted(s, hs[k..]);
      if k > 1 {
        assert hs[..k][1..] == hs[1..][..k - 1] && hs[1..][k - 1..] == hs[k..];
        LawfulAnywhere(hs[..k][1..], s, true);
        FoldInsideMessage(Advance(s, hs[0]), hs[1..], k - 1);
      }
    }
  }

  /** A reported violation is one that the header commits. */
  lemma ViolationIsReal(h: Header, s: State)
    requires h.op < 16 && CheckHeader(h, s) != Nil
    ensures CheckHeader(h, s).Protocol?
    ensures match CheckHeader(h, s).violation
            case OpCodeReserved => 3 <= h.op <= 7 || 11 <= h.op <= 15
            case ControlPayloadOverflow => 8 <= h.op <= 10 && h.length > 125
            case ControlNotFinal => 8 <= h.op <= 10 && !h.fin
            case NonZeroRsv => h.rsv != 0 && !s.extended
            case MaskRequired => s.server && !h.masked
            case MaskUnexpected => s.client && h.masked
            case ContinuationExpected => s.fragmented && 1 <= h.op <= 2
            case ContinuationUnexpected => !s.fragmented && h.op == 0
            case _ => false
  {}
}
