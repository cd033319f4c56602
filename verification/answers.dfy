/** What the replies to control frames mean for the peer (msutil/handler.go; sections 5.5 and 7.4 of RFC 6455). */
module Answering {
  import opened Bytes
  import opened Masking
  import opened Frame
  import opened Check
  import opened Codec
  import opened Closing
  import Utf8
  import Sending
  import opened Receiving
  import opened Reading

  /** The state of the peer of an endpoint. */
  function Peer(client: bool): State
  {
    State(client, !client, false, false)
  }

  /** A frame that its receiver accepts between messages or inside one. */
  predicate Acceptable(f: Frame, to: State)
  {
    && Codec.WellFormed(f.header) && f.header.length == |f.payload|
    && CheckHeader(f.header, to) == Nil && CheckHeader(f.header, to.(fragmented := true)) == Nil
  }

  /** One lawful final control frame with payload p. */
  predicate Reply(f: Frame, client: bool, op: OpCode, p: seq<byte>)
  {
    f.header.op == op && f.header.fin && Acceptable(f, Peer(client)) && Unmasked(f) == p
  }

  lemma {:induction false} ReplyFrameReplies(client: bool, op: OpCode, mask: Mask, p: seq<byte>)
    requires 8 <= op <= 10 && |p| <= MAX_CONTROL_PAYLOAD
    ensures Reply(ReplyFrame(client, op, mask, p), client, op, p)
  {
    hide Masked;
    UnmaskedNewFrame(true, op, ReplyMask(client, mask), p);
  }

  /** A control frame that has arrived completely. */
  predicate Whole(c: Control)
  {
    c.header.length == |c.payload| <= MAX_CONTROL_PAYLOAD
  }

  /** A ping gets exactly one pong, with the same payload. */
  lemma {:induction false} PingGetsOnePong(client: bool, mask: Mask, c: Control) returns (f: Frame)
    requires c.header.op == OP_PING && Whole(c)
    ensures AnswerTo(client, mask, c) == Answer(EncodeFrame(f), Nil) && Reply(f, client, OP_PONG, c.payload)
    ensures f.header.mask == if client && c.payload != [] then mask else [0, 0, 0, 0]
  {
    hide EncodeFrame;
    f := ReplyFrame(client, OP_PONG, if c.payload == [] then ZERO_MASK else mask, c.payload);
    ReplyFrameReplies(client, OP_PONG, if c.payload == [] then ZERO_MASK else mask, c.payload);
  }

  /** A lawful close gets exactly one close with the code received, or none for none, and ends the conversation. */
  lemma {:induction false} CloseIsEchoed(client: bool, mask: Mask, c: Control) returns (f: Frame)
    requires c.header.op == OP_CLOSE && Whole(c)
    requires var (code, reason) := ParseCloseFrameData(c.payload);
             c.payload == [] || CheckCloseFrameData(code, reason) == Nil
    ensures var (code, reason) := ParseCloseFrameData(c.payload);
            && AnswerTo(client, mask, c).bytes == EncodeFrame(f)
            && AnswerTo(client, mask, c).err == Closed(if c.payload == [] then STATUS_NO_STATUS_RCVD else code, reason)
            && Reply(f, client, OP_CLOSE, if c.payload == [] then [] else c.payload[..2])
            && f.header.mask == if client && c.payload != [] then mask else [0, 0, 0, 0]
  {
    hide EncodeFrame, Masked, Unsigned, Utf8.WellFormed;
    if c.payload == [] {
      f := ReplyFrame(client, OP_CLOSE, ZERO_MASK, []);
      ReplyFrameReplies(client, OP_CLOSE, ZERO_MASK, []);
    } else {
      ValidBodyHasCode(c.payload);
      f := ReplyFrame(client, OP_CLOSE, mask, c.payload[..2]);
      ReplyFrameReplies(client, OP_CLOSE, mask, c.payload[..2]);
    }
  }

  /**
   * An unlawful close gets one close with code 1002 in server state. In client state the frame is masked,
   * but its header does not say so: the peer accepts it exactly in server state.
   */
  lemma {:induction false} UnlawfulCloseIsRefused(client: bool, mask: Mask, c: Control)
    requires c.header.op == OP_CLOSE && Whole(c) && c.payload != []
    requires var (code, reason) := ParseCloseFrameData(c.payload); CheckCloseFrameData(code, reason) != Nil
    ensures var (code, reason) := ParseCloseFrameData(c.payload);
            var e := CheckCloseFrameData(code, reason);
            var f := ProtocolErrorFrame(client, mask, e);
            && AnswerTo(client, mask, c) == Answer(EncodeFrame(f), e)
            && |f.payload| <= MAX_CONTROL_PAYLOAD
            && (Acceptable(f, Peer(client)) <==> !client)
            && (!client ==> Reply(f, client, OP_CLOSE, f.payload))
            && (!client ==> ParseCloseFrameData(Unmasked(f)) == (STATUS_PROTOCOL_ERROR, ErrorText(e)))
  {
    hide EncodeFrame, Unsigned, Utf8.WellFormed, ErrorText, BigEndian, Masked;
    var (code, reason) := ParseCloseFrameData(c.payload);
    var e := CheckCloseFrameData(code, reason);
    ErrorTextIsShort(e);
    ParseCloseBody(STATUS_PROTOCOL_ERROR, ErrorText(e));
  }

  /** A client that receives a close with the unused code 0 answers with a frame that a server must refuse. */
  lemma {:induction false} MaskedCloseIsRefused(mask: Mask)
    ensures var c := Control(Header(true, 0, OP_CLOSE, false, ZERO_MASK, 2), [0, 0]);
            var e := Protocol(StatusCodeNotInUse);
            && AnswerTo(true, mask, c) == Answer(EncodeFrame(ProtocolErrorFrame(true, mask, e)), e)
            && !Acceptable(ProtocolErrorFrame(true, mask, e), Peer(true))
  {
    hide EncodeFrame, ProtocolErrorFrame, Acceptable;
    var c := Control(Header(true, 0, OP_CLOSE, false, ZERO_MASK, 2), [0, 0]);
    assert c.payload[..2] == [0, 0];
    CodeZero();
    UnlawfulCloseIsRefused(true, mask, c);
  }

  lemma CodeZero()
    ensures Unsigned([0, 0]) == 0
  {}

  lemma ErrorTextIsShort(e: Error)
    ensures |ErrorText(e)| <= MAX_CONTROL_PAYLOAD - 2
  {}

  // Closes by their bytes.

  function CodeOf(p: seq<byte>): nat
    requires |p| >= 2
  {
    256 * (p[0] as int) + p[1] as int
  }

  /** A close body that may be received: none, or a code in use on the wire and a reason in UTF-8. */
  predicate LawfulBody(p: seq<byte>)
  {
    || p == []
    || (&& |p| >= 2 && Utf8.WellFormed(p[2..])
        && (1000 <= CodeOf(p) <= 1003 || 1007 <= CodeOf(p) <= 1011 || 3000 <= CodeOf(p)))
  }

  /** What a close with that body makes its handler return. */
  function CloseResult(p: seq<byte>): Error
  {
    if p == [] then Closed(1005, [])
    else if LawfulBody(p) then Closed(CodeOf(p), p[2..])
    else if |p| < 2 || CodeOf(p) < 1000 then Protocol(StatusCodeNotInUse)
    else if CodeOf(p) == 1005 || CodeOf(p) == 1006 || CodeOf(p) == 1015 then Protocol(StatusCodeApplicationLevel)
    else if CodeOf(p) == 1004 then Protocol(StatusCodeNoMeaning)
    else if 1012 <= CodeOf(p) < 3000 then Protocol(StatusCodeUnknown)
    else Protocol(InvalidReason)
  }

  /** The frame that answers a close: its code, or code 1002 for one that is refused. */
  predicate ClosingReply(f: Frame, client: bool, mask: Mask, p: seq<byte>)
  {
    if LawfulBody(p) then
      && Reply(f, client, OP_CLOSE, if p == [] then [] else p[..2])
      && f.header.mask == if client && p != [] then mask else [0, 0, 0, 0]
    else
      && f.header.op == OP_CLOSE && f.header.fin && 2 <= |f.payload| <= 125
      && (!client ==> Reply(f, client, OP_CLOSE, f.payload) && f.payload[..2] == [3, 234])
  }

  lemma {:induction false} BodyMeans(p: seq<byte>)
    ensures var (code, reason) := ParseCloseFrameData(p);
            && (|p| >= 2 ==> code == CodeOf(p) < 65536 && reason == p[2..])
            && (p != [] ==> CheckCloseFrameData(code, reason) == if LawfulBody(p) then Nil else CloseResult(p))
  {
    hide Utf8.WellFormed;
    if |p| >= 2 {
      UnsignedOfTwo(p[..2]);
      AcceptedCloseCodes(CodeOf(p), p[2..]);
    }
  }

  /** Every close that has arrived completely is answered with one frame, and its code and reason are returned. */
  lemma {:induction false} CloseIsAnswered(client: bool, mask: Mask, c: Control) returns (f: Frame)
    requires c.header.op == OP_CLOSE && Whole(c)
    ensures AnswerTo(client, mask, c) == Answer(EncodeFrame(f), CloseResult(c.payload))
    ensures ClosingReply(f, client, mask, c.payload)
  {
    hide EncodeFrame, ReplyFrame, Unsigned, Utf8.WellFormed, ErrorText, Masked, Acceptable;
    var p := c.payload;
    BodyMeans(p);
    if LawfulBody(p) {
      f := CloseIsEchoed(client, mask, c);
    } else {
      var e := CloseResult(p);
      UnlawfulCloseIsRefused(client, mask, c);
      f := ProtocolErrorFrame(client, mask, e);
      RefusalBody(e);
    }
  }

  lemma {:induction false} RefusalBody(e: Error)
    ensures |CloseBody(STATUS_PROTOCOL_ERROR, ErrorText(e))| >= 2
    ensures CloseBody(STATUS_PROTOCOL_ERROR, ErrorText(e))[..2] == [3, 234]
  {
    hide ErrorText;
    assert BigEndian(1002, 2) == BigEndian(3, 1) + [234];
    assert BigEndian(3, 1) == [3];
  }

  // All the answers of an endpoint.

  /** The payloads of the pings, in order. */
  function Pings(cs: seq<Control>): seq<seq<byte>>
  {
    if cs == [] then []
    else
      var c := cs[|cs| - 1];
      Pings(cs[..|cs| - 1]) + if c.header.op == OP_PING then [c.payload] else []
  }

  /** Where the pings are. */
  function PingsAt(cs: seq<Control>): (at: seq<nat>)
    ensures |at| == |Pings(cs)|
    ensures forall k :: 0 <= k < |at| ==> at[k] < |cs| && cs[at[k]].header.op == OP_PING && cs[at[k]].payload == Pings(cs)[k]
    ensures forall j, k :: 0 <= j < k < |at| ==> at[j] < at[k]
  {
    if cs == [] then []
    else
      var n := |cs| - 1;
      PingsAt(cs[..n]) + if cs[n].header.op == OP_PING then [n] else []
  }

  /** Complete pings and pongs. */
  predicate Peaceful(cs: seq<Control>)
  {
    forall i :: 0 <= i < |cs| ==> Whole(cs[i]) && (cs[i].header.op == OP_PING || cs[i].header.op == OP_PONG)
  }

  /** What has been answered is exactly one pong for each ping, in order of arrival. */
  lemma {:induction false} OnePongPerPing(client: bool, masks: Sending.Masks, cs: seq<Control>)
    returns (fs: seq<Frame>)
    requires Peaceful(cs)
    ensures Answers(client, masks, cs) == EncodeFrames(fs) && |fs| == |Pings(cs)|
    ensures forall k :: 0 <= k < |fs| ==> Reply(fs[k], client, OP_PONG, Pings(cs)[k])
    ensures forall k :: 0 <= k < |fs| ==>
      fs[k].header.mask == if client && Pings(cs)[k] != [] then masks(PingsAt(cs)[k]) else [0, 0, 0, 0]
  {
    hide EncodeFrame, AnswerTo, Reply;
    fs := [];
    if cs != [] {
      var c := cs[|cs| - 1];
      fs := OnePongPerPing(client, masks, cs[..|cs| - 1]);
      if c.header.op == OP_PING {
        var f := PingGetsOnePong(client, masks(|cs| - 1), c);
        EncodeFramesConcat(fs, [f]);
        assert EncodeFrames([f]) == EncodeFrame(f) + [] == EncodeFrame(f);
        fs := fs + [f];
      } else {
        PongIsSilent(client, masks(|cs| - 1), c);
      }
    }
  }

  lemma PongIsSilent(client: bool, mask: Mask, c: Control)
    requires c.header.op == OP_PONG
    ensures AnswerTo(client, mask, c) == Answer([], Nil)
  {}
}
