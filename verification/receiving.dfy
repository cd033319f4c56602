/**
 * What a Reader makes of a byte stream (msutil/reader.go), as functions of the whole stream: how its
 * source chunks the bytes and which buffers its caller offers do not occur here.
 */
module Receiving {
  import opened Bytes
  import opened Masking
  import opened Frame
  import opened Check
  import opened Codec
  import opened Closing

  /** A control frame as it is handed to OnIntermediate: its payload is unmasked, and cut if the stream is. */
  datatype Control = Control(header: Header, payload: seq<byte>)

  /** How a message ends: completely, in the middle of a (final) frame, or with an error. */
  datatype End = Done | Cut(final: bool) | Failed(err: Error)

  /** The rest of a message: its data, the control frames in between, its end, and the stream after it. */
  datatype Tail = Tail(data: seq<byte>, controls: seq<Control>, end: End, rest: seq<byte>)

  function EndError(e: End): Error
  {
    match e
    case Done => EOF
    case Cut(_) => UnexpectedEOF
    case Failed(err) => err
  }

  function Prepend(data: seq<byte>, controls: seq<Control>, t: Tail): Tail
  {
    t.(data := data + t.data, controls := controls + t.controls)
  }

  lemma {:induction false} PrependTwice(d: seq<byte>, cs: seq<Control>, e: seq<byte>, ds: seq<Control>, t: Tail)
    ensures Prepend(d, cs, Prepend(e, ds, t)) == Prepend(d + e, cs + ds, t)
  {
    assert d + (e + t.data) == (d + e) + t.data;
    assert cs + (ds + t.controls) == (cs + ds) + t.controls;
  }

  lemma {:induction false} PrependNothing(t: Tail)
    ensures Prepend([], [], t) == t
  {
    assert [] + t.data == t.data && [] + t.controls == t.controls;
  }

  /** The next header, checked, and the stream after it. */
  datatype Next = Next(err: Error, header: Header, rest: seq<byte>)

  function NextHeader(st: State, s: seq<byte>): (n: Next)
    ensures |n.rest| <= |s|
    ensures n.err == Nil ==> |n.rest| + 2 <= |s| && WellFormed(n.header)
  {
    hide DecodeRest, DecodeStart, EncodeHeader;
    var r := ReadHeaderFrom(s);
    if r.err == Nil then
      ReadHeaderWellFormed(s);
      Next(CheckHeader(r.header, st), r.header, s[r.used..])
    else Next(if r.err == EOF && st.fragmented then UnexpectedEOF else r.err, r.header, s[r.used..])
  }

  function Min(a: nat, b: nat): (m: nat)
    ensures m <= a && m <= b && (m == a || m == b)
  {
    if a <= b then a else b
  }

  /** As much of the frame's payload as the stream s has, unmasked. */
  function PayloadIn(h: Header, s: seq<byte>): seq<byte>
    requires 0 <= h.length
  {
    var p := s[..Min(h.length, |s|)];
    if h.masked then Masked(p, h.mask, 0) else p
  }

  function AfterPayload(h: Header, s: seq<byte>): seq<byte>
    requires 0 <= h.length
  {
    s[Min(h.length, |s|)..]
  }

  // What control frames get for an answer.

  datatype Answer = Answer(bytes: seq<byte>, err: Error)

  function ReplyMask(client: bool, mask: Mask): Option<Mask>
  {
    if client then Some(mask) else None
  }

  /** An empty reply carries a zero mask; any other is masked with the mask drawn for it. */
  function ReplyFrame(client: bool, op: OpCode, mask: Mask, p: seq<byte>): Frame
  {
    NewFrame(true, op, ReplyMask(client, mask), p)
  }

  /** The frame of closeWithProtocolError; in client state the payload is masked but the header does not say so. */
  function ProtocolErrorFrame(client: bool, mask: Mask, e: Error): Frame
  {
    var body := CloseBody(STATUS_PROTOCOL_ERROR, ErrorText(e));
    Frame(DataHeader(true, OP_CLOSE, None, |body|), if client then Masked(body, mask, 0) else body)
  }

  /** What a ControlHandler writes and returns for a checked control frame; a payload may be cut. */
  function AnswerTo(client: bool, mask: Mask, c: Control): Answer
  {
    if c.header.op == OP_PING then
      if c.header.length == 0 then Answer(EncodeFrame(ReplyFrame(client, OP_PONG, ZERO_MASK, [])), Nil)
      else if c.payload == [] then Answer([], Nil)
      else Answer(EncodeFrame(ReplyFrame(client, OP_PONG, mask, c.payload)), Nil)
    else if c.header.op == OP_PONG then Answer([], Nil)
    else if c.header.op == OP_CLOSE then
      if c.header.length == 0 then
        Answer(EncodeFrame(ReplyFrame(client, OP_CLOSE, ZERO_MASK, [])), Closed(STATUS_NO_STATUS_RCVD, []))
      else if |c.payload| < c.header.length then Answer([], if c.payload == [] then EOF else UnexpectedEOF)
      else
        var (code, reason) := ParseCloseFrameData(c.payload);
        var e := CheckCloseFrameData(code, reason);
        if e != Nil then Answer(EncodeFrame(ProtocolErrorFrame(client, mask, e)), e)
        else Answer(EncodeFrame(ReplyFrame(client, OP_CLOSE, mask, c.payload[..2])), Closed(code, reason))
    else Answer([], NotControlFrame)
  }

  /** The error of OnIntermediate: only the handler that replies has one. */
  function HandlerError(replies: bool, c: Control): Error
  {
    if replies then AnswerTo(false, ZERO_MASK, c).err else Nil
  }

  lemma {:induction false} ErrorOfAnswer(client: bool, mask: Mask, c: Control)
    ensures AnswerTo(client, mask, c).err == HandlerError(true, c)
  {
    hide EncodeFrame, ParseCloseFrameData, CheckCloseFrameData, ProtocolErrorFrame, ReplyFrame;
  }

  // Messages.

  /** The rest of a fragmented message, from a frame boundary in the stream s. */
  function MessageTail(st: State, replies: bool, s: seq<byte>): Tail
    requires st.fragmented
    decreases |s|
  {
    var n := NextHeader(st, s);
    if n.err != Nil then Tail([], [], Failed(n.err), n.rest)
    else
      var p, after := PayloadIn(n.header, n.rest), AfterPayload(n.header, n.rest);
      if IsControl(n.header.op) then
        var c := Control(n.header, p);
        if HandlerError(replies, c) != Nil then Tail([], [c], Failed(HandlerError(replies, c)), after)
        else Prepend([], [c], MessageTail(st, replies, after))
      else
        FrameTail(st.(fragmented := !n.header.fin), p, n.header.length - |p|,
          if n.header.fin then Tail([], [], Done, after) else MessageTail(st, replies, after))
  }

  /** The rest of a message from inside a frame of which p is left and then missing bytes are not there. */
  function FrameTail(st: State, p: seq<byte>, missing: int, next: Tail): Tail
  {
    if missing > 0 then Tail(p, [], Cut(!st.fragmented), []) else Prepend(p, [], next)
  }

  /** The rest of a message with a current frame of n more bytes, of which p are in the stream, unmasked. */
  function CurrentTail(st: State, replies: bool, p: seq<byte>, n: nat, s: seq<byte>): Tail
  {
    FrameTail(st, p, n - Min(n, |s|),
      var after := s[Min(n, |s|)..];
      if st.fragmented then MessageTail(st, replies, after) else Tail([], [], Done, after))
  }

  /** Reading a part of the current frame takes that part off the rest of the message. */
  lemma {:induction false} CurrentTailAfter(st: State, replies: bool, p: seq<byte>, n: nat, s: seq<byte>, k: nat)
    requires |p| == Min(n, |s|) && k <= |p|
    ensures CurrentTail(st, replies, p, n, s) == Prepend(p[..k], [], CurrentTail(st, replies, p[k..], n - k, s[k..]))
  {
    hide MessageTail;
    var m := Min(n, |s|);
    assert s[m..] == s[k..][m - k..];
    assert p == p[..k] + p[k..];
    if n <= |s| {
      var next := if st.fragmented then MessageTail(st, replies, s[m..]) else Tail([], [], Done, s[m..]);
      PrependTwice(p[..k], [], p[k..], [], next);
      var none: seq<Control> := [];
      assert none + none == none;
    }
  }

  /** The rest of the message when its first frame header h has just been read and s follows. */
  function StartTail(st: State, replies: bool, h: Header, s: seq<byte>): Tail
    requires 0 <= h.length
  {
    CurrentTail(st.(fragmented := !h.fin), replies, PayloadIn(h, s), h.length, s)
  }

  /** A continuation frame goes on with the message as its tail says. */
  lemma {:induction false} ContinuationTail(st: State, replies: bool, s: seq<byte>)
    requires st.fragmented && NextHeader(st, s).err == Nil && !IsControl(NextHeader(st, s).header.op)
    ensures var n := NextHeader(st, s);
            MessageTail(st, replies, s) == StartTail(st, replies, n.header, n.rest)
  {
    var n := NextHeader(st, s);
    assert st.(fragmented := !n.header.fin) == if n.header.fin then st.(fragmented := false) else st;
  }

  lemma {:induction false} TailIsShorter(st: State, replies: bool, s: seq<byte>)
    requires st.fragmented
    ensures |MessageTail(st, replies, s).rest| <= |s|
    decreases |s|
  {
    hide NextHeader, PayloadIn, HandlerError, IsControl;
    var n := NextHeader(st, s);
    if n.err == Nil {
      TailIsShorter(st, replies, AfterPayload(n.header, n.rest));
    }
  }

  // Discarding.

  /** What discarding the rest of a message does: the control frames handled, the error, the stream after it. */
  datatype Skipped = Skipped(controls: seq<Control>, err: Error, rest: seq<byte>)

  /** Discard does not notice that the final frame of a message is cut. */
  function DiscardError(e: End): Error
  {
    match e
    case Done => Nil
    case Cut(final) => if final then Nil else UnexpectedEOF
    case Failed(err) => err
  }

  function Discarded(t: Tail): Skipped
  {
    Skipped(t.controls, DiscardError(t.end), t.rest)
  }

  /** Discarding from the end of a frame. */
  function SkipFrom(st: State, replies: bool, s: seq<byte>): Skipped
  {
    if st.fragmented then Discarded(MessageTail(st, replies, s)) else Skipped([], Nil, s)
  }

  /** Discarding from inside a frame is discarding from its end, or from the end of the stream. */
  lemma {:induction false} SkipCurrent(st: State, replies: bool, p: seq<byte>, n: nat, s: seq<byte>)
    ensures Discarded(CurrentTail(st, replies, p, n, s)) == SkipFrom(st, replies, s[Min(n, |s|)..])
  {
    if n > |s| {
      assert s[Min(n, |s|)..] == [];
    } else {
      var next := if st.fragmented then MessageTail(st, replies, s[n..]) else Tail([], [], Done, s[n..]);
      assert [] + next.controls == next.controls;
    }
  }

  /** Discarding across one more frame. */
  lemma {:induction false} SkipNext(st: State, replies: bool, s: seq<byte>)
    requires st.fragmented
    ensures var n := NextHeader(st, s);
            if n.err != Nil then SkipFrom(st, replies, s) == Skipped([], n.err, n.rest)
            else
              var after := AfterPayload(n.header, n.rest);
              if IsControl(n.header.op) then
                var c := Control(n.header, PayloadIn(n.header, n.rest));
                var e := HandlerError(replies, c);
                var r := SkipFrom(st, replies, after);
                SkipFrom(st, replies, s) == if e != Nil then Skipped([c], e, after) else r.(controls := [c] + r.controls)
              else SkipFrom(st, replies, s) == SkipFrom(st.(fragmented := !n.header.fin), replies, after)
  {
    hide NextHeader, HandlerError, PayloadIn;
    var n := NextHeader(st, s);
    if n.err == Nil && !IsControl(n.header.op) {
      ContinuationTail(st, replies, s);
      SkipCurrent(st.(fragmented := !n.header.fin), replies, PayloadIn(n.header, n.rest), n.header.length, n.rest);
    }
  }
}
