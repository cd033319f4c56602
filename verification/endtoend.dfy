/**
 * From frames on one side to messages on the other: what readers make of frames that follow the grammar of
 * section 5.4 of RFC 6455, and of the frames of a Writer.
 */
module EndToEnd {
  import opened Bytes
  import opened Masking
  import opened Frame
  import opened Check
  import opened Codec
  import Utf8
  import opened Messages
  import Sending
  import opened Receiving
  import opened Reading
  import opened Stream
  import opened Wire
  import opened Writing
  import opened Helper
  import opened Answering

  function Headers(fs: seq<Frame>): (hs: seq<Header>)
    ensures |hs| == |fs|
  {
    seq(|fs|, i requires 0 <= i < |fs| => fs[i].header)
  }

  /** The data payloads, unmasked and glued; control frames do not take part. */
  function Data(fs: seq<Frame>): seq<byte>
  {
    if fs == [] then []
    else (if IsControl(fs[0].header.op) then [] else Unmasked(fs[0])) + Data(fs[1..])
  }

  /** The control frames, unmasked, in order. */
  function ControlsIn(fs: seq<Frame>): seq<Control>
  {
    if fs == [] then []
    else (if IsControl(fs[0].header.op) then [Control(fs[0].header, Unmasked(fs[0]))] else []) + ControlsIn(fs[1..])
  }

  predicate Intact(f: Frame)
  {
    Codec.WellFormed(f.header) && f.header.length == |f.payload|
  }

  predicate AllIntact(fs: seq<Frame>)
  {
    forall i :: 0 <= i < |fs| ==> Intact(fs[i])
  }

  predicate NoClose(fs: seq<Frame>)
  {
    forall i :: 0 <= i < |fs| ==> fs[i].header.op != OP_CLOSE
  }

  lemma {:induction false} FrameArrives(st: State, f: Frame, s: seq<byte>)
    requires Intact(f) && CheckHeader(f.header, st) == Nil
    ensures NextHeader(st, EncodeFrame(f) + s) == Next(Nil, f.header, f.payload + s)
    ensures PayloadIn(f.header, f.payload + s) == Unmasked(f) && AfterPayload(f.header, f.payload + s) == s
  {
    hide EncodeHeader, CheckHeader, Masked, ReadHeaderFrom;
    var h, rest := EncodeHeader(f.header), f.payload + s;
    HeaderRoundTrip(f.header, rest);
    Associative(h, f.payload, s);
    SplitsHere(h, rest);
    SplitsHere(f.payload, s);
  }

  lemma SplitsHere(a: seq<byte>, b: seq<byte>)
    ensures (a + b)[..|a|] == a && (a + b)[|a|..] == b
  {}

  /** A control frame, other than a close that is answered, does not end a message, even if it is cut. */
  lemma {:induction false} StaysQuiet(replies: bool, h: Header, p: seq<byte>)
    requires ControlFrame(h) && (replies ==> h.op != OP_CLOSE)
    ensures HandlerError(replies, Control(h, p)) == Nil
  {
    hide EncodeFrame, Masked;
  }

  /** The first of more frames on the wire. */
  lemma {:induction false} FirstFrame(fs: seq<Frame>, s: seq<byte>)
    requires fs != []
    ensures EncodeFrames(fs) + s == EncodeFrame(fs[0]) + (EncodeFrames(fs[1..]) + s)
    ensures Headers(fs)[1..] == Headers(fs[1..]) && Headers(fs)[0] == fs[0].header
  {
    hide EncodeFrame;
    Associative(EncodeFrame(fs[0]), EncodeFrames(fs[1..]), s);
  }

  /**
   * Frames that finish a message, whatever control frames are injected, arrive as the glued payloads of its
   * data frames and the sequence of its control frames; the next message starts right after them.
   */
  lemma {:induction false} RestArrives(st: State, replies: bool, fs: seq<Frame>, s: seq<byte>)
    requires st.fragmented && !st.extended && AllIntact(fs) && (replies ==> NoClose(fs))
    requires AllLawful(Headers(fs), st) && MessageRest(Headers(fs))
    ensures MessageTail(st, replies, EncodeFrames(fs) + s) == Tail(Data(fs), ControlsIn(fs), Done, s)
    decreases |fs|
  {
    hide EncodeFrame, EncodeFrames, NextHeader, PayloadIn, AfterPayload, HandlerError, CheckHeader, Masked;
    var f, more := fs[0], fs[1..];
    FirstFrame(fs, s);
    CheckHeaderMeans(f.header, st);
    FrameArrives(st, f, EncodeFrames(more) + s);
    if |fs| > 1 {
      RestArrives(st, replies, more, s);
    } else {
      NoMoreFrames(s);
      assert Data(fs) == Unmasked(f) + [] == Unmasked(f);
    }
    if IsControl(f.header.op) {
      StaysQuiet(replies, f.header, Unmasked(f));
    }
  }

  lemma NoMoreFrames(s: seq<byte>)
    ensures EncodeFrames([]) + s == s && Data([]) == [] && ControlsIn([]) == []
  {}

  /** A whole data message, single or fragmented, with control frames injected anywhere. */
  predicate DataItem(st: State, fs: seq<Frame>)
  {
    LawfulItem(st, fs) && MessageStart(fs[0].header)
  }

  lemma {:induction false} MessageArrives(st: State, replies: bool, fs: seq<Frame>, s: seq<byte>)
    requires !st.fragmented && !st.extended && DataItem(st, fs) && (replies ==> NoClose(fs))
    ensures var n := NextHeader(st, EncodeFrames(fs) + s);
            && n.err == Nil && n.header == fs[0].header
            && NextMessage(st, replies, EncodeFrames(fs) + s) == Tail(Data(fs), ControlsIn(fs), Done, s)
  {
    hide EncodeFrame, EncodeFrames, NextHeader, CheckHeader, Masked, MessageTail;
    var f, more := fs[0], fs[1..];
    FirstFrame(fs, s);
    CheckHeaderMeans(f.header, st);
    FrameArrives(st, f, EncodeFrames(more) + s);
    if |fs| > 1 {
      LawfulAnywhere(Headers(more), st, true);
      RestArrives(st.(fragmented := true), replies, more, s);
    } else {
      NoMoreFrames(s);
    }
    CurrentFrame(st.(fragmented := !f.header.fin), replies, f.payload, Unmasked(f), EncodeFrames(more) + s);
    assert Data(fs) == Unmasked(f) + Data(more) && [] + ControlsIn(more) == ControlsIn(more);
  }

  /** A frame that is all there comes before the rest of its message. */
  lemma {:induction false} CurrentFrame(st: State, replies: bool, payload: seq<byte>, p: seq<byte>, s: seq<byte>)
    requires |p| == |payload|
    ensures CurrentTail(st, replies, p, |payload|, payload + s)
         == Prepend(p, [], if st.fragmented then MessageTail(st, replies, s) else Tail([], [], Done, s))
  {
    hide MessageTail;
    SplitsHere(payload, s);
  }

  lemma {:induction false} ControlArrives(st: State, want: OpCode, f: Frame, s: seq<byte>)
    requires !st.fragmented && !st.extended && Intact(f) && ControlFrame(f.header) && Lawful(f.header, st)
    requires f.header.op != OP_CLOSE
    ensures DataMessage(st, want, EncodeFrame(f) + s)
         == HeardAfter([Control(f.header, Unmasked(f))], DataMessage(st, want, s))
  {
    hide EncodeFrame, NextHeader, CheckHeader, Masked, PayloadIn, AfterPayload, DataMessage, HandlerError;
    CheckHeaderMeans(f.header, st);
    FrameArrives(st, f, s);
    HeardControl(st, want, EncodeFrame(f) + s);
    StaysQuiet(true, f.header, Unmasked(f));
  }

  lemma {:induction false} ControlsConcat(fs: seq<Frame>, gs: seq<Frame>)
    ensures ControlsIn(fs + gs) == ControlsIn(fs) + ControlsIn(gs)
  {
    hide Unmasked, IsControl;
    if fs == [] {
      assert fs + gs == gs;
    } else {
      var f, more, all := fs[0], fs[1..], fs + gs;
      ControlsConcat(more, gs);
      assert all[1..] == more + gs && all[0] == f;
      var c := if IsControl(f.header.op) then [Control(f.header, Unmasked(f))] else [];
      Associative(c, ControlsIn(more), ControlsIn(gs));
    }
  }

  /** No message in fs is wanted. */
  predicate NoneWanted(fs: seq<Frame>, want: OpCode)
  {
    forall i :: 0 <= i < |fs| && MessageStart(fs[i].header) ==> !Wanted(fs[i].header.op, want)
  }

  /** Lawful frames in whole items. */
  ghost predicate Talk(st: State, fs: seq<Frame>)
  {
    AllIntact(fs) && AllLawful(Headers(fs), st) && Conversation(Headers(fs))
  }

  predicate LawfulItem(st: State, fs: seq<Frame>)
  {
    AllIntact(fs) && AllLawful(Headers(fs), st) && Item(Headers(fs))
  }

  /** The first item of a talk. */
  lemma {:induction false} FirstItem(st: State, fs: seq<Frame>) returns (item: seq<Frame>, more: seq<Frame>)
    requires Talk(st, fs) && fs != []
    ensures fs == item + more && item != [] && LawfulItem(st, item) && Talk(st, more)
  {
    hide Codec.WellFormed, Item;
    var hs := Headers(fs);
    var k :| 0 < k <= |hs| && Item(hs[..k]) && Conversation(hs[k..]);
    item, more := fs[..k], fs[k..];
    assert hs[..k] == Headers(item) && hs[k..] == Headers(more);
    LawfulTail(hs, k, st);
  }

  /** Parts of a sequence of frames on the wire. */
  lemma {:induction false} InTwoParts(fs: seq<Frame>, gs: seq<Frame>, s: seq<byte>)
    ensures EncodeFrames(fs + gs) + s == EncodeFrames(fs) + (EncodeFrames(gs) + s)
    ensures ControlsIn(fs + gs) == ControlsIn(fs) + ControlsIn(gs)
  {
    hide EncodeFrames, ControlsIn;
    EncodeFramesConcat(fs, gs);
    ControlsConcat(fs, gs);
    Associative(EncodeFrames(fs), EncodeFrames(gs), s);
  }

  lemma {:induction false} PartsWithout(fs: seq<Frame>, gs: seq<Frame>, want: OpCode)
    ensures NoClose(fs + gs) <==> NoClose(fs) && NoClose(gs)
    ensures NoneWanted(fs + gs, want) <==> NoneWanted(fs, want) && NoneWanted(gs, want)
  {
    hide Wanted;
    var all := fs + gs;
    assert forall i :: 0 <= i < |fs| ==> all[i] == fs[i];
    assert forall i :: 0 <= i < |gs| ==> all[|fs| + i] == gs[i];
  }

  /** Unwanted messages are skipped whole, and all control frames in and between them are answered. */
  lemma {:induction false} UnwantedIsSkipped(st: State, want: OpCode, fs: seq<Frame>, s: seq<byte>)
    requires !st.fragmented && !st.extended && Talk(st, fs) && NoClose(fs) && NoneWanted(fs, want)
    ensures DataMessage(st, want, EncodeFrames(fs) + s) == HeardAfter(ControlsIn(fs), DataMessage(st, want, s))
    decreases |fs|
  {
    hide EncodeFrames, ControlsIn, DataMessage, HeardAfter, Talk, LawfulItem, NoneWanted, NoClose;
    if fs == [] {
      NoMoreFrames(s);
      HeardNothing(DataMessage(st, want, s));
    } else {
      var item, more := FirstItem(st, fs);
      PartsWithout(item, more, want);
      InTwoParts(item, more, s);
      UnwantedIsSkipped(st, want, more, s);
      SkipItem(st, want, item, EncodeFrames(more) + s);
      HeardTwice(ControlsIn(item), ControlsIn(more), DataMessage(st, want, s));
    }
  }

  lemma {:induction false} HeardNothing(h: Heard)
    ensures HeardAfter([], h) == h
  {
    assert [] + h.controls == h.controls;
  }

  lemma {:induction false} SkipItem(st: State, want: OpCode, fs: seq<Frame>, s: seq<byte>)
    requires !st.fragmented && !st.extended && LawfulItem(st, fs) && NoClose(fs) && NoneWanted(fs, want)
    ensures DataMessage(st, want, EncodeFrames(fs) + s) == HeardAfter(ControlsIn(fs), DataMessage(st, want, s))
  {
    hide EncodeFrame, EncodeFrames, DataMessage, Masked, Wanted, NextHeader, StartTail;
    if MessageStart(fs[0].header) {
      MessageArrives(st, true, fs, s);
      HeardUnwanted(st, want, EncodeFrames(fs) + s);
    } else {
      FirstFrame(fs, s);
      NoMoreFrames(s);
      ControlArrives(st, want, fs[0], s);
      assert ControlsIn(fs) == [Control(fs[0].header, Unmasked(fs[0]))] + [];
    }
  }

  /**
   * On lawful frames without a close, readData returns the first wanted message, glued from its fragments,
   * after it has answered every control frame before its end, and leaves the stream just after it.
   */
  lemma {:induction false} FirstWantedIsHeard(st: State, want: OpCode, fs: seq<Frame>, message: seq<Frame>,
      s: seq<byte>)
    requires !st.fragmented && !st.extended && Talk(st, fs)
    requires NoneWanted(fs, want) && DataItem(st, message) && Wanted(message[0].header.op, want)
    requires NoClose(fs) && NoClose(message)
    ensures var op := message[0].header.op;
            DataMessage(st, want, EncodeFrames(fs + message) + s)
            == Heard(if op == OP_TEXT && !Utf8.WellFormed(Data(message)) then InvalidUTF8 else Nil,
                     op, Data(message), ControlsIn(fs + message), s)
  {
    hide EncodeFrames, DataMessage, Masked, Wanted, NextHeader, StartTail, Utf8.WellFormed, Hopeless, Talk;
    InTwoParts(fs, message, s);
    var t := EncodeFrames(message) + s;
    UnwantedIsSkipped(st, want, fs, t);
    MessageArrives(st, true, message, s);
    HeardWanted(st, want, t);
    if Utf8.WellFormed(Data(message)) {
      WellFormedIsHopeful(Data(message));
    }
  }

  /** Every control frame keeps the rules for control frames. */
  predicate ControlsAreLawful(fs: seq<Frame>)
  {
    forall i :: 0 <= i < |fs| && IsControl(fs[i].header.op) ==> ControlFrame(fs[i].header)
  }

  lemma {:induction false} LaterHeaders(fs: seq<Frame>)
    requires fs != []
    ensures Headers(fs)[1..] == Headers(fs[1..]) && Headers(fs)[0] == fs[0].header
    ensures ControlsAreLawful(fs) <==>
              (IsControl(fs[0].header.op) ==> ControlFrame(fs[0].header)) && ControlsAreLawful(fs[1..])
  {
    hide ControlFrame, IsControl;
    assert forall i :: 1 <= i < |fs| ==> fs[i] == fs[1..][i - 1];
  }

  lemma {:induction false} RestControls(fs: seq<Frame>)
    requires MessageRest(Headers(fs))
    ensures ControlsAreLawful(fs)
  {
    hide ControlsAreLawful;
    LaterHeaders(fs);
    if |fs| > 1 {
      RestControls(fs[1..]);
    } else {
      NoControls();
    }
  }

  lemma NoControls()
    ensures ControlsAreLawful([])
  {}

  lemma {:induction false} ItemControls(fs: seq<Frame>)
    requires Item(Headers(fs))
    ensures ControlsAreLawful(fs)
  {
    hide ControlsAreLawful;
    LaterHeaders(fs);
    if |fs| > 1 {
      RestControls(fs[1..]);
    } else {
      NoControls();
    }
  }

  lemma {:induction false} TalkControls(st: State, fs: seq<Frame>)
    requires Talk(st, fs)
    ensures ControlsAreLawful(fs)
    decreases |fs|
  {
    if fs != [] {
      var item, more := FirstItem(st, fs);
      ItemControls(item);
      TalkControls(st, more);
    }
  }

  /** Without a close, the control frames are complete pings and pongs. */
  lemma {:induction false} ControlsArePeaceful(fs: seq<Frame>)
    requires AllIntact(fs) && NoClose(fs) && ControlsAreLawful(fs)
    ensures Peaceful(ControlsIn(fs))
  {
    hide Masked;
    if fs != [] {
      var more := fs[1..];
      assert forall i :: 0 <= i < |more| ==> more[i] == fs[i + 1];
      ControlsArePeaceful(more);
    }
  }

  lemma {:induction false} WellFormedIsHopeful(s: seq<byte>)
    requires Utf8.WellFormed(s)
    ensures !Hopeless(s)
  {
    hide Utf8.WellFormed;
    assert s + [] == s;
  }

  // The frames of a Writer.

  /** The frames of one message: only the first has its opcode, and only the last is final, if it is closed. */
  predicate Piece(fs: seq<Frame>, m: Message, closed: bool)
  {
    && fs != [] && fs[0].header.op == m.op && Payloads(fs) == m.payload
    && (forall i :: 1 <= i < |fs| ==> fs[i].header.op == OP_CONTINUATION)
    && (forall i :: 0 <= i < |fs| - 1 ==> !fs[i].header.fin)
    && fs[|fs| - 1].header.fin == closed
  }

  /** All payloads, unmasked. */
  function Payloads(fs: seq<Frame>): seq<byte>
  {
    if fs == [] then [] else Payloads(fs[..|fs| - 1]) + Unmasked(fs[|fs| - 1])
  }

  /** The frames of the last message, which may be open still. */
  lemma {:induction false} LastPiece(fs: seq<Frame>) returns (k: nat)
    requires fs != [] && Glue(fs).Some?
    ensures k < |fs| && Glue(fs[..k]).Some?
    ensures var g, h := Glue(fs).value, Glue(fs[..k]).value;
            && h.open.None?
            && if g.open.Some? then g.messages == h.messages && Piece(fs[k..], g.open.value, false)
               else g.messages != [] && g.messages == h.messages + [g.messages[|g.messages| - 1]]
                    && Piece(fs[k..], g.messages[|g.messages| - 1], true)
    decreases |fs|
  {
    hide Unmasked, Piece;
    var n := |fs| - 1;
    var a, f := fs[..n], fs[n];
    if Glue(a).value.open.None? {
      k := n;
      assert fs[k..] == [f];
      OnePiece(f);
    } else {
      k := LastPiece(a);
      assert fs[..k] == a[..k] && fs[k..] == a[k..] + [f];
      OneMore(a[k..], Glue(a).value.open.value, f);
    }
  }

  lemma {:induction false} OnePiece(f: Frame)
    ensures Piece([f], Message(f.header.op, Unmasked(f)), f.header.fin)
  {
    hide Unmasked;
    assert Payloads([f]) == [] + Unmasked(f) == Unmasked(f);
  }

  /** A continuation goes on with an open message, or closes it. */
  lemma {:induction false} OneMore(fs: seq<Frame>, m: Message, f: Frame)
    requires Piece(fs, m, false) && f.header.op == OP_CONTINUATION
    ensures Piece(fs + [f], m.(payload := m.payload + Unmasked(f)), f.header.fin)
  {
    hide Unmasked;
    assert (fs + [f])[..|fs|] == fs;
  }

  /** Continuations of which only the last is final finish a message. */
  lemma {:induction false} ContinuationsFinish(fs: seq<Frame>, st: State, client: bool)
    requires fs != [] && Sending.AllSent(fs, client) && st == Peer(client).(fragmented := st.fragmented)
    requires forall i :: 0 <= i < |fs| ==> fs[i].header.op == OP_CONTINUATION && fs[i].header.fin == (i == |fs| - 1)
    ensures MessageRest(Headers(fs)) && AllLawful(Headers(fs), st)
    ensures ControlsIn(fs) == [] && Data(fs) == Payloads(fs)
    decreases |fs|
  {
    hide Unmasked;
    PayloadsFromTheFront(fs);
    var hs := Headers(fs);
    assert hs[1..] == Headers(fs[1..]) && hs[0] == fs[0].header;
    if |fs| > 1 {
      ContinuationsFinish(fs[1..], st, client);
    } else {
      assert fs[1..] == [];
    }
  }

  lemma {:induction false} PayloadsFromTheFront(fs: seq<Frame>)
    requires fs != []
    ensures Payloads(fs) == Unmasked(fs[0]) + Payloads(fs[1..])
  {
    hide Unmasked;
    var n := |fs| - 1;
    if n > 0 {
      PayloadsFromTheFront(fs[..n]);
      assert fs[..n][1..] == fs[1..][..n - 1];
    }
  }

  lemma {:induction false} PayloadIsShorter(fs: seq<Frame>, i: nat)
    requires i < |fs|
    ensures |fs[i].payload| <= |Payloads(fs)|
  {
    hide Masked;
    if i < |fs| - 1 {
      PayloadIsShorter(fs[..|fs| - 1], i);
    }
  }

  /** A message that a reader can be sent: text or binary, and of a length that a frame can have. */
  predicate Deliverable(m: Message)
  {
    (m.op == OP_TEXT || m.op == OP_BINARY) && |m.payload| <= LEN64
  }

  lemma {:induction false} PieceIsIntact(fs: seq<Frame>, client: bool)
    requires Sending.AllSent(fs, client) && |Payloads(fs)| <= LEN64
    requires forall i :: 0 <= i < |fs| ==> fs[i].header.op < 16
    ensures AllIntact(fs)
  {
    hide Payloads;
    forall i | 0 <= i < |fs| ensures Intact(fs[i]) {
      PayloadIsShorter(fs, i);
    }
  }

  /** The frames of a closed message are a lawful item that arrives as that message. */
  lemma {:induction false} PieceIsItem(fs: seq<Frame>, m: Message, client: bool)
    requires Piece(fs, m, true) && Sending.AllSent(fs, client) && Deliverable(m)
    ensures DataItem(Peer(client), fs) && Data(fs) == m.payload && ControlsIn(fs) == []
  {
    hide Unmasked, Payloads, MessageRest, AllLawful, AllIntact, Sending.Sent;
    PieceIsIntact(fs, client);
    PayloadsFromTheFront(fs);
    var more := fs[1..];
    FirstIsLawful(fs, client);
    if more != [] {
      ContinuationsFinish(more, Peer(client), client);
    } else {
      NoMoreFrames([]);
      NoMorePayloads();
      NothingIsLawful(Peer(client));
    }
  }

  lemma FirstIsLawful(fs: seq<Frame>, client: bool)
    requires fs != [] && Sending.Sent(fs[0], client) && fs[0].header.op < 16
    ensures Headers(fs)[0] == fs[0].header && Headers(fs)[1..] == Headers(fs[1..])
    ensures AllLawful(Headers(fs), Peer(client)) <==> AllLawful(Headers(fs[1..]), Peer(client))
  {}

  lemma NothingIsLawful(st: State)
    ensures AllLawful(Headers([]), st)
  {}

  lemma NoMorePayloads()
    ensures Payloads([]) == []
  {}

  /** Reading the stream s message by message gives ms, with the control frames cs inside them, and leaves rest. */
  ghost predicate Receives(st: State, s: seq<byte>, ms: seq<Message>, cs: seq<Control>, rest: seq<byte>)
    requires !st.fragmented
    decreases ms
  {
    if ms == [] then s == rest && cs == []
    else
      && NextHeader(st, s).err == Nil && NextHeader(st, s).header.op == ms[0].op
      && var t := NextMessage(st, false, s);
         && t.data == ms[0].payload && t.end == Done && t.controls <= cs
         && Receives(st, t.rest, ms[1..], cs[|t.controls|..], rest)
  }

  lemma {:induction false} ReceivesMore(st: State, s: seq<byte>, ms: seq<Message>, mid: seq<byte>, m: Message,
      rest: seq<byte>)
    requires !st.fragmented && Receives(st, s, ms, [], mid) && Receives(st, mid, [m], [], rest)
    ensures Receives(st, s, ms + [m], [], rest)
    decreases ms
  {
    hide NextHeader, NextMessage;
    if ms == [] {
      assert ms + [m] == [m];
    } else {
      assert (ms + [m])[1..] == ms[1..] + [m];
      ReceivesMore(st, NextMessage(st, false, s).rest, ms[1..], mid, m, rest);
    }
  }

  lemma {:induction false} PieceIsReceived(fs: seq<Frame>, client: bool, m: Message, s: seq<byte>)
    requires Piece(fs, m, true) && Sending.AllSent(fs, client) && Deliverable(m)
    ensures Receives(Peer(client), EncodeFrames(fs) + s, [m], [], s)
  {
    hide EncodeFrames, NextHeader, NextMessage, DataItem, Payloads;
    PieceIsItem(fs, m, client);
    MessageArrives(Peer(client), false, fs, s);
    assert [m][1..] == [];
    assert Receives(Peer(client), s, [], [], s);
  }

  /** Whatever frames glue to whole messages, the peer receives those messages. */
  lemma {:induction false} GluedIsReceived(fs: seq<Frame>, client: bool, ms: seq<Message>, s: seq<byte>)
    requires Sending.AllSent(fs, client) && Glue(fs) == Some(Messages.Glued(ms, None))
    requires forall i :: 0 <= i < |ms| ==> Deliverable(ms[i])
    ensures Receives(Peer(client), EncodeFrames(fs) + s, ms, [], s)
    decreases |fs|
  {
    hide EncodeFrames, Receives, Piece, Sending.Sent, Deliverable;
    if fs == [] {
      NoMoreFrames(s);
      NothingReceived(Peer(client), s);
    } else {
      var k := LastPiece(fs);
      var a, b, m := fs[..k], fs[k..], ms[|ms| - 1];
      var mid := EncodeFrames(b) + s;
      assert fs == a + b;
      EncodeFramesConcat(a, b);
      Associative(EncodeFrames(a), EncodeFrames(b), s);
      PieceIsReceived(b, client, m, s);
      var before := ms[..|ms| - 1];
      assert Glue(a) == Some(Messages.Glued(before, None));
      GluedIsReceived(a, client, before, mid);
      ReceivesMore(Peer(client), EncodeFrames(fs) + s, before, mid, m, s);
      assert ms == before + [m];
    }
  }

  lemma NothingReceived(st: State, s: seq<byte>)
    requires !st.fragmented
    ensures Receives(st, s, [], [], s)
  {}

  /** All messages that a run of a fresh Writer has accepted. */
  function Accepted(op: OpCode, client: bool, noFlush: bool, raw: nat, masks: Sending.Masks,
      cs: seq<Sending.Call>): Sending.Log
    requires Sending.Reserve(client, raw) < raw
  {
    Sending.RecordAll(Sending.Log([], None), Sending.Fresh(op, client, noFlush, raw), masks, cs)
  }

  /**
   * End to end: whatever calls are made on a Writer, with any buffer size and masks, after a Flush its peer
   * receives exactly the accepted bytes of every message, with the Writer's opcode.
   */
  lemma {:induction false} RunIsReceived(op: OpCode, client: bool, noFlush: bool, raw: nat, masks: Sending.Masks,
                      cs: seq<Sending.Call>, s: seq<byte>)
    requires Sending.Reserve(client, raw) < raw && (op == OP_TEXT || op == OP_BINARY)
    requires var ms := Accepted(op, client, noFlush, raw, masks, cs + [Sending.CallFlush]).messages;
             forall i :: 0 <= i < |ms| ==> |ms[i]| <= LEN64
    ensures var all := cs + [Sending.CallFlush];
            var l := Accepted(op, client, noFlush, raw, masks, all);
            var r := Sending.Run(Sending.Fresh(op, client, noFlush, raw), masks, all);
            && l.current == None
            && Receives(Peer(client), EncodeFrames(r.frames) + s, Sending.WithOp(op, l.messages), [], s)
  {
    hide EncodeFrames, Receives, Sending.Run, Sending.RecordAll, Glue, Sending.AllSent;
    var w, l0 := Sending.Fresh(op, client, noFlush, raw), Sending.Log([], None);
    var all := cs + [Sending.CallFlush];
    Sending.FreshIsConsistent(op, client, noFlush, raw);
    Sending.RunIsConsistent(w, l0, masks, all);
    Sending.FlushCloses(w, masks, cs);
    Sending.RunKeepsKind(w, masks, all);
    var r, l := Sending.Run(w, masks, all), Sending.RecordAll(l0, w, masks, all);
    assert Sending.Consistent(r, l);
    GluedIsReceived(r.frames, client, Sending.WithOp(op, l.messages), s);
  }

  /** One message, split into calls in any way, arrives as all its parts glued. */
  lemma {:induction false} OneMessageIsReceived(op: OpCode, client: bool, noFlush: bool, raw: nat, masks: Sending.Masks,
                             cs: seq<Sending.Call>, s: seq<byte>)
    requires Sending.Reserve(client, raw) < raw && (op == OP_TEXT || op == OP_BINARY)
    requires Sending.Opens(cs) && Sending.OneMessage(Sending.Fresh(op, client, noFlush, raw), masks, cs)
    requires |Sending.AllGiven(cs)| <= LEN64
    ensures var r := Sending.Run(Sending.Fresh(op, client, noFlush, raw), masks, cs + [Sending.CallFlush]);
            Receives(Peer(client), EncodeFrames(r.frames) + s, [Message(op, Sending.AllGiven(cs))], [], s)
  {
    hide EncodeFrames, Receives, Sending.Run, Sending.RecordAll, Sending.AllGiven, Sending.Opens, Sending.OneMessage;
    var all := Sending.AllGiven(cs);
    Sending.OneMessageIsAccepted(Sending.Fresh(op, client, noFlush, raw), masks, cs);
    assert Accepted(op, client, noFlush, raw, masks, cs + [Sending.CallFlush]).messages == [all];
    RunIsReceived(op, client, noFlush, raw, masks, cs, s);
    assert Sending.WithOp(op, [all]) == [Message(op, all)];
  }

  // Any lawful frames.

  /** An item as a reader sees it: a message, or a control frame of its own, and the control frames inside. */
  function MessageOf(fs: seq<Frame>): Message
    requires fs != []
  {
    Message(fs[0].header.op, if IsControl(fs[0].header.op) then Unmasked(fs[0]) else Data(fs))
  }

  function ControlsInside(fs: seq<Frame>): seq<Control>
    requires fs != []
  {
    if IsControl(fs[0].header.op) then [] else ControlsIn(fs)
  }

  ghost predicate AllItems(st: State, items: seq<seq<Frame>>)
  {
    forall i :: 0 <= i < |items| ==> items[i] != [] && LawfulItem(st, items[i])
  }

  function Flat(items: seq<seq<Frame>>): seq<Frame>
  {
    if items == [] then [] else items[0] + Flat(items[1..])
  }

  ghost function MessagesOf(st: State, items: seq<seq<Frame>>): (ms: seq<Message>)
    requires AllItems(st, items)
    ensures |ms| == |items|
  {
    seq(|items|, i requires 0 <= i < |items| => MessageOf(items[i]))
  }

  ghost function AllInside(st: State, items: seq<seq<Frame>>): seq<Control>
    requires AllItems(st, items)
  {
    if items == [] then [] else ControlsInside(items[0]) + AllInside(st, items[1..])
  }

  lemma {:induction false} ItemArrives(st: State, fs: seq<Frame>, s: seq<byte>)
    requires !st.fragmented && !st.extended && fs != [] && LawfulItem(st, fs)
    ensures var n := NextHeader(st, EncodeFrames(fs) + s);
            && n.err == Nil && n.header.op == MessageOf(fs).op
            && NextMessage(st, false, EncodeFrames(fs) + s) == Tail(MessageOf(fs).payload, ControlsInside(fs), Done, s)
  {
    hide EncodeFrame, EncodeFrames, NextHeader, CheckHeader, Masked, MessageTail, Data, ControlsIn;
    var f := fs[0];
    if MessageStart(f.header) {
      MessageArrives(st, false, fs, s);
    } else {
      FirstFrame(fs, s);
      NoMoreFrames(s);
      CheckHeaderMeans(f.header, st);
      FrameArrives(st, f, s);
      CurrentFrame(st, false, f.payload, Unmasked(f), s);
      assert Unmasked(f) + [] == Unmasked(f);
    }
  }

  /** Any lawful items, messages with control frames inside and control frames between them, are received. */
  lemma {:induction false} ItemsAreReceived(st: State, items: seq<seq<Frame>>, s: seq<byte>)
    requires !st.fragmented && !st.extended && AllItems(st, items)
    ensures Receives(st, EncodeFrames(Flat(items)) + s, MessagesOf(st, items), AllInside(st, items), s)
    decreases |items|
  {
    hide EncodeFrames, ControlsIn, LawfulItem, NextHeader, NextMessage, MessageOf, ControlsInside;
    if items == [] {
      NoMoreFrames(s);
    } else {
      var item, more := items[0], items[1..];
      var t, cs := EncodeFrames(Flat(more)) + s, AllInside(st, more);
      InTwoParts(item, Flat(more), s);
      ItemArrives(st, item, t);
      ItemsAreReceived(st, more, s);
      assert MessagesOf(st, items)[1..] == MessagesOf(st, more);
      assert AllInside(st, items)[|ControlsInside(item)|..] == cs;
    }
  }

  /** Every talk falls into such items. */
  lemma {:induction false} TalkInItems(st: State, fs: seq<Frame>) returns (items: seq<seq<Frame>>)
    requires Talk(st, fs)
    ensures AllItems(st, items) && Flat(items) == fs
    decreases |fs|
  {
    hide Talk, LawfulItem;
    items := [];
    if fs != [] {
      var item, more := FirstItem(st, fs);
      var rest := TalkInItems(st, more);
      items := [item] + rest;
      assert items[1..] == rest;
    }
  }

  /** A Reader whose handler does not reply, between messages. */
  ghost predicate Between(rd: Reader, st: State)
    reads rd, rd.raw, rd.cipher, rd.utf8, rd.source, rd.handler.Objects()
  {
    && rd.Valid() && rd.Settled() && !rd.handler.Replying?
    && rd.state == st && !st.fragmented && rd.utf8.dfa == Utf8.START
  }

  predicate TextIsValid(m: Message)
  {
    m.op == OP_TEXT ==> Utf8.WellFormed(m.payload)
  }

  /** One message: NextFrame, and then io.ReadAll. */
  method ReceiveMessage(rd: Reader, ghost st: State, ghost ms: seq<Message>, ghost cs: seq<Control>,
      ghost rest: seq<byte>)
    returns (m: Message, err: Error, ghost inside: seq<Control>)
    requires Between(rd, st) && ms != [] && Receives(st, rd.source.data, ms, cs, rest)
    requires rd.checkUtf8 ==> TextIsValid(ms[0])
    modifies rd, rd.raw, rd.cipher, rd.utf8, rd.source
    ensures err == Nil && m == ms[0] && Between(rd, st) && inside <= cs && rd.log == old(rd.log) + inside
    ensures Receives(st, rd.source.data, ms[1..], cs[|inside|..], rest)
  {
    hide NextHeader, StartTail, PayloadIn, Hopeless, Utf8.WellFormed, Reader.Core, Reader.Handled, MessageTail;
    hide Finished, Going;
    ghost var s, payload := rd.source.data, ms[0].payload;
    if Utf8.WellFormed(payload) {
      WellFormedIsHopeful(payload);
    }
    var h;
    h, err := StartMessage(rd);
    ghost var t, log, end := NextMessage(st, false, s), rd.log, EOF;
    inside := t.controls;
    var data;
    data, err, end := ReadAll(rd, t, log, rd.checkUtf8 && h.op == OP_TEXT);
    WholeMessage(rd, t, log, h.op == OP_TEXT && rd.checkUtf8, data, end);
    m := Message(h.op, data);
  }

  /**
   * As many messages as there are, with any chunks of the source and any buffers; the handler is called for
   * the control frames inside them, once for each and in order.
   */
  method ReceiveMessages(rd: Reader, st: State, count: nat, ghost ms: seq<Message>, ghost cs: seq<Control>,
                         ghost rest: seq<byte>) returns (got: seq<Message>)
    requires !st.fragmented && Between(rd, st) && Receives(st, rd.source.data, ms, cs, rest) && count == |ms|
    requires rd.checkUtf8 ==> forall i :: 0 <= i < |ms| ==> TextIsValid(ms[i])
    modifies rd, rd.raw, rd.cipher, rd.utf8, rd.source
    ensures got == ms && rd.log == old(rd.log) + cs && rd.source.data == rest && Between(rd, st)
  {
    hide Receives, Between, TextIsValid;
    got := [];
    ghost var log, left := rd.log, cs;
    for i := 0 to count
      invariant got == ms[..i] && Between(rd, st) && Receives(st, rd.source.data, ms[i..], left, rest)
      invariant rd.log + left == log + cs
    {
      ghost var inside;
      var m, e;
      m, e, inside := ReceiveMessage(rd, st, ms[i..], left, rest);
      assert ms[i..][1..] == ms[i + 1..];
      assert left == inside + left[|inside|..];
      left := left[|inside|..];
      got := got + [m];
    }
    assert ms[count..] == [];
    NothingLeft(st, rd.source.data, left, rest);
  }

  lemma NothingLeft(st: State, s: seq<byte>, cs: seq<Control>, rest: seq<byte>)
    requires !st.fragmented
    ensures Receives(st, s, [], cs, rest) <==> s == rest && cs == []
  {}

  /**
   * Any lawful frames on the objects: a Reader delivers every message glued from its fragments, its handler gets
   * every control frame inside one, and the source stands right after the last frame.
   */
  method ReceiveTalk(rd: Reader, st: State, count: nat, ghost items: seq<seq<Frame>>, ghost s: seq<byte>)
    returns (got: seq<Message>)
    requires !st.fragmented && !st.extended && Between(rd, st) && AllItems(st, items) && count == |items|
    requires rd.source.data == EncodeFrames(Flat(items)) + s
    requires rd.checkUtf8 ==> forall i :: 0 <= i < |items| ==> TextIsValid(MessageOf(items[i]))
    modifies rd, rd.raw, rd.cipher, rd.utf8, rd.source
    ensures got == MessagesOf(st, items) && rd.log == old(rd.log) + AllInside(st, items) && rd.source.data == s
  {
    hide Receives, Between, TextIsValid, LawfulItem, EncodeFrames, AllInside;
    ItemsAreReceived(st, items, s);
    got := ReceiveMessages(rd, st, count, MessagesOf(st, items), AllInside(st, items), s);
  }

  /**
   * End to end, on the objects: a Writer of any history on a destination that does not fail is flushed, and a
   * Reader on the other side reads what arrived.
   */
  method FlushAndReceive(w: Writer, ghost raw: nat, ghost cs: seq<Sending.Call>, count: nat, suffix: seq<byte>,
                         eager: bool, checkUtf8: bool) returns (got: seq<Message>, rest: seq<byte>)
    requires w.Valid() && w.err == Nil && w.dest.reliable && w.base == []
    requires Sending.Reserve(w.state.client, raw) < raw && (w.op == OP_TEXT || w.op == OP_BINARY)
    requires w.ideal == Sending.Run(Sending.Fresh(w.op, w.state.client, false, raw), w.masks, cs)
    requires var ms := Accepted(w.op, w.state.client, false, raw, w.masks, cs + [Sending.CallFlush]).messages;
             && count == |ms|
             && forall i :: 0 <= i < |ms| ==> |ms[i]| <= LEN64 && (checkUtf8 ==> TextIsValid(Message(w.op, ms[i])))
    modifies w, w.raw, w.dest
    ensures got == Sending.WithOp(old(w.op), Accepted(old(w.op), old(w.state.client), false, raw, w.masks,
                                                      cs + [Sending.CallFlush]).messages)
    ensures rest == suffix
  {
    hide Receives, Accepted, Sending.Run, TextIsValid, Writer.Layout, Reader.Core, Sending.Flush, EncodeFrames;
    ghost var op, client := w.op, w.state.client;
    ghost var all := cs + [Sending.CallFlush];
    ghost var ms := Accepted(op, client, false, raw, w.masks, all).messages;
    Sending.FlushCloses(Sending.Fresh(op, client, false, raw), w.masks, cs);
    RunIsReceived(op, client, false, raw, w.masks, cs, suffix);
    var e := w.Flush();
    assert w.dest.out == [] + EncodeFrames(w.ideal.frames) == EncodeFrames(w.ideal.frames);
    var source := new Source(w.dest.out + suffix, eager);
    var st := Peer(w.state.client);
    var rd := new Reader(source, st, checkUtf8, NoHandler, []);
    got := ReceiveMessages(rd, st, count, Sending.WithOp(op, ms), [], suffix);
    rest := source.data;
  }

  /** The calls that may be made while flushing is enabled, with slices of a possible length. */
  predicate Streaming(c: Sending.Call)
  {
    match c
    case CallWrite(p) => |p| <= MAX_LEN
    case CallWriteThrough(p) => |p| <= MAX_LEN
    case CallGrow(_) => false
    case CallDisableFlush => false
    case _ => true
  }

  predicate AllStreaming(cs: seq<Sending.Call>)
  {
    forall i :: 0 <= i < |cs| ==> Streaming(cs[i])
  }

  /** What a call may add to the size that a buffer has to have. */
  function Weight(c: Sending.Call): nat
  {
    |Sending.Given(c)| + if c.CallGrow? then c.n else 0
  }

  function Weights(cs: seq<Sending.Call>): nat
  {
    if cs == [] then 0 else Weight(cs[0]) + Weights(cs[1..])
  }

  /** Either the buffer never grows, or all that it may have to hold fits into one of a possible size. */
  predicate Possible(buffered: nat, noFlush: bool, cs: seq<Sending.Call>)
  {
    (!noFlush && AllStreaming(cs)) || 2 * (buffered + Weights(cs)) + 14 < MAX_GROWN
  }

  lemma PossibleAfter(buffered: nat, noFlush: bool, cs: seq<Sending.Call>, after: nat, noFlushAfter: bool)
    requires cs != [] && Possible(buffered, noFlush, cs)
    requires after <= buffered + Weight(cs[0]) && (Streaming(cs[0]) ==> noFlushAfter == noFlush)
    ensures Possible(after, noFlushAfter, cs[1..])
  {}

  lemma PossibleFirst(buffered: nat, noFlush: bool, cs: seq<Sending.Call>)
    requires cs != [] && Possible(buffered, noFlush, cs)
    ensures (!noFlush && Streaming(cs[0])) || 2 * (buffered + Weight(cs[0])) + 14 < MAX_GROWN
  {}

  /** One call on a Writer. */
  method PerformOne(w: Writer, c: Sending.Call)
    requires w.Valid() && ((!w.noFlush && Streaming(c)) || 2 * (w.n + Weight(c)) + 14 < MAX_GROWN)
    modifies w, w.raw, w.dest
    ensures w.Valid() && (w.raw == old(w.raw) || fresh(w.raw)) && Sending.Sane(old(w.ideal))
    ensures w.ideal == Sending.Apply(old(w.ideal), w.masks, c)
    ensures old(w.err) != Nil ==> w.err == old(w.err) && w.dest.out == old(w.dest.out)
    ensures w.dest.reliable ==> w.err == old(w.err)
    ensures w.n <= old(w.n) + Weight(c) && (Streaming(c) ==> w.noFlush == old(w.noFlush))
  {
    hide OnTheWire, Writer.Layout, Sending.Fill, Sending.ReadFrom, Sending.Emit, Sending.Reserve, FailedRead;
    match c
    case CallWrite(p) =>
      var buf := new byte[|p|](i requires 0 <= i < |p| => p[i]);
      assert buf[0..|p|] == p;
      var m, e := w.Write(buf, 0, |p|);
    case CallWriteThrough(p) =>
      var buf := new byte[|p|](i requires 0 <= i < |p| => p[i]);
      assert buf[0..|p|] == p;
      var m, e := w.WriteThrough(buf, 0, |p|);
    case CallReadFrom(d, eager) =>
      var src := new Source(d, eager);
      var m, e := w.ReadFrom(src);
    case CallFlushFragment =>
      var e := w.FlushFragment();
    case CallFlush =>
      var e := w.Flush();
    case CallGrow(n) =>
      w.Grow(n);
    case CallDisableFlush =>
      w.DisableFlush();
  }

  /**
   * A whole run: it keeps the Writer in step with the machine; once it has failed nothing more is sent, and
   * what the destination has received is a prefix of what the same run sends when nothing fails.
   */
  method Perform(w: Writer, cs: seq<Sending.Call>)
    requires w.Valid() && Possible(w.n, w.noFlush, cs)
    modifies w, w.raw, w.dest
    ensures w.Valid() && (w.raw == old(w.raw) || fresh(w.raw)) && Sending.Sane(old(w.ideal))
    ensures w.ideal == Sending.Run(old(w.ideal), w.masks, cs)
    ensures old(w.err) != Nil ==> w.err == old(w.err) && w.dest.out == old(w.dest.out)
    ensures w.dest.reliable ==> w.err == old(w.err)
    ensures OnTheWire(w.base, w.dest.out, Sending.Run(old(w.ideal), w.masks, cs).frames, w.err)
  {
    hide OnTheWire, Writer.Layout, Sending.Apply, Writer.Now, Possible, Streaming, Weight, Sending.Reserve;
    ghost var start := w.ideal;
    assert cs[..0] == [] && cs[0..] == cs;
    for i := 0 to |cs|
      invariant w.Valid() && (w.raw == old(w.raw) || fresh(w.raw)) && Sending.Sane(start)
      invariant Possible(w.n, w.noFlush, cs[i..])
      invariant w.ideal == Sending.Run(start, w.masks, cs[..i])
      invariant old(w.err) != Nil ==> w.err == old(w.err) && w.dest.out == old(w.dest.out)
      invariant w.dest.reliable ==> w.err == old(w.err)
    {
      ghost var n, noFlush := w.n, w.noFlush;
      assert cs[i..][0] == cs[i] && cs[i..][1..] == cs[i + 1..];
      PossibleFirst(n, noFlush, cs[i..]);
      PerformOne(w, cs[i]);
      PossibleAfter(n, noFlush, cs[i..], w.n, w.noFlush);
      Sending.RunSnoc(start, w.masks, cs[..i], cs[i]);
      assert cs[..i + 1] == cs[..i] + [cs[i]];
    }
    assert cs[..|cs|] == cs;
  }

  /** The buffer that NewWriterBufferSize makes for n. */
  function BufferFor(n: int): nat
  {
    if n <= MIN_HEADER_SIZE then DEFAULT_WRITE_BUFFER else n
  }

  /**
   * A new Writer after any calls: what its destination has received is all the frames that it has sent, or a prefix of
   * them after a failure, and the k-th frame of a client carries the k-th mask drawn.
   */
  method PerformNew(client: bool, op: OpCode, n: int, masks: Sending.Masks, cs: seq<Sending.Call>, reliable: bool)
    returns (w: Writer, ghost frames: seq<Frame>)
    requires Sending.Reserve(client, BufferFor(n)) < BufferFor(n) <= MAX_LEN && Possible(0, false, cs)
    ensures OnTheWire([], w.dest.out, frames, w.err) && (reliable ==> w.err == Nil)
    ensures frames == Sending.Run(Sending.Fresh(op, client, false, BufferFor(n)), masks, cs).frames
    ensures forall k :: 0 <= k < |frames| ==>
      && frames[k].header.masked == client
      && frames[k].header.mask == if client then masks(k) else [0, 0, 0, 0]
  {
    hide Sending.Run, Writer.Layout, Sending.Reserve, OnTheWire;
    Sending.EachFrameHasItsMask(op, client, false, BufferFor(n), masks, cs);
    var dest := new Sink(reliable);
    w := NewWriterBufferSize(dest, State(!client, client, false, false), op, n, masks);
    Perform(w, cs);
    frames := Sending.Run(Sending.Fresh(op, client, false, BufferFor(n)), masks, cs).frames;
  }

  /**
   * From end to end: any calls on a new Writer with any buffer size and masks, a Flush, and a Reader on the
   * other side that gets the bytes in any chunks. It delivers exactly the bytes accepted for every message.
   */
  method SendAndReceive(client: bool, op: OpCode, n: int, masks: Sending.Masks, cs: seq<Sending.Call>, count: nat,
                        suffix: seq<byte>, eager: bool, checkUtf8: bool) returns (got: seq<Message>, rest: seq<byte>)
    requires Sending.Reserve(client, BufferFor(n)) < BufferFor(n) <= MAX_LEN
    requires (op == OP_TEXT || op == OP_BINARY) && Possible(0, false, cs)
    requires var ms := Accepted(op, client, false, BufferFor(n), masks, cs + [Sending.CallFlush]).messages;
             && count == |ms|
             && forall i :: 0 <= i < |ms| ==> |ms[i]| <= LEN64 && (checkUtf8 ==> TextIsValid(Message(op, ms[i])))
    ensures got == Sending.WithOp(op, Accepted(op, client, false, BufferFor(n), masks, cs + [Sending.CallFlush]).messages)
    ensures rest == suffix
  {
    hide Accepted, Sending.Run, TextIsValid, Writer.Layout, Sending.Reserve, OnTheWire;
    Sending.RunKeepsKind(Sending.Fresh(op, client, false, BufferFor(n)), masks, cs);
    var dest := new Sink(true);
    var w := NewWriterBufferSize(dest, State(!client, client, false, false), op, n, masks);
    Perform(w, cs);
    got, rest := FlushAndReceive(w, BufferFor(n), cs, count, suffix, eager, checkUtf8);
  }

  /**
   * readData on lawful frames without a close: it returns the first wanted message, leaves the stream just after
   * it, and has written exactly one pong for each ping before its end, in order of arrival.
   */
  method ReadLawfulData(rw: Source, dst: Sink, st: State, want: OpCode, masks: Sending.Masks, ghost fs: seq<Frame>,
                        ghost message: seq<Frame>, ghost s: seq<byte>)
    returns (bts: seq<byte>, op: OpCode, err: Error, ghost pongs: seq<Frame>)
    requires !st.fragmented && !st.extended && dst.reliable && rw.data == EncodeFrames(fs + message) + s
    requires Talk(st, fs) && NoneWanted(fs, want) && DataItem(st, message) && Wanted(message[0].header.op, want)
    requires NoClose(fs) && NoClose(message) && TextIsValid(Message(message[0].header.op, Data(message)))
    modifies rw, dst
    ensures err == Nil && op == message[0].header.op && bts == Data(message) && rw.data == s
    ensures dst.out == old(dst.out) + EncodeFrames(pongs)
    ensures var pings := Pings(ControlsIn(fs + message));
            && |pongs| == |pings|
            && forall k :: 0 <= k < |pongs| ==>
                 && Reply(pongs[k], st.client, OP_PONG, pings[k])
                 && pongs[k].header.mask == if st.client && pings[k] != []
                                            then masks(PingsAt(ControlsIn(fs + message))[k]) else [0, 0, 0, 0]
  {
    hide EncodeFrames, DataMessage, Wanted, Utf8.WellFormed, Hopeless, Talk, Item, Answers, Pings, Reply, Data;
    hide ControlsIn;
    var all := fs + message;
    TalkControls(st, fs);
    ItemControls(message);
    ControlsArePeaceful(all) by {
      TalkIsIntact(st, fs);
    }
    FirstWantedIsHeard(st, want, fs, message, s);
    ghost var cs;
    bts, op, err, cs := ReadData(rw, dst, st, want, masks);
    pongs := OnePongPerPing(st.client, masks, cs);
  }

  lemma TalkIsIntact(st: State, fs: seq<Frame>)
    requires Talk(st, fs)
    ensures AllIntact(fs)
  {}
}
