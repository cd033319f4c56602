/**
 * Frames that end the reading: those that break the rules of sections 5.2, 5.4 and 5.5 of RFC 6455, and closes
 * (msutil/reader.go, msutil/helper.go, check.go).
 */
module Refusing {
  import opened Bytes
  import opened Masking
  import opened Frame
  import opened Check
  import opened Codec
  import Utf8
  import opened Messages
  import opened Stream
  import opened TextReader
  import Sending
  import opened Receiving
  import opened Reading
  import opened Helper
  import opened Answering
  import opened EndToEnd

  /** A header that may come next. */
  predicate Permitted(h: Header, st: State)
  {
    Lawful(h, st) && (ControlFrame(h) || if st.fragmented then Continuation(h) else MessageStart(h))
  }

  /** Of all headers on the wire, a Reader lets exactly those pass that may come next, and consumes just the header. */
  lemma {:induction false} HeaderIsChecked(st: State, h: Header, s: seq<byte>)
    requires Codec.WellFormed(h) && !st.extended
    ensures var n := NextHeader(st, EncodeHeader(h) + s);
            && n.header == h && n.rest == s
            && (n.err == Nil <==> Permitted(h, st)) && (n.err != Nil ==> n.err.Protocol?)
  {
    hide EncodeHeader, ReadHeaderFrom, CheckHeader;
    HeaderRoundTrip(h, s);
    SplitsHere(EncodeHeader(h), s);
    CheckHeaderMeans(h, st);
    if CheckHeader(h, st) != Nil {
      ViolationIsReal(h, st);
    }
  }

  /** A frame that must not come next. */
  predicate Offends(f: Frame, st: State)
  {
    Intact(f) && !Permitted(f.header, st)
  }

  lemma {:induction false} OffenderIsRefused(st: State, f: Frame, s: seq<byte>)
    requires Offends(f, st) && !st.extended
    ensures var n := NextHeader(st, EncodeFrame(f) + s);
            n.err.Protocol? && n.header == f.header && n.rest == f.payload + s
  {
    hide EncodeHeader, NextHeader;
    HeaderIsChecked(st, f.header, f.payload + s);
    Associative(EncodeHeader(f.header), f.payload, s);
  }

  // Messages that are not finished.

  /** Frames in the middle of a message. */
  predicate Middle(st: State, fs: seq<Frame>)
  {
    forall i :: 0 <= i < |fs| ==>
      && Intact(fs[i]) && Lawful(fs[i].header, st)
      && (ControlFrame(fs[i].header) || (Continuation(fs[i].header) && !fs[i].header.fin))
  }

  /** The frames of a message without its end. */
  predicate OpenMessage(st: State, fs: seq<Frame>)
  {
    && fs != [] && Intact(fs[0]) && Lawful(fs[0].header, st) && MessageStart(fs[0].header) && !fs[0].header.fin
    && Middle(st, fs[1..])
  }

  lemma {:induction false} MiddleArrives(st: State, replies: bool, fs: seq<Frame>, t: seq<byte>)
    requires st.fragmented && !st.extended && Middle(st, fs) && (replies ==> NoClose(fs))
    ensures MessageTail(st, replies, EncodeFrames(fs) + t)
         == Prepend(Data(fs), ControlsIn(fs), MessageTail(st, replies, t))
    decreases |fs|
  {
    hide EncodeFrame, EncodeFrames, NextHeader, PayloadIn, AfterPayload, HandlerError, CheckHeader, Unmasked;
    if fs == [] {
      NoMoreFrames(t);
      PrependNothing(MessageTail(st, replies, t));
    } else {
      var f, more := fs[0], fs[1..];
      assert forall i :: 0 <= i < |more| ==> more[i] == fs[i + 1];
      FirstFrame(fs, t);
      CheckHeaderMeans(f.header, st);
      FrameArrives(st, f, EncodeFrames(more) + t);
      MiddleArrives(st, replies, more, t);
      UnmaskedSize(f);
      if IsControl(f.header.op) {
        StaysQuiet(replies, f.header, Unmasked(f));
        PrependTwice([], [Control(f.header, Unmasked(f))], Data(more), ControlsIn(more), MessageTail(st, replies, t));
      } else {
        PrependTwice(Unmasked(f), [], Data(more), ControlsIn(more), MessageTail(st, replies, t));
      }
    }
  }

  lemma UnmaskedSize(f: Frame)
    requires Intact(f)
    ensures |Unmasked(f)| == f.header.length
  {}

  lemma {:induction false} OpenMessageArrives(st: State, replies: bool, fs: seq<Frame>, t: seq<byte>)
    requires !st.fragmented && !st.extended && OpenMessage(st, fs) && (replies ==> NoClose(fs))
    ensures var n := NextHeader(st, EncodeFrames(fs) + t);
            && n.err == Nil && n.header == fs[0].header
            && NextMessage(st, replies, EncodeFrames(fs) + t)
               == Prepend(Data(fs), ControlsIn(fs), MessageTail(st.(fragmented := true), replies, t))
  {
    hide EncodeFrame, EncodeFrames, NextHeader, PayloadIn, AfterPayload, CheckHeader, Unmasked, MessageTail;
    var f, more, inner := fs[0], fs[1..], st.(fragmented := true);
    assert forall i :: 0 <= i < |more| ==> more[i] == fs[i + 1];
    FirstFrame(fs, t);
    CheckHeaderMeans(f.header, st);
    FrameArrives(st, f, EncodeFrames(more) + t);
    MiddleArrives(inner, replies, more, t);
    UnmaskedSize(f);
    CurrentFrame(inner, replies, f.payload, Unmasked(f), EncodeFrames(more) + t);
    PrependTwice(Unmasked(f), [], Data(more), ControlsIn(more), MessageTail(inner, replies, t));
  }

  /** What ends an open message: a frame that must not come next, or a close that is answered. */
  lemma {:induction false} OffenderEnds(st: State, replies: bool, f: Frame, s: seq<byte>) returns (e: Error)
    requires st.fragmented && !st.extended && Offends(f, st)
    ensures MessageTail(st, replies, EncodeFrame(f) + s) == Tail([], [], Failed(e), f.payload + s) && e.Protocol?
  {
    hide EncodeFrame, NextHeader;
    OffenderIsRefused(st, f, s);
    e := NextHeader(st, EncodeFrame(f) + s).err;
  }

  predicate LawfulClose(st: State, f: Frame)
  {
    Intact(f) && Lawful(f.header, st) && ControlFrame(f.header) && f.header.op == OP_CLOSE
  }

  lemma {:induction false} CloseFails(st: State, f: Frame)
    requires LawfulClose(st, f)
    ensures var c, e := Control(f.header, Unmasked(f)), CloseResult(Unmasked(f));
            && Whole(c) && HandlerError(true, c) == e && OwnError(c) == e
            && e != Nil && e != EOF && e != InvalidUTF8
  {
    hide EncodeFrame, AnswerTo, LawfulBody, Unmasked;
    UnmaskedSize(f);
    var answer := CloseIsAnswered(false, ZERO_MASK, Control(f.header, Unmasked(f)));
  }

  lemma {:induction false} CloseEnds(st: State, f: Frame, s: seq<byte>)
    requires st.fragmented && !st.extended && LawfulClose(st, f)
    ensures MessageTail(st, true, EncodeFrame(f) + s)
         == Tail([], [Control(f.header, Unmasked(f))], Failed(CloseResult(Unmasked(f))), s)
  {
    hide EncodeFrame, NextHeader, PayloadIn, AfterPayload, HandlerError, CheckHeader, Unmasked, OwnError, CloseResult;
    CheckHeaderMeans(f.header, st);
    FrameArrives(st, f, s);
    CloseFails(st, f);
  }

  // readData.

  /** After unwanted messages, inside a message that then fails. */
  lemma {:induction false} FailureIsHeard(st: State, want: OpCode, fs: seq<Frame>, part: seq<Frame>, t: seq<byte>,
      cs: seq<Control>, e: Error, rest: seq<byte>)
    requires !st.fragmented && !st.extended && Talk(st, fs) && NoClose(fs) && NoneWanted(fs, want)
    requires OpenMessage(st, part) && NoClose(part)
    requires MessageTail(st.(fragmented := true), true, t) == Tail([], cs, Failed(e), rest)
    requires e != Nil && e != EOF
    ensures var op := part[0].header.op;
            DataMessage(st, want, EncodeFrames(fs + part) + t)
            == if !Wanted(op, want) then Heard(e, 0, [], ControlsIn(fs + part) + cs, rest)
               else Heard(if op == OP_TEXT && Hopeless(Data(part)) then InvalidUTF8 else e,
                          op, Data(part), ControlsIn(fs + part) + cs, rest)
  {
    hide EncodeFrames, DataMessage, Wanted, NextHeader, StartTail, Hopeless, Talk, MessageTail, Middle, Data;
    hide ControlsIn;
    var u := EncodeFrames(part) + t;
    InTwoParts(fs, part, t);
    UnwantedIsSkipped(st, want, fs, u);
    OpenMessageArrives(st, true, part, t);
    assert Data(part) + [] == Data(part);
    Associative(ControlsIn(fs), ControlsIn(part), cs);
    StartIsData(st, part);
    if Wanted(part[0].header.op, want) {
      HeardWanted(st, want, u);
    } else {
      HeardUnwanted(st, want, u);
    }
  }

  lemma StartIsData(st: State, fs: seq<Frame>)
    requires OpenMessage(st, fs)
    ensures !IsControl(fs[0].header.op)
  {}

  /** After unwanted messages, at a frame that must not come next. */
  lemma {:induction false} OffenderIsHeard(st: State, want: OpCode, fs: seq<Frame>, f: Frame, s: seq<byte>)
    requires !st.fragmented && !st.extended && Talk(st, fs) && NoClose(fs) && NoneWanted(fs, want) && Offends(f, st)
    ensures var h := DataMessage(st, want, EncodeFrames(fs) + (EncodeFrame(f) + s));
            h.err.Protocol? && h == Heard(h.err, 0, [], ControlsIn(fs), f.payload + s)
  {
    hide EncodeFrames, EncodeFrame, DataMessage, NextHeader, Talk;
    var t := EncodeFrame(f) + s;
    UnwantedIsSkipped(st, want, fs, t);
    OffenderIsRefused(st, f, s);
    HeardError(st, want, t);
    assert ControlsIn(fs) + [] == ControlsIn(fs);
  }

  /** After unwanted messages, at a close. */
  lemma {:induction false} CloseIsHeard(st: State, want: OpCode, fs: seq<Frame>, f: Frame, s: seq<byte>)
    requires !st.fragmented && !st.extended && Talk(st, fs) && NoClose(fs) && NoneWanted(fs, want) && LawfulClose(st, f)
    ensures DataMessage(st, want, EncodeFrames(fs) + (EncodeFrame(f) + s))
         == Heard(CloseResult(Unmasked(f)), 0, [], ControlsIn(fs) + [Control(f.header, Unmasked(f))], s)
  {
    hide EncodeFrames, EncodeFrame, DataMessage, NextHeader, Talk, CheckHeader, PayloadIn, AfterPayload, OwnError;
    hide HandlerError, CloseResult, Unmasked;
    var t := EncodeFrame(f) + s;
    UnwantedIsSkipped(st, want, fs, t);
    CheckHeaderMeans(f.header, st);
    FrameArrives(st, f, s);
    CloseFails(st, f);
    HeardControl(st, want, t);
  }

  /** What comes before the frame that ends the reading: unwanted messages, and the frames of an open one or none. */
  ghost predicate Before(st: State, want: OpCode, fs: seq<Frame>, part: seq<Frame>)
  {
    && Talk(st, fs) && NoClose(fs) && NoneWanted(fs, want)
    && (part == [] || (OpenMessage(st, part) && NoClose(part)))
  }

  function Inside(st: State, part: seq<Frame>): State
  {
    st.(fragmented := part != [])
  }

  /** The text so far is wanted, and cannot become UTF-8 any more. */
  ghost predicate Spoilt(want: OpCode, part: seq<Frame>)
  {
    part != [] && part[0].header.op == OP_TEXT && Wanted(part[0].header.op, want) && Hopeless(Data(part))
  }

  /** What readData returns along with the error: what it has of a wanted message. */
  predicate HasPart(want: OpCode, part: seq<Frame>, bts: seq<byte>, op: OpCode)
  {
    if part != [] && Wanted(part[0].header.op, want) then bts == Data(part) && op == part[0].header.op
    else bts == [] && op == 0
  }

  lemma {:induction false} BeforeIsPeaceful(st: State, want: OpCode, fs: seq<Frame>, part: seq<Frame>)
    requires Before(st, want, fs, part)
    ensures Peaceful(ControlsIn(fs + part))
  {
    hide Talk, Peaceful, ControlsIn, Intact, ControlFrame;
    TalkControls(st, fs);
    TalkIsIntact(st, fs);
    ControlsArePeaceful(fs + part);
  }

  /** The answers before the last one. */
  lemma {:induction false} LastAnswer(client: bool, masks: Sending.Masks, cs: seq<Control>, c: Control,
      pongs: seq<Frame>, reply: Frame)
    requires Answers(client, masks, cs) == EncodeFrames(pongs)
    requires AnswerTo(client, masks(|cs|), c).bytes == EncodeFrame(reply)
    ensures Answers(client, masks, cs + [c]) == EncodeFrames(pongs + [reply])
  {
    hide EncodeFrame, AnswerTo, Answers;
    LoggedAnswer(client, masks, cs, c);
    EncodeFramesConcat(pongs, [reply]);
    assert EncodeFrames([reply]) == EncodeFrame(reply) + [] == EncodeFrame(reply);
  }

  /** One pong for each of the pings, with masks of their own. */
  predicate Pongs(fs: seq<Frame>, client: bool, masks: Sending.Masks, cs: seq<Control>)
  {
    && |fs| == |Pings(cs)|
    && forall k :: 0 <= k < |fs| ==>
         && Reply(fs[k], client, OP_PONG, Pings(cs)[k])
         && fs[k].header.mask == if client && Pings(cs)[k] != [] then masks(PingsAt(cs)[k]) else [0, 0, 0, 0]
  }

  /**
   * readData ends at a close, between messages or inside one: it has answered every ping before it with a pong, and
   * then the close with one frame, and it returns what the close says.
   */
  method ReadDataUntilClose(rw: Source, dst: Sink, st: State, want: OpCode, masks: Sending.Masks, ghost fs: seq<Frame>,
                            ghost part: seq<Frame>, ghost f: Frame, ghost s: seq<byte>)
    returns (bts: seq<byte>, op: OpCode, err: Error, ghost pongs: seq<Frame>, ghost reply: Frame)
    requires !st.fragmented && !st.extended && dst.reliable && Before(st, want, fs, part)
    requires LawfulClose(st, f) && rw.data == EncodeFrames(fs + part) + (EncodeFrame(f) + s)
    modifies rw, dst
    ensures Spoilt(want, part) ==> err == InvalidUTF8
    ensures !Spoilt(want, part) ==>
      && err == CloseResult(Unmasked(f)) && HasPart(want, part, bts, op) && rw.data == s
      && dst.out == old(dst.out) + EncodeFrames(pongs + [reply])
      && Pongs(pongs, st.client, masks, ControlsIn(fs + part))
      && ClosingReply(reply, st.client, masks(|ControlsIn(fs + part)|), Unmasked(f))
  {
    hide EncodeFrames, EncodeFrame, DataMessage, Wanted, Hopeless, Talk, Answers, AnswerTo, Data, ControlsIn, Unmasked;
    hide CloseResult, ClosingReply, Reply, Pings, PingsAt, OpenMessage, NoneWanted, NoClose, MessageTail;
    ghost var t, c, before := EncodeFrame(f) + s, Control(f.header, Unmasked(f)), ControlsIn(fs + part);
    CloseFails(st, f);
    if part == [] {
      assert fs + part == fs;
      CloseIsHeard(st, want, fs, f, s);
    } else {
      CloseIsLawfulInside(st, f);
      CloseEnds(Inside(st, part), f, s);
      FailureIsHeard(st, want, fs, part, t, [c], CloseResult(Unmasked(f)), s);
    }
    BeforeIsPeaceful(st, want, fs, part);
    ghost var cs;
    bts, op, err, cs := ReadData(rw, dst, st, want, masks);
    pongs := OnePongPerPing(st.client, masks, before);
    reply := CloseIsAnswered(st.client, masks(|before|), c);
    LastAnswer(st.client, masks, before, c, pongs, reply);
  }

  lemma CloseIsLawfulInside(st: State, f: Frame)
    requires LawfulClose(st, f)
    ensures LawfulClose(st.(fragmented := true), f)
  {}

  /** readData ends at the first frame that must not come, between messages or inside one, with a protocol error. */
  method ReadDataUntilOffender(rw: Source, dst: Sink, st: State, want: OpCode, masks: Sending.Masks,
                               ghost fs: seq<Frame>, ghost part: seq<Frame>, ghost f: Frame, ghost s: seq<byte>)
    returns (bts: seq<byte>, op: OpCode, err: Error, ghost pongs: seq<Frame>)
    requires !st.fragmented && !st.extended && dst.reliable && Before(st, want, fs, part)
    requires Offends(f, Inside(st, part)) && rw.data == EncodeFrames(fs + part) + (EncodeFrame(f) + s)
    modifies rw, dst
    ensures Spoilt(want, part) ==> err == InvalidUTF8
    ensures !Spoilt(want, part) ==>
      && err.Protocol? && HasPart(want, part, bts, op) && rw.data == f.payload + s
      && dst.out == old(dst.out) + EncodeFrames(pongs) && Pongs(pongs, st.client, masks, ControlsIn(fs + part))
  {
    hide EncodeFrames, EncodeFrame, DataMessage, Wanted, Hopeless, Talk, Answers, Data, ControlsIn, Offends;
    hide Reply, Pings, PingsAt, OpenMessage, NoneWanted, NoClose, MessageTail;
    ghost var t, before := EncodeFrame(f) + s, ControlsIn(fs + part);
    if part == [] {
      assert fs + part == fs && Inside(st, part) == st;
      OffenderIsHeard(st, want, fs, f, s);
    } else {
      var e := OffenderEnds(Inside(st, part), true, f, s);
      FailureIsHeard(st, want, fs, part, t, [], e, f.payload + s);
      assert before + [] == before;
    }
    BeforeIsPeaceful(st, want, fs, part);
    ghost var cs;
    bts, op, err, cs := ReadData(rw, dst, st, want, masks);
    pongs := OnePongPerPing(st.client, masks, before);
  }

  // Reader.

  /** NextFrame on any well-formed header: it goes on exactly if the header may come next. */
  method NextFrameChecks(rd: Reader, ghost h: Header, ghost s: seq<byte>) returns (hdr: Header, err: Error)
    requires rd.Valid() && rd.Settled() && (rd.state.fragmented || rd.utf8.dfa == Utf8.START) && !rd.state.extended
    requires Codec.WellFormed(h) && rd.source.data == EncodeHeader(h) + s
    modifies rd, rd.raw, rd.cipher, rd.utf8`source, rd.source, rd.handler.Objects()
    ensures !Permitted(h, old(rd.state)) ==>
      && err.Protocol? && rd.source.data == s && rd.log == old(rd.log)
      && rd.state == old(rd.state) && rd.frame == old(rd.frame) && rd.opCode == old(rd.opCode)
    ensures Permitted(h, old(rd.state)) && !(old(rd.state.fragmented) && IsControl(h.op)) ==>
      && err == Nil && hdr == h && rd.source.data == s && rd.log == old(rd.log)
      && rd.state == old(rd.state).(fragmented := !h.fin)
    ensures Permitted(h, old(rd.state)) && old(rd.state.fragmented) && IsControl(h.op) ==>
      |rd.log| == |old(rd.log)| + 1 && old(rd.log) < rd.log && rd.log[|old(rd.log)|].header == h
  {
    hide EncodeHeader, NextHeader, Permitted, PayloadIn, AfterPayload, HandlerError, Reader.Core, Reader.Handled;
    HeaderIsChecked(rd.state, h, s);
    hdr, err := rd.NextFrame();
  }

  /** A Reader before a message that is not finished, and then a frame that must not come next. */
  ghost predicate BeforeOffender(rd: Reader, part: seq<Frame>, f: Frame, s: seq<byte>)
    reads rd, rd.raw, rd.cipher, rd.utf8, rd.source, rd.handler.Objects()
  {
    && rd.Valid() && rd.Settled() && !rd.state.fragmented && !rd.state.extended && rd.utf8.dfa == Utf8.START
    && OpenMessage(rd.state, part) && (rd.handler.Replying? ==> NoClose(part))
    && Offends(f, rd.state.(fragmented := true)) && rd.source.data == EncodeFrames(part) + (EncodeFrame(f) + s)
  }

  lemma {:induction false} OffenderInMessage(st: State, replies: bool, part: seq<Frame>, f: Frame, s: seq<byte>)
    returns (e: Error)
    requires !st.fragmented && !st.extended && OpenMessage(st, part) && (replies ==> NoClose(part))
    requires Offends(f, st.(fragmented := true))
    ensures var u := EncodeFrames(part) + (EncodeFrame(f) + s);
            && NextHeader(st, u).err == Nil && NextHeader(st, u).header == part[0].header
            && NextMessage(st, replies, u) == Tail(Data(part), ControlsIn(part), Failed(e), f.payload + s)
            && e.Protocol?
  {
    hide EncodeFrames, EncodeFrame, NextHeader, NextMessage, MessageTail, Data, ControlsIn, Offends, OpenMessage;
    e := OffenderEnds(st.(fragmented := true), replies, f, s);
    OpenMessageArrives(st, replies, part, EncodeFrame(f) + s);
    assert Data(part) + [] == Data(part) && ControlsIn(part) + [] == ControlsIn(part);
  }

  /** Reading such a message ends there, with all of its data so far, unless its text is invalid before. */
  method ReadUntilOffender(rd: Reader, ghost part: seq<Frame>, ghost f: Frame, ghost s: seq<byte>)
    returns (data: seq<byte>, err: Error)
    requires BeforeOffender(rd, part, f, s)
    modifies rd, rd.raw, rd.cipher, rd.utf8, rd.source, rd.handler.Objects()
    ensures if rd.checkUtf8 && part[0].header.op == OP_TEXT && Hopeless(Data(part)) then err == InvalidUTF8
            else && err.Protocol? && data == Data(part) && rd.log == old(rd.log) + ControlsIn(part)
                 && rd.source.data == f.payload + s
  {
    hide EncodeFrames, EncodeFrame, NextHeader, NextMessage, Data, ControlsIn, Offends, OpenMessage, Hopeless, Going;
    hide Reader.Core, Reader.Handled;
    ghost var st, u := rd.state, rd.source.data;
    var e := OffenderInMessage(st, rd.handler.Replying?, part, f, s);
    var h;
    h, err := StartMessage(rd);
    ghost var log, end := rd.log, Nil;
    ghost var t := NextMessage(st, rd.handler.Replying?, u);
    data, err, end := ReadAll(rd, t, log, rd.checkUtf8 && h.op == OP_TEXT);
    assert rd.log == log + rd.log[|log|..];
  }

  /** Discarding it ends there too. */
  method DiscardUntilOffender(rd: Reader, ghost part: seq<Frame>, ghost f: Frame, ghost s: seq<byte>)
    returns (err: Error)
    requires BeforeOffender(rd, part, f, s)
    modifies rd, rd.raw, rd.cipher, rd.utf8, rd.source, rd.handler.Objects()
    ensures err.Protocol? && rd.log == old(rd.log) + ControlsIn(part) && rd.source.data == f.payload + s
  {
    hide EncodeFrames, EncodeFrame, NextHeader, NextMessage, Data, ControlsIn, Offends, OpenMessage, Hopeless;
    hide Reader.Core, Reader.Handled, Reader.Rest;
    ghost var st, u := rd.state, rd.source.data;
    var e := OffenderInMessage(st, rd.handler.Replying?, part, f, s);
    var h;
    h, err := StartMessage(rd);
    ghost var log := rd.log;
    PrependNothing(rd.Rest());
    assert log[|log|..] == [];
    err := rd.Discard();
    assert rd.log == log + rd.log[|log|..];
  }

  // Whole streams.

  /** How reading message after message ends, without a handler that replies and without text checks. */
  function ReadingEnds(st: State, s: seq<byte>): Error
    requires !st.fragmented
    decreases |s|
  {
    var n := NextHeader(st, s);
    if n.err != Nil then n.err
    else
      NextIsShorter(st, false, s);
      var t := NextMessage(st, false, s);
      if t.end != Done then EndError(t.end) else ReadingEnds(st, t.rest)
  }

  lemma {:induction false} TalkEndsWell(st: State, fs: seq<Frame>)
    requires !st.fragmented && !st.extended && Talk(st, fs)
    ensures ReadingEnds(st, EncodeFrames(fs)) == EOF
    decreases |fs|
  {
    hide EncodeFrames, NextHeader, NextMessage, Talk, LawfulItem;
    if fs == [] {
      NoMoreFrames([]);
      NothingToRead(st);
    } else {
      var item, more := FirstItem(st, fs);
      EncodeFramesConcat(item, more);
      ItemArrives(st, item, EncodeFrames(more));
      TalkEndsWell(st, more);
    }
  }

  lemma NothingToRead(st: State)
    ensures NextHeader(st, []).err == if st.fragmented then UnexpectedEOF else EOF
  {}

  /** Frames at which a message ends are lawful up to there. */
  lemma {:induction false} DoneIsLawful(st: State, fs: seq<Frame>) returns (k: nat)
    requires st.fragmented && !st.extended && AllIntact(fs)
    requires MessageTail(st, false, EncodeFrames(fs)).end == Done
    ensures 0 < k <= |fs| && AllLawful(Headers(fs[..k]), st) && MessageRest(Headers(fs[..k]))
    ensures MessageTail(st, false, EncodeFrames(fs)).rest == EncodeFrames(fs[k..])
    decreases |fs|
  {
    hide EncodeFrame, EncodeFrames, NextHeader, PayloadIn, AfterPayload, HandlerError, CheckHeader, Unmasked;
    if fs == [] {
      NoMoreFrames([]);
      NothingToRead(st);
      assert false;
    } else {
      var f, more := fs[0], fs[1..];
      FirstOf(fs);
      if !Permitted(f.header, st) {
        OffenderIsRefused(st, f, EncodeFrames(more));
        assert false;
      } else {
        CheckHeaderMeans(f.header, st);
        FrameArrives(st, f, EncodeFrames(more));
        UnmaskedSize(f);
        if Continuation(f.header) && f.header.fin {
          k := 1;
          OneHeader(fs);
        } else {
          if IsControl(f.header.op) {
            StaysQuiet(false, f.header, Unmasked(f));
          }
          var j := DoneIsLawful(st, more);
          k := j + 1;
          MoreHeaders(fs, k);
          assert more[j..] == fs[k..];
        }
      }
    }
  }

  lemma {:induction false} FirstOf(fs: seq<Frame>)
    requires fs != []
    ensures EncodeFrames(fs) == EncodeFrame(fs[0]) + EncodeFrames(fs[1..])
  {}

  lemma {:induction false} OneHeader(fs: seq<Frame>)
    requires fs != []
    ensures Headers(fs[..1]) == [fs[0].header] && [fs[0].header][1..] == []
  {}

  lemma {:induction false} MoreHeaders(fs: seq<Frame>, k: nat)
    requires 1 < k <= |fs|
    ensures Headers(fs[..k])[0] == fs[0].header && Headers(fs[..k])[1..] == Headers(fs[1..][..k - 1])
  {}

  /** A single frame, or the start of a message and what finishes it, is an item. */
  lemma {:induction false} MakeItem(st: State, fs: seq<Frame>, k: nat)
    requires !st.fragmented && AllIntact(fs) && 0 < k <= |fs| && Permitted(fs[0].header, st)
    requires if k == 1 then fs[0].header.fin
             else && MessageStart(fs[0].header) && !fs[0].header.fin
                  && AllLawful(Headers(fs[1..][..k - 1]), st) && MessageRest(Headers(fs[1..][..k - 1]))
    ensures LawfulItem(st, fs[..k])
  {
    hide MessageRest, Codec.WellFormed;
    OneHeader(fs);
    assert AllLawful([], st);
    if k > 1 {
      MoreHeaders(fs, k);
    }
  }

  /** One more item in front. */
  lemma {:induction false} MoreTalk(st: State, fs: seq<Frame>, k: nat)
    requires 0 < k <= |fs| && LawfulItem(st, fs[..k]) && Talk(st, fs[k..])
    ensures Talk(st, fs)
  {
    hide Item, Codec.WellFormed;
    var hs := Headers(fs);
    assert hs[..k] == Headers(fs[..k]) && hs[k..] == Headers(fs[k..]);
    LawfulTail(hs, k, st);
    forall i | 0 <= i < |fs|
      ensures Intact(fs[i])
    {
      assert fs[i] == if i < k then fs[..k][i] else fs[k..][i - k];
    }
  }

  lemma {:induction false} EndsWellIsTalk(st: State, fs: seq<Frame>)
    requires !st.fragmented && !st.extended && AllIntact(fs) && ReadingEnds(st, EncodeFrames(fs)) == EOF
    ensures Talk(st, fs)
    decreases |fs|
  {
    hide EncodeFrame, EncodeFrames, NextHeader, CheckHeader, Unmasked, MessageTail;
    if fs != [] {
      var f, more, inner := fs[0], fs[1..], st.(fragmented := !fs[0].header.fin);
      FirstOf(fs);
      if !Permitted(f.header, st) {
        OffenderIsRefused(st, f, EncodeFrames(more));
        assert false;
      } else {
        CheckHeaderMeans(f.header, st);
        FrameArrives(st, f, EncodeFrames(more));
        UnmaskedSize(f);
        CurrentFrame(inner, false, f.payload, Unmasked(f), EncodeFrames(more));
        OneHeader(fs);
        var k := 1;
        if !f.header.fin {
          EndsWithoutEOF(inner, EncodeFrames(more));
          var j := DoneIsLawful(inner, more);
          k := j + 1;
          MoreHeaders(fs, k);
          LawfulAnywhere(Headers(more[..j]), st, true);
          assert more[j..] == fs[k..];
        }
        EndsWellIsTalk(st, fs[k..]);
        MakeItem(st, fs, k);
        MoreTalk(st, fs, k);
      }
    }
  }

  /** Reading a whole stream of intact frames ends with io.EOF exactly if they are lawful and form whole messages. */
  lemma {:induction false} EndsWellIffTalk(st: State, fs: seq<Frame>)
    requires !st.fragmented && !st.extended && AllIntact(fs)
    ensures ReadingEnds(st, EncodeFrames(fs)) == EOF <==> AllLawful(Headers(fs), st) && Conversation(Headers(fs))
  {
    hide EncodeFrames, ReadingEnds, Conversation, AllLawful;
    if ReadingEnds(st, EncodeFrames(fs)) == EOF {
      EndsWellIsTalk(st, fs);
    }
    if Talk(st, fs) {
      TalkEndsWell(st, fs);
    }
  }

  /** One message, or the error that ends the reading. */
  method ReadOne(rd: Reader, ghost st: State) returns (m: Message, err: Error)
    requires Between(rd, st) && !rd.checkUtf8
    modifies rd, rd.raw, rd.cipher, rd.utf8, rd.source
    ensures err == Nil ==>
      && Between(rd, st) && |rd.source.data| < |old(rd.source.data)|
      && ReadingEnds(st, rd.source.data) == ReadingEnds(st, old(rd.source.data))
    ensures err != Nil ==> err == ReadingEnds(st, old(rd.source.data))
  {
    hide NextHeader, StartTail, PayloadIn, Reader.Core, Reader.Handled, Going, Finished, Hopeless, MessageTail;
    ghost var s := rd.source.data;
    m := Message(0, []);
    if NextHeader(st, s).err == Nil {
      NextIsShorter(st, false, s);
      MessageEndsWithoutEOF(st, s);
    }
    var h;
    h, err := rd.NextFrame();
    if err != Nil {
      return;
    }
    Begun(rd, st, h);
    ghost var t, log, end := NextMessage(st, false, s), rd.log, Nil;
    var data;
    data, err, end := ReadAll(rd, t, log, false);
    FinishedMeans(rd, t, log, data, end);
    m := Message(h.op, data);
  }

  lemma {:induction false} FinishedMeans(rd: Reader, t: Tail, was: seq<Control>, data: seq<byte>, end: Error)
    requires Finished(rd, t, was, false, data, end) && (t.end.Failed? ==> t.end.err != EOF && t.end.err != Nil)
    ensures end == EndError(t.end) && rd.source.data == t.rest && (end == EOF <==> t.end == Done)
    ensures rd.Valid() && rd.Settled()
    ensures t.end == Done ==> rd.utf8.dfa == Utf8.START && !rd.state.fragmented
  {
    hide Reader.Core, Reader.Handled, Hopeless;
  }

  /** Reads all messages: the end of the stream is reported exactly if the frames are lawful whole messages. */
  method ReadEverything(rd: Reader, ghost fs: seq<Frame>) returns (got: seq<Message>, err: Error)
    requires Between(rd, rd.state) && !rd.state.extended && !rd.checkUtf8
    requires AllIntact(fs) && rd.source.data == EncodeFrames(fs)
    modifies rd, rd.raw, rd.cipher, rd.utf8, rd.source
    ensures err == EOF <==> AllLawful(Headers(fs), old(rd.state)) && Conversation(Headers(fs))
  {
    hide Between, ReadingEnds, EncodeFrames, AllLawful, Conversation;
    ghost var st := rd.state;
    BetweenMeans(rd, st);
    EndsWellIffTalk(st, fs);
    got, err := [], Nil;
    while err == Nil
      invariant err == Nil ==>
        Between(rd, st) && ReadingEnds(st, rd.source.data) == ReadingEnds(st, EncodeFrames(fs))
      invariant err != Nil ==> err == ReadingEnds(st, EncodeFrames(fs))
      decreases if err == Nil then 1 else 0, |rd.source.data|
    {
      var m;
      m, err := ReadOne(rd, st);
      if err == Nil {
        got := got + [m];
      }
    }
  }

  lemma BetweenMeans(rd: Reader, st: State)
    requires Between(rd, st)
    ensures !st.fragmented && rd.handler.Objects() == {}
  {}
}
