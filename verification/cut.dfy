/** Streams that end too early: what reading and discarding a message that is cut report (msutil/reader.go). */
module Cutting {
  import opened Bytes
  import opened Masking
  import opened Frame
  import opened Check
  import opened Codec
  import opened Receiving
  import opened Reading
  import opened Helper
  import opened EndToEnd

  /** The size of the payload that ends the message. */
  function LastPayload(fs: seq<Frame>): nat
    requires fs != []
  {
    |fs[|fs| - 1].payload|
  }

  /** Inside a message, a header that is cut at any byte is an unexpected end. */
  lemma {:induction false} CutInHeader(st: State, f: Frame, k: nat)
    requires st.fragmented && Intact(f) && k < |EncodeHeader(f.header)|
    ensures k <= |EncodeFrame(f)| && NextHeader(st, EncodeFrame(f)[..k]).err == UnexpectedEOF
  {
    hide EncodeHeader, ReadHeaderFrom;
    CutHeader(f.header, k);
    assert EncodeFrame(f)[..k] == EncodeHeader(f.header)[..k];
  }

  /** Of a frame that is cut in its payload, the header arrives. */
  lemma {:induction false} CutInPayload(st: State, f: Frame, k: nat)
    requires Intact(f) && CheckHeader(f.header, st) == Nil
    requires |EncodeHeader(f.header)| <= k < |EncodeFrame(f)|
    ensures var p := f.payload[..k - |EncodeHeader(f.header)|];
            && NextHeader(st, EncodeFrame(f)[..k]) == Next(Nil, f.header, p) && |p| < f.header.length
            && |PayloadIn(f.header, p)| == |p| && AfterPayload(f.header, p) == []
  {
    hide EncodeHeader, ReadHeaderFrom, CheckHeader, Masked;
    var h, p := EncodeHeader(f.header), f.payload[..k - |EncodeHeader(f.header)|];
    HeaderRoundTrip(f.header, p);
    assert EncodeFrame(f)[..k] == h + p;
    SplitsHere(h, p);
  }

  /** What a cut frame makes of the rest of a message: only of the final frame is it not an error to Discard. */
  lemma {:induction false} FrameIsCut(st: State, replies: bool, f: Frame, k: nat)
    requires st.fragmented && !st.extended && Intact(f) && Lawful(f.header, st) && k < |EncodeFrame(f)|
    requires ControlFrame(f.header) || Continuation(f.header)
    requires replies ==> f.header.op != OP_CLOSE
    ensures var t := MessageTail(st, replies, EncodeFrame(f)[..k]);
            && EndError(t.end) == UnexpectedEOF
            && (Discarded(t).err == Nil <==>
                 Continuation(f.header) && f.header.fin && k >= |EncodeHeader(f.header)|)
  {
    hide EncodeHeader, EncodeFrame, NextHeader, PayloadIn, AfterPayload, HandlerError, CheckHeader;
    FrameSize(f);
    if k < |EncodeHeader(f.header)| {
      CutInHeader(st, f, k);
    } else {
      CheckHeaderMeans(f.header, st);
      CutInPayload(st, f, k);
      if IsControl(f.header.op) {
        var p := PayloadIn(f.header, f.payload[..k - |EncodeHeader(f.header)|]);
        StaysQuiet(replies, f.header, p);
        NothingMore(st, replies);
      }
    }
  }

  lemma NothingMore(st: State, replies: bool)
    requires st.fragmented
    ensures MessageTail(st, replies, []) == Tail([], [], Failed(UnexpectedEOF), [])
  {}

  /** The first frame and what there is of the others. */
  lemma CutLater(f: Frame, more: seq<byte>, k: nat)
    requires |EncodeFrame(f)| <= k <= |EncodeFrame(f) + more|
    ensures (EncodeFrame(f) + more)[..k] == EncodeFrame(f) + more[..k - |EncodeFrame(f)|]
  {}

  lemma CutHere(f: Frame, more: seq<byte>, k: nat)
    requires k <= |EncodeFrame(f)|
    ensures (EncodeFrame(f) + more)[..k] == EncodeFrame(f)[..k]
  {}

  lemma FrameSize(f: Frame)
    requires Intact(f)
    ensures |EncodeFrame(f)| == |EncodeHeader(f.header)| + |f.payload| && |EncodeHeader(f.header)| > 0
    ensures |Unmasked(f)| == f.header.length
  {}

  lemma {:induction false} LastIsShorter(fs: seq<Frame>)
    requires fs != [] && AllIntact(fs)
    ensures |EncodeFrames(fs)| >= LastPayload(fs)
    ensures |fs| > 1 ==> |EncodeFrames(fs)| >= |EncodeFrame(fs[0])| + LastPayload(fs)
  {
    hide EncodeFrame;
    FrameSize(fs[0]);
    if |fs| > 1 {
      LastIsShorter(fs[1..]);
    }
  }

  /**
   * The rest of a message, cut anywhere: reading it ends in io.ErrUnexpectedEOF, and Discard returns nil exactly
   * when the header of the final frame is still there.
   */
  lemma {:induction false} RestIsCut(st: State, replies: bool, fs: seq<Frame>, k: nat)
    requires st.fragmented && !st.extended && AllIntact(fs) && (replies ==> NoClose(fs))
    requires AllLawful(Headers(fs), st) && MessageRest(Headers(fs)) && k <= |EncodeFrames(fs)|
    ensures var t := MessageTail(st, replies, EncodeFrames(fs)[..k]);
            && (k < |EncodeFrames(fs)| ==> EndError(t.end) == UnexpectedEOF)
            && (k == |EncodeFrames(fs)| ==> t.end == Done)
            && (Discarded(t).err == Nil <==> k >= |EncodeFrames(fs)| - LastPayload(fs))
    decreases |fs|
  {
    hide EncodeHeader, EncodeFrame, EncodeFrames, NextHeader, PayloadIn, AfterPayload, HandlerError, CheckHeader;
    hide Unmasked;
    var f, more := fs[0], fs[1..];
    var e, rest := EncodeFrame(f), EncodeFrames(more);
    FirstFrame(fs, []);
    NothingAfter(fs);
    LastIsShorter(fs);
    FrameSize(f);
    NoMoreFrames([]);
    if k < |e| {
      CutHere(f, rest, k);
      FrameIsCut(st, replies, f, k);
    } else {
      CutLater(f, rest, k);
      CheckHeaderMeans(f.header, st);
      FrameArrives(st, f, rest[..k - |e|]);
      if |fs| > 1 {
        RestIsCut(st, replies, more, k - |e|);
      }
      if IsControl(f.header.op) {
        StaysQuiet(replies, f.header, Unmasked(f));
      }
    }
  }

  lemma NothingAfter(fs: seq<Frame>)
    requires fs != []
    ensures EncodeFrames(fs) == EncodeFrame(fs[0]) + EncodeFrames(fs[1..])
  {}

  lemma {:induction false} FirstIsCut(st: State, replies: bool, f: Frame, k: nat)
    requires !st.fragmented && !st.extended && Intact(f) && Lawful(f.header, st) && MessageStart(f.header)
    requires |EncodeHeader(f.header)| <= k < |EncodeFrame(f)|
    ensures NextHeader(st, EncodeFrame(f)[..k]).err == Nil
    ensures NextMessage(st, replies, EncodeFrame(f)[..k]).end == Cut(f.header.fin)
  {
    hide EncodeHeader, EncodeFrame, NextHeader, CheckHeader, PayloadIn, CurrentTail;
    FrameSize(f);
    var p := f.payload[..k - |EncodeHeader(f.header)|];
    CheckHeaderMeans(f.header, st);
    CutInPayload(st, f, k);
    ShortFrame(st.(fragmented := !f.header.fin), replies, PayloadIn(f.header, p), f.header.length, p);
  }

  /** The same for a whole message of which the first header is there. */
  lemma {:induction false} MessageIsCut(st: State, replies: bool, fs: seq<Frame>, k: nat)
    requires !st.fragmented && !st.extended && DataItem(st, fs) && (replies ==> NoClose(fs))
    requires |EncodeHeader(fs[0].header)| <= k <= |EncodeFrames(fs)|
    ensures NextHeader(st, EncodeFrames(fs)[..k]).err == Nil
    ensures var t := NextMessage(st, replies, EncodeFrames(fs)[..k]);
            && (k < |EncodeFrames(fs)| ==> EndError(t.end) == UnexpectedEOF)
            && (k == |EncodeFrames(fs)| ==> t.end == Done)
            && (Discarded(t).err == Nil <==> k >= |EncodeFrames(fs)| - LastPayload(fs))
  {
    hide EncodeHeader, EncodeFrame, EncodeFrames, NextHeader, PayloadIn, AfterPayload, CheckHeader, Unmasked;
    hide MessageTail;
    var f, more := fs[0], fs[1..];
    var e, rest := EncodeFrame(f), EncodeFrames(more);
    FirstFrame(fs, []);
    NothingAfter(fs);
    LastIsShorter(fs);
    FrameSize(f);
    NoMoreFrames([]);
    CheckHeaderMeans(f.header, st);
    var inner := st.(fragmented := !f.header.fin);
    if k < |e| {
      CutHere(f, rest, k);
      FirstIsCut(st, replies, f, k);
    } else {
      CutLater(f, rest, k);
      FrameArrives(st, f, rest[..k - |e|]);
      CurrentFrame(inner, replies, f.payload, Unmasked(f), rest[..k - |e|]);
      if |fs| > 1 {
        LawfulAnywhere(Headers(more), st, true);
        RestIsCut(inner, replies, more, k - |e|);
      }
    }
  }

  lemma {:induction false} ShortFrame(st: State, replies: bool, p: seq<byte>, n: nat, s: seq<byte>)
    requires n > |s|
    ensures CurrentTail(st, replies, p, n, s).end == Cut(!st.fragmented)
  {
    hide MessageTail;
  }

  /** Discard on a Reader inside a message of which the stream has the first k bytes of the remaining frames. */
  method DiscardCut(rd: Reader, ghost fs: seq<Frame>, ghost k: nat) returns (err: Error)
    requires rd.Valid() && rd.Settled() && rd.frame.None? && rd.state.fragmented && !rd.state.extended
    requires AllIntact(fs) && AllLawful(Headers(fs), rd.state) && MessageRest(Headers(fs))
    requires (rd.handler.Replying? ==> NoClose(fs)) && k <= |EncodeFrames(fs)|
    requires rd.source.data == EncodeFrames(fs)[..k]
    modifies rd, rd.raw, rd.cipher, rd.utf8, rd.source, rd.handler.Objects()
    ensures err == Nil <==> k >= |EncodeFrames(fs)| - LastPayload(fs)
  {
    hide EncodeFrames, MessageTail, Reader.Core, Reader.Handled, LastPayload, MessageRest;
    RestIsCut(rd.state, rd.handler.Replying?, fs, k);
    err := rd.Discard();
  }
}
