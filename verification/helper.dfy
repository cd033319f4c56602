/** Whole messages: io.ReadAll and io.ReadFull on a Reader, ReadMessage and readData (msutil/helper.go). */
module Helper {
  import opened Bytes
  import opened Masking
  import opened Frame
  import opened Check
  import opened Codec
  import opened Closing
  import opened Stream
  import Utf8
  import TextReader
  import opened Messages
  import Sending
  import opened Receiving
  import opened Reading

  /** The text of a checked message is invalid: no continuation can mend it, or it is complete and not UTF-8. */
  ghost predicate Malformed(checking: bool, t: Tail)
  {
    checking && (Hopeless(t.data) || (t.end == Done && !Utf8.WellFormed(t.data)))
  }

  ghost predicate Hopeless(s: seq<byte>)
  {
    !exists more :: Utf8.WellFormed(s + more)
  }

  /** A reading has taken so much of message t; was is the log of before. */
  ghost predicate Going(rd: Reader, t: Tail, was: seq<Control>, checking: bool, taken: seq<byte>)
    reads rd, rd.raw, rd.cipher, rd.utf8, rd.source, rd.handler.Objects()
  {
    && rd.Valid() && rd.Settled() && rd.InMessage() && rd.Checking() == checking
    && was <= rd.log && t == Prepend(taken, rd.log[|was|..], rd.Rest())
    && (checking ==> rd.utf8.dfa == Utf8.Run(Utf8.START, taken) && rd.utf8.dfa.state != Utf8.REJECT)
  }

  /**
   * How a reading of message t ends that has delivered data and handled the control frames cs: with all of
   * the message, or, exactly if its text is malformed, with ErrInvalidUTF8.
   */
  ghost predicate Ended(t: Tail, checking: bool, data: seq<byte>, cs: seq<Control>, left: seq<byte>, err: Error)
  {
    && (err == InvalidUTF8 <==> Malformed(checking, t))
    && (checking ==> !Hopeless(data))
    && if err == InvalidUTF8 then data <= t.data && cs <= t.controls
       else data == t.data && cs == t.controls && left == t.rest && err == EndError(t.end)
  }

  ghost predicate Finished(rd: Reader, t: Tail, was: seq<Control>, checking: bool, data: seq<byte>, err: Error)
    reads rd, rd.utf8, rd.cipher, rd.raw, rd.source, rd.handler.Objects()
  {
    && rd.Valid() && rd.Settled() && was <= rd.log
    && Ended(t, checking, data, rd.log[|was|..], rd.source.data, err)
    && (err == EOF && t.end == Done ==> rd.Idle() && !rd.state.fragmented)
  }

  lemma {:induction false} HopelessIsRejected(s: seq<byte>)
    ensures Hopeless(s) <==> Utf8.Run(Utf8.START, s).state == Utf8.REJECT
  {
    hide Utf8.Run, Utf8.WellFormed;
    Utf8.RejectsHopeless(s);
  }

  /** What can become well-formed has a beginning that can. */
  lemma {:induction false} HopefulPrefix(s: seq<byte>, t: seq<byte>)
    requires !Hopeless(s + t)
    ensures !Hopeless(s)
  {
    hide Utf8.WellFormed;
    var more :| Utf8.WellFormed((s + t) + more);
    assert (s + t) + more == s + (t + more);
  }

  /** What one more Read says about all the text taken so far. */
  lemma {:induction false} TextSoFar(t: Tail, taken: seq<byte>, c: seq<byte>, n: nat)
    requires n <= |c| && taken + c <= t.data
    requires !Hopeless(taken)
    ensures var d := Utf8.Run(Utf8.START, taken);
            && Utf8.IsState(d.state)
            && Utf8.Run(d, c) == Utf8.Run(Utf8.START, taken + c)
            && (Utf8.Run(d, c).state == Utf8.ACCEPT <==> Utf8.WellFormed(taken + c))
            && (Utf8.Run(d, c).state == Utf8.REJECT <==> Hopeless(taken + c))
            && (Hopeless(taken + c) ==> Hopeless(t.data))
            && (n == TextReader.LastAccept(d, c) ==> !Hopeless(taken + c[..n]))
  {
    hide Utf8.Run, Utf8.WellFormed, TextReader.LastAccept, Hopeless;
    var d := Utf8.Run(Utf8.START, taken);
    Utf8.RunConcat(Utf8.START, taken, c);
    Utf8.AcceptsTheGrammar(Utf8.START, taken + c);
    HopelessIsRejected(taken + c);
    var rest := t.data[|taken + c|..];
    assert t.data == (taken + c) + rest;
    if !Hopeless(t.data) {
      HopefulPrefix(taken + c, rest);
    }
    if n == TextReader.LastAccept(d, c) {
      Utf8.RunConcat(Utf8.START, taken, c[..n]);
      HopelessIsRejected(taken + c[..n]);
      assert n == 0 ==> taken + c[..n] == taken;
    }
  }

  /** The Read that ends a message of which taken and the control frames cs came before, and rest was left. */
  lemma {:induction false} EndsHere(t: Tail, taken: seq<byte>, cs: seq<Control>, rest: Tail, checking: bool,
                 c: seq<byte>, n: nat, more: seq<Control>, left: seq<byte>, err: Error)
    requires t == Prepend(taken, cs, rest) && n <= |c| && (checking ==> !Hopeless(taken))
    requires Utf8.IsState(Utf8.Run(Utf8.START, taken).state)
    requires err == InvalidUTF8 ==> checking && c <= rest.data && more <= rest.controls
    requires err == InvalidUTF8 ==> Invalid(Utf8.Run(Utf8.START, taken), c, c == rest.data && rest.end == Done, n)
    requires err != InvalidUTF8 ==>
      c == rest.data && n == |c| && more == rest.controls && left == rest.rest && err == EndError(rest.end)
    requires checking && err != InvalidUTF8 ==> Utf8.Run(Utf8.Run(Utf8.START, taken), c).state != Utf8.REJECT
    requires checking && rest.end == Done && err != InvalidUTF8 ==>
      Utf8.Run(Utf8.Run(Utf8.START, taken), c).state == Utf8.ACCEPT
    ensures Ended(t, checking, taken + c[..n], cs + more, left, err)
    ensures err == InvalidUTF8 && t.end == Done ==> |taken| + n < |t.data| || n == 0
  {
    hide Utf8.Run, Utf8.WellFormed, TextReader.LastAccept, Hopeless;
    assert t.data == taken + rest.data && c <= rest.data;
    assert c[..|c|] == c;
    if checking {
      TextSoFar(t, taken, c, n);
    }
  }

  /** One Read of a message of which some has been taken. */
  method Step(rd: Reader, p: array<byte>, lo: nat, hi: nat, ghost t: Tail, ghost was: seq<Control>,
              ghost checking: bool, ghost taken: seq<byte>) returns (n: nat, err: Error)
    requires Going(rd, t, was, checking, taken) && lo < hi <= p.Length
    modifies rd, rd.raw, rd.cipher, rd.utf8, rd.source, rd.handler.Objects(), p
    ensures n <= hi - lo && forall k :: 0 <= k < p.Length && !(lo <= k < hi) ==> p[k] == old(p[k])
    ensures err == Nil ==> Going(rd, t, was, checking, taken + p[lo..lo + n]) && rd.Measure() < old(rd.Measure())
    ensures err == Nil && !rd.state.fragmented ==> !Over(rd.Rest())
    ensures SameSide(old(rd.state), rd.state) && (!old(rd.state.fragmented) ==> !rd.state.fragmented)
    ensures err != Nil ==> Finished(rd, t, was, checking, taken + p[lo..lo + n], err)
    ensures err == InvalidUTF8 && t.end == Done ==> |taken| + n < |t.data| || n == 0
  {
    hide Utf8.Run, Utf8.WellFormed, TextReader.LastAccept, Hopeless, Reader.Core, Reader.Handled, Reader.Rest, Ended;
    ghost var rest, log, d := rd.Rest(), rd.log, rd.utf8.dfa;
    ghost var c;
    n, err, c := rd.Read(p, lo, hi);
    HopelessIsRejected(taken);
    if Utf8.IsState(d.state) {
      Utf8.RunNothing(d);
    }
    ghost var more := rd.log[|log|..];
    assert rd.log[|was|..] == log[|was|..] + more;
    if err == Nil {
      assert p[lo..lo + n] == c;
      PrependTwice(taken, log[|was|..], c, more, rd.Rest());
      Utf8.RunConcat(Utf8.START, taken, c);
    } else {
      EndsHere(t, taken, log[|was|..], rest, checking, c, n, more, rd.source.data, err);
    }
  }

  /** io.ReadAll, whatever the sizes of its buffers are: it takes io.EOF for the end of the message. */
  method ReadAll(rd: Reader, ghost t: Tail, ghost was: seq<Control>, ghost checking: bool)
    returns (data: seq<byte>, err: Error, ghost end: Error)
    requires Going(rd, t, was, checking, [])
    modifies rd, rd.raw, rd.cipher, rd.utf8, rd.source, rd.handler.Objects()
    ensures Finished(rd, t, was, checking, data, end)
    ensures end != Nil && err == (if end == EOF then Nil else end) && SameSide(old(rd.state), rd.state)
  {
    hide Going, Finished, Reader.Measure;
    data, err := [], Nil;
    while err == Nil
      invariant err == Nil ==> Going(rd, t, was, checking, data)
      invariant err != Nil ==> Finished(rd, t, was, checking, data, err)
      invariant SameSide(old(rd.state), rd.state)
      decreases if err == Nil then 1 else 0, rd.Measure()
    {
      var buf := SomeBuffer();
      var n;
      n, err := Step(rd, buf, 0, buf.Length, t, was, checking, data);
      data := data + buf[0..n];
    }
    end := err;
    if err == EOF {
      err := Nil;
    }
  }

  /** A complete message, with valid text if it is checked. */
  lemma {:induction false} WholeMessage(rd: Reader, t: Tail, was: seq<Control>, checking: bool, data: seq<byte>,
      end: Error)
    requires Finished(rd, t, was, checking, data, end) && t.end == Done
    requires checking ==> !Hopeless(t.data) && Utf8.WellFormed(t.data)
    ensures end == EOF && data == t.data && rd.log == was + t.controls && rd.source.data == t.rest
    ensures rd.Valid() && rd.Settled() && !rd.state.fragmented && rd.utf8.dfa == Utf8.START
  {
    hide Hopeless, Utf8.WellFormed, Reader.Core, Reader.Handled;
    assert rd.log == was + rd.log[|was|..];
  }

  /** A message that is all in the current, final frame. */
  lemma {:induction false} SingleFrame(rd: Reader, t: Tail, was: seq<Control>, checking: bool)
    requires Going(rd, t, was, checking, []) && !rd.state.fragmented && rd.log == was
    ensures rd.frame.Some? && t == rd.Rest() && t.controls == []
    ensures rd.raw.N == 0 ==> t.rest == rd.source.data
    ensures if t.end == Done then |t.data| == rd.raw.N else t.end.Cut? && |t.data| < rd.raw.N
    ensures !Hopeless([]) && Utf8.WellFormed([])
  {
    rd.LeftLength();
    var none: seq<Control> := [];
    assert none + none == none;
    assert rd.Rest().controls == [];
    assert [] + rd.Rest().data == rd.Rest().data;
    assert Utf8.WellFormed([] + []);
  }

  /** io.ReadFull of a message of one frame, into a buffer of just its length. */
  method ReadFullMessage(rd: Reader, p: array<byte>, ghost t: Tail, ghost was: seq<Control>, ghost checking: bool)
    returns (err: Error)
    requires Going(rd, t, was, checking, []) && !rd.state.fragmented && rd.log == was && p.Length == rd.raw.N
    modifies rd, rd.raw, rd.cipher, rd.utf8, rd.source, rd.handler.Objects(), p
    ensures rd.Valid() && t.controls == [] && rd.log == was && !t.end.Failed?
    ensures err == if Malformed(checking, t) then InvalidUTF8 else if t.end == Done then Nil else UnexpectedEOF
    ensures err == Nil ==> p[..] == t.data && rd.source.data == t.rest
  {
    hide Utf8.Run, Utf8.WellFormed, Hopeless, Reader.Measure, Reader.Core, Reader.Handled, Reader.Rest;
    SingleFrame(rd, t, was, checking);
    var n: nat := 0;
    err := Nil;
    while n < p.Length && err == Nil
      invariant n <= p.Length
      invariant err == Nil ==> Going(rd, t, was, checking, p[..n])
      invariant err == Nil && p.Length > 0 ==> !rd.state.fragmented && !Over(rd.Rest())
      invariant err != Nil ==> Finished(rd, t, was, checking, p[..n], err)
      invariant err == InvalidUTF8 && t.end == Done ==> n < p.Length
      invariant p.Length == 0 ==> rd.source.data == old(rd.source.data)
      decreases if err == Nil then 1 else 0, rd.Measure()
    {
      ghost var sofar := p[..n];
      var nn;
      nn, err := Step(rd, p, n, p.Length, t, was, checking, sofar);
      assert p[..n] == sofar;
      assert p[..n + nn] == sofar + p[n..n + nn];
      n := n + nn;
    }
    assert p[..p.Length] == p[..];
    if n >= p.Length {
      err := Nil;
    } else if n > 0 && err == EOF {
      err := UnexpectedEOF;
    }
  }

  /** After the header h of the first frame of a message. */
  lemma {:induction false} Begun(rd: Reader, st: State, h: Header)
    requires rd.Valid() && rd.Settled() && rd.frame.Some? && rd.raw.N == h.length && rd.utf8.dfa == Utf8.START
    requires rd.Left() == PayloadIn(h, rd.source.data) && rd.state == st.(fragmented := !h.fin)
    ensures Going(rd, StartTail(st, rd.handler.Replying?, h, rd.source.data), rd.log, rd.Checking(), [])
  {
    hide PayloadIn, Input.Left, MessageTail, CurrentTail, Reader.Core, Reader.Handled;
    assert Utf8.Run(Utf8.START, []) == Utf8.START;
    PrependNothing(rd.Rest());
  }

  /** The message that begins at the next frame. */
  function NextMessage(st: State, replies: bool, s: seq<byte>): Tail
    requires NextHeader(st, s).err == Nil
  {
    StartTail(st, replies, NextHeader(st, s).header, NextHeader(st, s).rest)
  }

  /** NextFrame at the start of a message without errors. */
  method StartMessage(rd: Reader) returns (h: Header, err: Error)
    requires rd.Valid() && rd.Settled() && !rd.state.fragmented && rd.utf8.dfa == Utf8.START
    requires NextHeader(rd.state, rd.source.data).err == Nil
    modifies rd, rd.raw, rd.cipher, rd.utf8`source, rd.source, rd.handler.Objects()
    ensures err == Nil && h == NextHeader(old(rd.state), old(rd.source.data)).header && rd.log == old(rd.log)
    ensures Going(rd, NextMessage(old(rd.state), rd.handler.Replying?, old(rd.source.data)), rd.log,
                  rd.checkUtf8 && h.op == OP_TEXT, [])
    ensures SameSide(old(rd.state), rd.state)
  {
    hide NextHeader, StartTail, PayloadIn, Reader.Core, Reader.Handled, Going;
    ghost var st, s := rd.state, rd.source.data;
    ControlIsChecked(st, s);
    h, err := rd.NextFrame();
    Begun(rd, st, h);
  }

  /** Without replies, no error inside a message is io.EOF. */
  lemma {:induction false} EndsWithoutEOF(st: State, s: seq<byte>)
    requires st.fragmented
    ensures var t := MessageTail(st, false, s);
            t.end.Failed? ==> t.end.err != EOF && t.end.err != Nil
    decreases |s|
  {
    hide ReadHeaderFrom, CheckHeader, PayloadIn, AnswerTo;
    var n := NextHeader(st, s);
    if n.err == Nil {
      ControlIsChecked(st, s);
      AfterIsShorter(n.header, n.rest);
      if IsControl(n.header.op) || !n.header.fin {
        EndsWithoutEOF(st, AfterPayload(n.header, n.rest));
      }
    } else {
      HeaderErrors(st, s);
    }
  }

  lemma {:induction false} HeaderErrors(st: State, s: seq<byte>)
    ensures st.fragmented ==> NextHeader(st, s).err != EOF
  {
    hide ReadHeaderFrom;
  }

  lemma {:induction false} MessageEndsWithoutEOF(st: State, s: seq<byte>)
    requires !st.fragmented && NextHeader(st, s).err == Nil
    ensures var t := NextMessage(st, false, s);
            t.end.Failed? ==> t.end.err != EOF && t.end.err != Nil
  {
    hide NextHeader, PayloadIn, MessageTail;
    var n := NextHeader(st, s);
    if !n.header.fin {
      EndsWithoutEOF(st.(fragmented := true), n.rest[Min(n.header.length, |n.rest|)..]);
    }
  }

  lemma {:induction false} CollectedSoFar(rd: Reader, m: seq<Message>, t: Tail, checking: bool, data: seq<byte>,
      end: Error)
    requires Finished(rd, t, [], checking, data, end) && rd.handler.Collect? && rd.had == m
    requires t.end.Failed? ==> t.end.err != EOF && t.end.err != Nil
    ensures end == InvalidUTF8 <==> Malformed(checking, t)
    ensures end == EOF <==> t.end == Done && !Malformed(checking, t)
    ensures end == EOF ==> data == t.data && rd.source.data == t.rest
    ensures end != InvalidUTF8 ==> end == EndError(t.end) && rd.collected == m + AsMessages(t.controls)
    ensures end == InvalidUTF8 ==> 0 <= |rd.log| <= |t.controls| && rd.collected == m + AsMessages(t.controls[..|rd.log|])
  {
    hide Malformed, Hopeless, Reader.Core, AsMessages;
    assert rd.log[0..] == rd.log;
    assert rd.log <= t.controls ==> t.controls[..|rd.log|] == rd.log;
  }

  /** Reads the next message, after the control frames that came inside it. */
  method ReadMessage(r: Source, st: State, m: seq<Message>) returns (ms: seq<Message>, err: Error)
    requires !st.fragmented
    modifies r
    ensures var n := NextHeader(st, old(r.data));
            if n.err != Nil then err == n.err && ms == m && r.data == n.rest
            else
              var t := NextMessage(st, false, old(r.data));
              && (err == InvalidUTF8 <==> Malformed(n.header.op == OP_TEXT, t))
              && (err == Nil <==> t.end == Done && !Malformed(n.header.op == OP_TEXT, t))
              && (err != Nil && err != InvalidUTF8 ==> err == EndError(t.end) && ms == m + AsMessages(t.controls))
              && (err == InvalidUTF8 ==> exists k :: 0 <= k <= |t.controls| && ms == m + AsMessages(t.controls[..k]))
              && (err == Nil ==> r.data == t.rest &&
                                 ms == m + AsMessages(t.controls) + [Message(n.header.op, t.data)])
  {
    hide NextHeader, StartTail, MessageTail, PayloadIn, AsMessages, Finished, Going, Malformed, Reader.Core;
    var rd := new Reader(r, st, true, Collect, m);
    var h;
    h, err := rd.NextFrame();
    if err != Nil {
      return m, err;
    }
    ghost var n, t := NextHeader(st, old(r.data)), NextMessage(st, false, old(r.data));
    Begun(rd, st, h);
    MessageEndsWithoutEOF(st, old(r.data));
    assert AsMessages(t.controls[..0]) == [] && m + [] == m;
    var p;
    if h.fin {
      var buf := new byte[h.length];
      err := ReadFullMessage(rd, buf, t, [], h.op == OP_TEXT);
      p := buf[..];
    } else {
      ghost var e;
      p, err, e := ReadAll(rd, t, [], h.op == OP_TEXT);
      CollectedSoFar(rd, m, t, h.op == OP_TEXT, p, e);
    }
    if err != Nil {
      return rd.collected, err;
    }
    ms := rd.collected + [Message(h.op, p)];
  }

  // Where io.ReadAll is misled.

  /** A close frame whose stream ends right before its body. */
  predicate BodylessClose(c: Control)
  {
    c.header.op == OP_CLOSE && c.header.length > 0 && c.payload == []
  }

  /** The only handler error that is io.EOF is that of ReadFull on such a body. */
  lemma {:induction false} HandlerEOF(c: Control)
    ensures HandlerError(true, c) == EOF <==> BodylessClose(c)
  {
    hide EncodeFrame, ReplyFrame, ProtocolErrorFrame, ParseCloseFrameData, Utf8.WellFormed;
  }

  /**
   * A message that is read with a ControlFrameHandler ends in io.EOF exactly when it is complete or its stream
   * ends right before the body of a close frame inside it; in the second case its rest is missing unnoticed.
   */
  lemma {:induction false} EndsInEOF(st: State, s: seq<byte>)
    requires st.fragmented
    ensures var t := MessageTail(st, true, s);
            && (EndError(t.end) == EOF <==> t.end == Done || t.end == Failed(EOF))
            && (t.end == Failed(EOF) <==> LastIsBodyless(t.controls)) && t.end != Failed(Nil)
    decreases |s|
  {
    hide NextHeader, PayloadIn, HandlerError, BodylessClose, AfterPayload;
    var n := NextHeader(st, s);
    if n.err == Nil {
      ControlIsChecked(st, s);
      var c, after := Control(n.header, PayloadIn(n.header, n.rest)), AfterPayload(n.header, n.rest);
      AfterIsShorter(n.header, n.rest);
      HandlerEOF(c);
      if IsControl(n.header.op) || !n.header.fin {
        EndsInEOF(st, after);
        OneMoreControl(c, MessageTail(st, true, after).controls);
      }
    } else {
      HeaderErrors(st, s);
    }
  }

  predicate LastIsBodyless(cs: seq<Control>)
  {
    cs != [] && BodylessClose(cs[|cs| - 1])
  }

  lemma {:induction false} OneMoreControl(c: Control, cs: seq<Control>)
    ensures LastIsBodyless([c] + cs) <==> if cs == [] then BodylessClose(c) else LastIsBodyless(cs)
    ensures LastIsBodyless([] + cs) <==> LastIsBodyless(cs)
    ensures LastIsBodyless([c]) <==> BodylessClose(c)
  {
    hide BodylessClose;
    assert [] + cs == cs;
  }

  /** Inside a message that a client reads, the header of a close with two bytes of body is all that there is. */
  lemma {:induction false} MissingRestIsEOF()
    ensures MessageTail(State(false, true, false, true), true, [0x88, 2]).end == Failed(EOF)
  {
    hide AnswerTo;
    var st, s := State(false, true, false, true), [0x88, 2];
    var n := NextHeader(st, s);
    assert s[2..] == [] && s[2..2] == [];
    assert n == Next(Nil, Header(true, 0, OP_CLOSE, false, ZERO_MASK, 2), []);
    HandlerEOF(Control(n.header, []));
  }

  /** The first byte of a final frame of five bytes is all that there is. */
  lemma {:induction false} CutIsDiscarded()
    ensures var t := MessageTail(State(false, true, false, true), false, [0x80, 5, 1]);
            t.end == Cut(true) && Discarded(t).err == Nil
  {
    var st, s := State(false, true, false, true), [0x80, 5, 1];
    var n := NextHeader(st, s);
    assert s[2..] == [1] && s[2..2] == [];
    assert n == Next(Nil, Header(true, 0, OP_CONTINUATION, false, ZERO_MASK, 5), [1]);
  }

  // readData.

  /** hdr.OpCode & want != 0 */
  predicate Wanted(op: OpCode, want: OpCode)
  {
    || (op % 2 == 1 && want % 2 == 1)
    || (op / 2 % 2 == 1 && want / 2 % 2 == 1)
    || (op / 4 % 2 == 1 && want / 4 % 2 == 1)
    || (op / 8 % 2 == 1 && want / 8 % 2 == 1)
  }

  /** The masks OpText and OpBinary of the callers select just that kind of message, and both together either. */
  lemma WantedKinds(h: Header)
    requires MessageStart(h)
    ensures Wanted(h.op, OP_TEXT) <==> h.op == OP_TEXT
    ensures Wanted(h.op, OP_BINARY) <==> h.op == OP_BINARY
    ensures Wanted(h.op, 3)
  {}

  /** What readData returns, the control frames it answers, and the stream after it. */
  datatype Heard = Heard(err: Error, op: OpCode, payload: seq<byte>, controls: seq<Control>, rest: seq<byte>)

  function HeardAfter(cs: seq<Control>, h: Heard): Heard
  {
    h.(controls := cs + h.controls)
  }

  /** io.ReadAll takes io.EOF for the end. */
  function ReadAllError(e: Error): Error
  {
    if e == EOF then Nil else e
  }

  lemma {:induction false} NextIsShorter(st: State, replies: bool, s: seq<byte>)
    requires NextHeader(st, s).err == Nil && !st.fragmented
    ensures |NextMessage(st, replies, s).rest| < |s|
    ensures 0 <= NextHeader(st, s).header.length
    ensures |AfterPayload(NextHeader(st, s).header, NextHeader(st, s).rest)| < |s|
  {
    hide PayloadIn, MessageTail, NextHeader;
    var n := NextHeader(st, s);
    if !n.header.fin {
      TailIsShorter(st.(fragmented := true), replies, n.rest[Min(n.header.length, |n.rest|)..]);
    }
  }

  /** The first data message in the stream s that is wanted; what comes before it is answered or skipped. */
  ghost function DataMessage(st: State, want: OpCode, s: seq<byte>): Heard
    requires !st.fragmented
    decreases |s|
  {
    var n := NextHeader(st, s);
    if n.err != Nil then Heard(n.err, 0, [], [], n.rest)
    else
      NextIsShorter(st, true, s);
      if IsControl(n.header.op) then
        var c := Control(n.header, PayloadIn(n.header, n.rest));
        var after := AfterPayload(n.header, n.rest);
        var cs := if |c.payload| < c.header.length then [] else [c];
        if OwnError(c) != Nil then Heard(OwnError(c), 0, [], cs, after)
        else HeardAfter(cs, DataMessage(st, want, after))
      else
        var t := NextMessage(st, true, s);
        if !Wanted(n.header.op, want) then
          if DiscardError(t.end) != Nil then Heard(DiscardError(t.end), 0, [], t.controls, t.rest)
          else HeardAfter(t.controls, DataMessage(st, want, t.rest))
        else if Malformed(n.header.op == OP_TEXT, t) then
          Heard(InvalidUTF8, n.header.op, t.data, t.controls, t.rest)
        else Heard(ReadAllError(EndError(t.end)), n.header.op, t.data, t.controls, t.rest)
  }

  lemma {:induction false} HeardTwice(cs: seq<Control>, ds: seq<Control>, h: Heard)
    ensures HeardAfter(cs, HeardAfter(ds, h)) == HeardAfter(cs + ds, h)
  {
    assert cs + (ds + h.controls) == (cs + ds) + h.controls;
  }

  /** The same for a whole message, single frames included. */
  lemma {:induction false} MessageEndsInEOF(st: State, s: seq<byte>)
    requires !st.fragmented && NextHeader(st, s).err == Nil
    ensures var t := NextMessage(st, true, s);
            && (EndError(t.end) == EOF <==> t.end == Done || t.end == Failed(EOF))
            && (t.end == Failed(EOF) <==> LastIsBodyless(t.controls)) && t.end != Failed(Nil)
  {
    hide NextHeader, PayloadIn, MessageTail, BodylessClose;
    var n := NextHeader(st, s);
    if !n.header.fin {
      var after := n.rest[Min(n.header.length, |n.rest|)..];
      EndsInEOF(st.(fragmented := true), after);
      OneMoreControl(Control(n.header, []), MessageTail(st.(fragmented := true), true, after).controls);
    }
  }

  lemma {:induction false} LastOfBoth(cs: seq<Control>, ds: seq<Control>)
    ensures LastIsBodyless(cs + ds) <==> if ds == [] then LastIsBodyless(cs) else LastIsBodyless(ds)
  {
    hide BodylessClose;
    assert ds == [] ==> cs + ds == cs;
  }

  /**
   * When readData returns no error, r is the stream from the message that it returns on, and cs the control frames
   * answered before. The message is complete, except exactly if the last control frame is a close without its body.
   */
  lemma {:induction false} NilMeansComplete(st: State, want: OpCode, s: seq<byte>) returns (r: seq<byte>,
      cs: seq<Control>)
    requires !st.fragmented && DataMessage(st, want, s).err == Nil
    ensures NextHeader(st, r).err == Nil
    ensures var h, t := DataMessage(st, want, s), NextMessage(st, true, r);
            && h.op == NextHeader(st, r).header.op && Wanted(h.op, want) && !Malformed(h.op == OP_TEXT, t)
            && h.payload == t.data && h.controls == cs + t.controls && h.rest == t.rest && !LastIsBodyless(cs)
            && (t.end != Done <==> LastIsBodyless(h.controls)) && (t.end != Done <==> LastIsBodyless(t.controls))
    decreases |s|
  {
    hide NextHeader, StartTail, PayloadIn, AfterPayload, DataMessage, Malformed, Hopeless, Wanted, OwnError;
    hide BodylessClose;
    hide LastIsBodyless, HandlerError;
    var n := NextHeader(st, s);
    NothingIsBodyless();
    r, cs := s, [];
    if n.err != Nil {
      HeardError(st, want, s);
    } else if IsControl(n.header.op) {
      HeardControl(st, want, s);
      var c := Control(n.header, PayloadIn(n.header, n.rest));
      var first := if |c.payload| < c.header.length then [] else [c];
      AnsweredIsNotBodyless(c);
      var ds;
      r, ds := NilMeansComplete(st, want, AfterPayload(n.header, n.rest));
      cs := first + ds;
      Associative(first, ds, NextMessage(st, true, r).controls);
      LastOfBoth(first, ds);
    } else if !Wanted(n.header.op, want) {
      HeardUnwanted(st, want, s);
      MessageEndsInEOF(st, s);
      var d := Discarded(NextMessage(st, true, s));
      var ds;
      r, ds := NilMeansComplete(st, want, d.rest);
      cs := d.controls + ds;
      Associative(d.controls, ds, NextMessage(st, true, r).controls);
      LastOfBoth(d.controls, ds);
    } else {
      HeardWanted(st, want, s);
      MessageEndsInEOF(st, s);
    }
    var t := NextMessage(st, true, r);
    LastOfBoth(cs, t.controls);
    assert [] + t.controls == t.controls;
  }

  lemma NothingIsBodyless()
    ensures !LastIsBodyless([])
  {}

  lemma {:induction false} AnsweredIsNotBodyless(c: Control)
    requires OwnError(c) == Nil
    ensures |c.payload| >= c.header.length && !LastIsBodyless([c])
  {
    hide HandlerError;
    HandlerEOF(c);
  }

  /** readData is between messages; total is what it has to come to. */
  ghost predicate Listening(rd: Reader, st: State, want: OpCode, total: Heard)
    requires !st.fragmented
    reads rd, rd.raw, rd.cipher, rd.utf8, rd.source, rd.handler.Objects()
  {
    && rd.Valid() && rd.Settled() && rd.handler.Replying? && rd.checkUtf8
    && rd.state == st && rd.utf8.dfa == Utf8.START
    && total == HeardAfter(rd.log, DataMessage(st, want, rd.source.data))
  }

  /** What readData returns is what it has to come to. */
  ghost predicate Told(rd: Reader, total: Heard, bts: seq<byte>, op: OpCode, err: Error)
    reads rd, rd.cipher, rd.utf8, rd.source, rd.handler.Objects()
  {
    && rd.Valid() && err == total.err && op == total.op
    && if err == InvalidUTF8 then rd.log <= total.controls && bts <= total.payload && (op == OP_TEXT ==> !Hopeless(bts))
       else rd.log == total.controls && bts == total.payload && rd.source.data == total.rest
  }

  /** NextFrame has read the header h of a frame outside of messages; rest is the stream after the header. */
  ghost predicate AtFrame(rd: Reader, st: State, h: Header, rest: seq<byte>, log: seq<Control>)
    requires 0 <= h.length
    reads rd, rd.raw, rd.cipher, rd.utf8, rd.source, rd.handler.Objects()
  {
    && rd.Valid() && rd.Settled() && rd.handler.Replying? && rd.checkUtf8 && rd.log == log
    && rd.frame.Some? && rd.raw.N == h.length && rd.Left() == PayloadIn(h, rest) && rd.source.data == rest
    && rd.state == st.(fragmented := !h.fin) && rd.utf8.dfa == Utf8.START && rd.opCode == h.op
  }

  /** The stream after the payload of the current frame. */
  lemma {:induction false} BeyondFrame(rd: Reader, st: State, h: Header, rest: seq<byte>, log: seq<Control>)
    requires 0 <= h.length && AtFrame(rd, st, h, rest, log)
    ensures Src(rd.frame.value, true).Beyond() == AfterPayload(h, rest)
    ensures h.length <= MAX_CONTROL_PAYLOAD ==> AtControl(h, Src(rd.frame.value, true))
  {
    hide Masked;
    rd.LeftLength();
  }

  lemma {:induction false} HeardControl(st: State, want: OpCode, s: seq<byte>)
    requires !st.fragmented && NextHeader(st, s).err == Nil && IsControl(NextHeader(st, s).header.op)
    ensures var n := NextHeader(st, s);
            0 <= n.header.length &&
            var c := Control(n.header, PayloadIn(n.header, n.rest));
            var after := AfterPayload(n.header, n.rest);
            var cs := if |c.payload| < c.header.length then [] else [c];
            && |after| < |s|
            && DataMessage(st, want, s) == if OwnError(c) != Nil then Heard(OwnError(c), 0, [], cs, after)
                                           else HeardAfter(cs, DataMessage(st, want, after))
  {
    hide NextHeader, PayloadIn, AfterPayload, OwnError;
    NextIsShorter(st, true, s);
  }

  method HearControl(rd: Reader, h: Header, ghost st: State, want: OpCode, ghost total: Heard,
                     ghost s: seq<byte>, ghost log: seq<Control>) returns (err: Error)
    requires !st.fragmented && IsControl(h.op) && NextHeader(st, s).err == Nil && NextHeader(st, s).header == h
    requires 0 <= h.length && AtFrame(rd, st, h, NextHeader(st, s).rest, log)
    requires total == HeardAfter(log, DataMessage(st, want, s))
    modifies rd, rd.raw, rd.cipher, rd.utf8, rd.source, rd.handler.Objects()
    ensures if err != Nil then Told(rd, total, [], 0, err)
            else Listening(rd, st, want, total) && |rd.source.data| < |s|
  {
    hide NextHeader, PayloadIn, AfterPayload, OwnError, DataMessage, Reader.Core, Reader.Handled, Input.Left;
    hide Src.Beyond;
    hide AtControl;
    ghost var rest := NextHeader(st, s).rest;
    ControlIsChecked(st, s);
    HeardControl(st, want, s);
    BeyondFrame(rd, st, h, rest, log);
    ghost var c, after := Control(h, PayloadIn(h, rest)), AfterPayload(h, rest);
    ghost var cs := if |c.payload| < h.length then [] else [c];
    HeardTwice(log, cs, DataMessage(st, want, after));
    OtherErrors(st, s, true, c);
    err := rd.AnswerOwn(h);
    assert log + cs == rd.log;
  }

  lemma {:induction false} HeardUnwanted(st: State, want: OpCode, s: seq<byte>)
    requires !st.fragmented && NextHeader(st, s).err == Nil && !IsControl(NextHeader(st, s).header.op)
    requires !Wanted(NextHeader(st, s).header.op, want)
    ensures var d := Discarded(NextMessage(st, true, s));
            && |d.rest| < |s|
            && DataMessage(st, want, s) == if d.err != Nil then Heard(d.err, 0, [], d.controls, d.rest)
                                           else HeardAfter(d.controls, DataMessage(st, want, d.rest))
  {
    hide NextHeader, StartTail, PayloadIn, AfterPayload;
    NextIsShorter(st, true, s);
  }

  method HearUnwanted(rd: Reader, h: Header, ghost st: State, want: OpCode, ghost total: Heard,
                      ghost s: seq<byte>, ghost log: seq<Control>) returns (err: Error)
    requires !st.fragmented && NextHeader(st, s).err == Nil && NextHeader(st, s).header == h
    requires !IsControl(h.op) && !Wanted(h.op, want)
    requires 0 <= h.length && AtFrame(rd, st, h, NextHeader(st, s).rest, log)
    requires total == HeardAfter(log, DataMessage(st, want, s))
    modifies rd, rd.raw, rd.cipher, rd.utf8, rd.source, rd.handler.Objects()
    ensures if err != Nil then Told(rd, total, [], 0, err)
            else Listening(rd, st, want, total) && |rd.source.data| < |s|
  {
    hide NextHeader, PayloadIn, AfterPayload, DataMessage, Reader.Core, Reader.Handled, Discarded, MessageTail;
    HeardUnwanted(st, want, s);
    Begun(rd, st, h);
    ghost var d := Discarded(NextMessage(st, true, s));
    err := rd.Discard();
    assert rd.log == log + d.controls;
    HeardTwice(log, d.controls, DataMessage(st, want, d.rest));
  }

  lemma {:induction false} HeardError(st: State, want: OpCode, s: seq<byte>)
    requires !st.fragmented && NextHeader(st, s).err != Nil
    ensures DataMessage(st, want, s) == Heard(NextHeader(st, s).err, 0, [], [], NextHeader(st, s).rest)
  {
    hide NextHeader;
  }

  lemma {:induction false} HeardWanted(st: State, want: OpCode, s: seq<byte>)
    requires !st.fragmented && NextHeader(st, s).err == Nil && !IsControl(NextHeader(st, s).header.op)
    requires Wanted(NextHeader(st, s).header.op, want)
    ensures var op, t := NextHeader(st, s).header.op, NextMessage(st, true, s);
            DataMessage(st, want, s)
            == if Malformed(op == OP_TEXT, t) then Heard(InvalidUTF8, op, t.data, t.controls, t.rest)
               else Heard(ReadAllError(EndError(t.end)), op, t.data, t.controls, t.rest)
  {
    hide NextHeader, StartTail, PayloadIn, AfterPayload, Malformed;
  }

  method HearWanted(rd: Reader, h: Header, ghost st: State, want: OpCode, ghost total: Heard,
                    ghost s: seq<byte>, ghost log: seq<Control>) returns (bts: seq<byte>, err: Error)
    requires !st.fragmented && NextHeader(st, s).err == Nil && NextHeader(st, s).header == h
    requires !IsControl(h.op) && Wanted(h.op, want)
    requires 0 <= h.length && AtFrame(rd, st, h, NextHeader(st, s).rest, log)
    requires total == HeardAfter(log, DataMessage(st, want, s))
    modifies rd, rd.raw, rd.cipher, rd.utf8, rd.source, rd.handler.Objects()
    ensures Told(rd, total, bts, h.op, err)
  {
    hide NextHeader, PayloadIn, DataMessage, Reader.Core, Reader.Handled, StartTail, Malformed, Hopeless;
    ghost var t := NextMessage(st, true, s);
    Begun(rd, st, h);
    HeardWanted(st, want, s);
    ghost var end;
    bts, err, end := ReadAll(rd, t, log, h.op == OP_TEXT);
    assert rd.log == log + rd.log[|log|..];
  }

  /** One round of readData's loop. */
  method Hear(rd: Reader, ghost st: State, want: OpCode, ghost total: Heard)
    returns (done: bool, bts: seq<byte>, op: OpCode, err: Error)
    requires !st.fragmented && Listening(rd, st, want, total)
    modifies rd, rd.raw, rd.cipher, rd.utf8, rd.source, rd.handler.Objects()
    ensures if done then Told(rd, total, bts, op, err)
            else Listening(rd, st, want, total) && |rd.source.data| < |old(rd.source.data)|
  {
    hide NextHeader, PayloadIn, AfterPayload, DataMessage, Hopeless;
    hide Reader.Core, Reader.Handled, Input.Left, HandlerError, Wanted;
    ghost var s, log := rd.source.data, rd.log;
    if NextHeader(st, s).err != Nil {
      HeardError(st, want, s);
    }
    ControlIsChecked(st, s);
    bts, op := [], 0;
    var hdr;
    hdr, err := rd.NextFrame();
    if err != Nil {
      done := true;
    } else if IsControl(hdr.op) {
      err := HearControl(rd, hdr, st, want, total, s, log);
      done := err != Nil;
    } else if !Wanted(hdr.op, want) {
      err := HearUnwanted(rd, hdr, st, want, total, s, log);
      done := err != Nil;
    } else {
      bts, err := HearWanted(rd, hdr, st, want, total, s, log);
      done, op := true, hdr.op;
    }
  }

  /**
   * Reads the first wanted data message; cs are the control frames that it has answered by then, each one
   * once and in order, whether they came between messages or inside of one.
   */
  method ReadData(rw: Source, dst: Sink, st: State, want: OpCode, masks: Sending.Masks)
    returns (bts: seq<byte>, op: OpCode, err: Error, ghost cs: seq<Control>)
    requires !st.fragmented && dst.reliable
    modifies rw, dst
    ensures dst.out == old(dst.out) + Answers(st.client, masks, cs)
    ensures var h := DataMessage(st, want, old(rw.data));
            && err == h.err && op == h.op
            && (err != InvalidUTF8 ==> bts == h.payload && cs == h.controls && rw.data == h.rest)
            && (err == InvalidUTF8 ==> bts <= h.payload && cs <= h.controls && (op == OP_TEXT ==> !Hopeless(bts)))
  {
    hide DataMessage, Hopeless, Answers, Reader.Core;
    var rd := new Reader(rw, st, true, Replying(dst, st.client, masks), []);
    ghost var total := DataMessage(st, want, rw.data);
    assert Listening(rd, st, want, total) by {
      assert [] + total.controls == total.controls;
    }
    var done := false;
    bts, op, err := [], 0, Nil;
    while !done
      invariant if done then Told(rd, total, bts, op, err) else Listening(rd, st, want, total)
      decreases if done then 0 else 1, |rw.data|
    {
      done, bts, op, err := Hear(rd, st, want, total);
    }
    cs := rd.log;
  }
}
