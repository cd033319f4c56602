/** Reader (msutil/reader.go) and ControlHandler (msutil/handler.go), which read from one another. */
module Reading {
  import opened Bytes
  import opened Masking
  import opened Frame
  import opened Check
  import opened Codec
  import opened Closing
  import opened Stream
  import opened Wire
  import opened Utf8
  import opened TextReader
  import opened Messages
  import Sending
  import opened Writing
  import opened Receiving

  /** OnIntermediate: none, any function that cannot fail, the one of ReadMessage, or a ControlFrameHandler. */
  datatype Handler = NoHandler | Arbitrary | Collect | Replying(dst: Sink, client: bool, masks: Sending.Masks)
  {
    ghost function Objects(): set<object>
    {
      if Replying? then {dst} else {}
    }
  }

  /** The answers to control frames in arrival order; the k-th answer draws the k-th mask. */
  function Answers(client: bool, masks: Sending.Masks, cs: seq<Control>): seq<byte>
  {
    if cs == [] then []
    else Answers(client, masks, cs[..|cs| - 1]) + AnswerTo(client, masks(|cs| - 1), cs[|cs| - 1]).bytes
  }

  /** Control frames as the messages that ReadMessage collects. */
  function AsMessages(cs: seq<Control>): (ms: seq<Message>)
    ensures |ms| == |cs|
  {
    seq(|cs|, i requires 0 <= i < |cs| => Message(cs[i].header.op, cs[i].payload))
  }

  /** ErrInvalidUTF8: the automaton has rejected, or it does not accept at the end of the whole message. */
  ghost predicate Invalid(d: Dfa, c: seq<byte>, complete: bool, n: nat)
    requires IsState(d.state)
  {
    n == LastAccept(d, c) && (Utf8.Run(d, c).state == REJECT || (Utf8.Run(d, c).state != ACCEPT && complete))
  }

  /** What a Read says about the bytes c that it took from the message: all delivered, unless text is invalid. */
  ghost predicate Tracks(checking: bool, d: Dfa, c: seq<byte>, err: Error, after: Dfa, n: nat)
    requires IsState(d.state)
  {
    && (err == InvalidUTF8 ==> checking)
    && (err != InvalidUTF8 ==> n == |c|)
    && (checking && err != InvalidUTF8 ==> Utf8.Run(d, c).state == REJECT ==> c == [] && err != EOF)
    && (checking && err == Nil ==> after == Utf8.Run(d, c))
    && (checking && err == EOF ==> Utf8.Run(d, c).state == ACCEPT)
    && (!checking && err == Nil ==> after == d)
  }

  lemma NothingTaken(checking: bool, d: Dfa)
    requires IsState(d.state)
    ensures Tracks(checking, d, [], Nil, d, 0)
  {}

  lemma {:induction false} TakenAfter(cs: seq<Control>, t: Tail)
    ensures Prepend([], cs, t) == t.(controls := cs + t.controls)
  {
    assert [] + t.data == t.data;
  }

  /** Neither headers nor handlers report invalid text. */
  lemma {:induction false} OtherErrors(st: State, s: seq<byte>, replies: bool, c: Control)
    ensures NextHeader(st, s).err != InvalidUTF8 && HandlerError(replies, c) != InvalidUTF8
  {
    hide Utf8.WellFormed, EncodeFrame, Unsigned;
  }

  function AfterControls(cs: seq<Control>, s: Skipped): Skipped
  {
    s.(controls := cs + s.controls)
  }

  lemma NothingToSkip(st: State, replies: bool, s: seq<byte>)
    requires !st.fragmented
    ensures SkipFrom(st, replies, s) == Skipped([], Nil, s)
  {}

  /** Nothing is left of a complete message. */
  predicate Over(t: Tail)
  {
    t.data == [] && t.end == Done
  }

  class Reader {
    const source: Source
    const checkUtf8: bool
    const handler: Handler        // OnIntermediate
    const raw: LimitedReader      // the payload of the current frame, as it is on the wire
    const cipher: CipherReader    // unmasks raw
    const utf8: UTF8Reader
    var state: State
    var opCode: OpCode            // of the current message
    var frame: Option<Input>      // the current frame
    var checked: bool             // whether its payload goes through utf8
    var collected: seq<Message>   // by the handler Collect
    var answered: nat             // by the handler Replying

    ghost var log: seq<Control>             // the control frames handled so far
    ghost const before: seq<byte>           // what the handler's destination held at first
    ghost const had: seq<Message>           // what had been collected at first

    constructor (source: Source, state: State, checkUtf8: bool, handler: Handler, had: seq<Message>)
      requires handler.Replying? ==> handler.dst.reliable
      ensures Valid() && Settled() && Idle() && this.source == source && this.state == state
      ensures this.checkUtf8 == checkUtf8 && this.handler == handler
      ensures log == [] && this.had == had && (handler.Replying? ==> before == handler.dst.out)
      ensures fresh(raw) && fresh(cipher) && fresh(utf8)
    {
      this.source, this.state, this.checkUtf8, this.handler := source, state, checkUtf8, handler;
      var raw := new LimitedReader(source, 0);
      this.raw := raw;
      cipher := new CipherReader(raw, ZERO_MASK);
      utf8 := new UTF8Reader();
      opCode, frame, checked := 0, None, false;
      collected, answered := had, 0;
      log, this.had := [], had;
      before := if handler.Replying? then handler.dst.out else [];
      new;
      assert had + AsMessages([]) == had;
    }

    ghost function Objects(): set<object>
    {
      {this, raw, cipher, utf8, source} + handler.Objects()
    }

    /** The links between the parts. */
    ghost predicate Core()
      reads this`frame, this`checked, this`opCode, cipher, utf8
      ensures Core() ==> IsState(utf8.dfa.state)
    {
      && raw.R == source && cipher.r == raw && IsState(utf8.dfa.state)
      && (frame.Some? ==> frame.value == Plain(raw) || frame.value == Unmasking(cipher))
      && (frame.Some? ==> checked == Checking())
      && (frame.Some? && checked ==> utf8.source == frame)
      && (!Checking() ==> utf8.dfa == START)
    }

    /** Every control frame in the log has been answered or collected, once and in order. */
    ghost predicate Handled()
      reads this`log, this`answered, this`collected, handler.Objects()
    {
      match handler
      case Replying(dst, client, masks) =>
        dst.reliable && answered == |log| && dst.out == before + Answers(client, masks, log)
      case Collect => collected == had + AsMessages(log)
      case _ => true
    }

    ghost predicate Valid()
      reads this, cipher, utf8, handler.Objects()
    {
      Core() && Handled()
    }

    /** The current message is text that is being checked. */
    predicate Checking()
      reads this`opCode
    {
      checkUtf8 && opCode == OP_TEXT
    }

    /** Ready for the first frame of a message. */
    ghost predicate Idle()
      reads this, utf8
    {
      frame == None && utf8.dfa == START && opCode == 0
    }

    predicate InMessage()
      reads this`frame, this`state
    {
      frame.Some? || state.fragmented
    }

    /** The payload of the current frame that is left in the stream. */
    ghost function Left(): seq<byte>
      reads this, raw, cipher, source
      requires raw.R == source && cipher.r == raw
      requires frame.Some? ==> frame.value == Plain(raw) || frame.value == Unmasking(cipher)
    {
      if frame.Some? then frame.value.Left() else []
    }

    /** What is left of the current message. */
    ghost function Rest(): Tail
      requires Core() && InMessage()
      reads this, raw, cipher, utf8, source
    {
      if frame.Some? then CurrentTail(state, handler.Replying?, Left(), raw.N, source.data)
      else MessageTail(state, handler.Replying?, source.data)
    }

    /** A handler that replies does not write to a part of this Reader. */
    lemma Apart()
      ensures handler.Objects() !! {this, raw, cipher, utf8, source}
    {}

    lemma Linked()
      requires Core()
      ensures raw.R == source && cipher.r == raw
    {}

    method ResetFragment()
      modifies this`frame, raw, utf8`source
      ensures frame == None && utf8.source == None && raw.N == 0
    {
      raw.N := 0;
      frame := None;
      utf8.source := None;
    }

    method Reset()
      requires raw.R == source && cipher.r == raw
      modifies this`frame, this`opCode, raw, utf8
      ensures Core() && Idle() && Settled() && raw.N == 0
    {
      raw.N := 0;
      frame := None;
      utf8.source, utf8.accepted, utf8.dfa := None, 0, START;
      opCode := 0;
    }

    /** Reads from the current frame, through the text reader if it is checked. */
    method ReadInput(p: array<byte>, lo: nat, hi: nat) returns (n: nat, err: Error, ghost c: seq<byte>)
      requires Core() && frame.Some? && lo <= hi <= p.Length
      modifies raw, cipher, utf8, source, p
      ensures Core() && n <= |c| && n <= hi - lo && p[lo..lo + n] == c[..n]
      ensures forall k :: 0 <= k < p.Length && !(lo <= k < hi) ==> p[k] == old(p[k])
      ensures |c| <= |old(Left())| && c == old(Left())[..|c|] && Left() == old(Left())[|c|..]
      ensures source.data == old(source.data)[|c|..] && raw.N == old(raw.N) - |c|
      ensures lo < hi && c == [] ==> err == EOF && Left() == []
      ensures err == Nil || err == EOF || err == InvalidUTF8
      ensures err == EOF ==> Left() == []
      ensures err == InvalidUTF8 ==>
        checked && Utf8.Run(old(utf8.dfa), c).state == REJECT && n == LastAccept(old(utf8.dfa), c)
      ensures err != InvalidUTF8 ==>
        && n == |c| && (!checked ==> utf8.dfa == old(utf8.dfa))
        && (checked ==> && utf8.dfa == Utf8.Run(old(utf8.dfa), c) && utf8.accepted == LastAccept(old(utf8.dfa), c)
                        && (utf8.dfa.state == REJECT ==> c == []))
    {
      hide LastAccept, Utf8.Run, Decode;
      if checked {
        n, err, c := utf8.Read(p, lo, hi);
      } else {
        n, err := frame.value.Read(p, lo, hi);
        c := p[lo..lo + n];
      }
    }

    /** The part of Read that reads from the current frame. */
    method ReadFrame(p: array<byte>, lo: nat, hi: nat) returns (n: nat, err: Error, ghost c: seq<byte>)
      requires Core() && frame.Some? && lo <= hi <= p.Length
      modifies this`frame, this`opCode, raw, cipher, utf8, source, p
      ensures Core() && Settled() && n <= |c| && n <= hi - lo && p[lo..lo + n] == c[..n]
      ensures forall k :: 0 <= k < p.Length && !(lo <= k < hi) ==> p[k] == old(p[k])
      // what is taken from the frame
      ensures |c| <= |old(Left())| && c == old(Left())[..|c|] && source.data == old(source.data)[|c|..]
      ensures Tracks(old(Checking()), old(utf8.dfa), c, err, utf8.dfa, n)
      ensures err == InvalidUTF8 ==>
        Invalid(old(utf8.dfa), c, c == old(Left()) && !old(Short()) && !state.fragmented, n)
      // how it goes on
      ensures err == Nil || err == EOF || err == UnexpectedEOF || err == InvalidUTF8
      ensures err == Nil ==> opCode == old(opCode)
      ensures err == Nil && frame.Some? ==>
        && frame == old(frame) && raw.N == old(raw.N) - |c| && Left() == old(Left())[|c|..] && raw.N > 0
        && (c == [] ==> lo == hi)
      ensures err == Nil && frame.None? ==> state.fragmented && c == old(Left()) && !old(Short())
      ensures err == EOF ==> Idle() && !state.fragmented && c == old(Left()) && !old(Short())
      ensures err == UnexpectedEOF ==> c == old(Left()) && old(Short())
    {
      hide LastAccept, Utf8.Run, Decode, Input.Left, Tracks, Invalid, Idle, Short;
      ShortMeans();
      ghost var d, checking := utf8.dfa, Checking();
      var over;
      n, err, over, c := TakeInput(p, lo, hi);
      if !over {
        return;
      }
      ghost var k, after := n, utf8.dfa;
      n, err := EndOfFrame(n);
      SliceOfSlice(p, lo, lo + k, n);
      PassedInput(checking, d, c, after, err, utf8.dfa, n);
    }

    /** The part of Read up to an EOF condition. */
    method TakeInput(p: array<byte>, lo: nat, hi: nat) returns (n: nat, err: Error, over: bool, ghost c: seq<byte>)
      requires Core() && frame.Some? && lo <= hi <= p.Length
      modifies raw, cipher, utf8, source, p
      ensures Core() && n <= |c| && n <= hi - lo && p[lo..lo + n] == c[..n]
      ensures forall k :: 0 <= k < p.Length && !(lo <= k < hi) ==> p[k] == old(p[k])
      ensures |c| <= |old(Left())| && c == old(Left())[..|c|] && source.data == old(source.data)[|c|..]
      ensures raw.N == old(raw.N) - |c| && |old(Left())| == Min(old(raw.N), |old(source.data)|)
      ensures over ==> n == |c| && c == old(Left()) && Left() == [] && (!checked ==> utf8.dfa == old(utf8.dfa))
      ensures over && checked ==>
        && utf8.dfa == Utf8.Run(old(utf8.dfa), c) && utf8.accepted == LastAccept(old(utf8.dfa), c)
        && (utf8.dfa.state == REJECT ==> c == [])
      ensures !over ==> err == Nil || err == InvalidUTF8
      ensures !over ==> Tracks(old(Checking()), old(utf8.dfa), c, err, utf8.dfa, n)
      ensures !over && err == InvalidUTF8 ==>
        Invalid(old(utf8.dfa), c, c == old(Left()) && !old(Short()) && !state.fragmented, n)
      ensures !over && err == Nil ==> raw.N > 0 && Left() == old(Left())[|c|..] && (c == [] ==> lo == hi)
    {
      hide LastAccept, Utf8.Run, Decode, Input.Left, Tracks, Invalid, Short;
      ghost var left, d, checking, short := Left(), utf8.dfa, Checking(), Short();
      LeftLength();
      n, err, c := ReadInput(p, lo, hi);
      over := false;
      if err == InvalidUTF8 {
        RejectedInput(d, c, utf8.dfa, n, c == left && !short && !state.fragmented);
      } else if err == Nil && raw.N != 0 {
        PassedInput(checking, d, c, utf8.dfa, err, utf8.dfa, n);
      } else {
        LeftLength();
        AllTaken(left, c);
        over := true;
      }
    }

    /** Whether the frame is cut shows when its payload has been read. */
    lemma ShortMeans()
      ensures Short() <==> raw.N > |source.data|
    {}

    /** The part of Read for an EOF condition. */
    method EndOfFrame(k: nat) returns (n: nat, err: Error)
      requires Core() && frame.Some? && Left() == [] && (checked ==> utf8.accepted <= k)
      modifies this`frame, this`opCode, raw, utf8
      ensures Core() && Settled() && n <= k && (err != InvalidUTF8 ==> n == k)
      ensures n == if err == InvalidUTF8 then old(utf8.accepted) else k
      ensures err == if old(raw.N) != 0 then UnexpectedEOF else if state.fragmented then Nil
                     else if old(Checking()) && old(utf8.dfa.state) != ACCEPT then InvalidUTF8 else EOF
      ensures err == Nil ==> opCode == old(opCode) && frame.None? && utf8.dfa == old(utf8.dfa)
      ensures err == EOF ==> Idle()
    {
      n := k;
      if raw.N != 0 {
        err := UnexpectedEOF;
      } else if state.fragmented {
        err := Nil;
        ResetFragment();
      } else if checkUtf8 && !utf8.Valid() {
        n := utf8.accepted;
        err := InvalidUTF8;
      } else {
        Reset();
        err := EOF;
      }
    }

    /** The stream ends inside the current frame. */
    ghost predicate Short()
      reads raw, source
    {
      raw.N > |source.data|
    }

    /** The unmasked payload left in the stream is as long as the stream or the frame allows. */
    lemma LeftLength()
      requires Core() && frame.Some?
      ensures |Left()| == Min(raw.N, |source.data|)
    {}

    /** ReadFrame in terms of what is left of the message. */
    method ReadCurrent(p: array<byte>, lo: nat, hi: nat) returns (n: nat, err: Error, ghost c: seq<byte>)
      requires Valid() && frame.Some? && lo <= hi <= p.Length
      modifies this`frame, this`opCode, raw, cipher, utf8, source, p
      ensures Valid() && Settled() && n <= |c| && n <= hi - lo && p[lo..lo + n] == c[..n]
      ensures forall k :: 0 <= k < p.Length && !(lo <= k < hi) ==> p[k] == old(p[k])
      ensures err == Nil ==> InMessage() && old(Rest()) == Prepend(c, [], Rest())
      ensures err == Nil && !state.fragmented ==> !Over(Rest())
      ensures err == InvalidUTF8 ==> c <= old(Rest()).data && Invalid(old(utf8.dfa), c, c == old(Rest()).data && old(Rest()).end == Done, n)
      ensures err != Nil && err != InvalidUTF8 ==>
        var t := old(Rest());
        t.data == c && t.controls == [] && source.data == t.rest && !t.end.Failed? && err == EndError(t.end)
      ensures err == EOF ==> Idle() && !state.fragmented
      ensures Tracks(old(Checking()), old(utf8.dfa), c, err, utf8.dfa, n)
      ensures err == Nil ==> opCode == old(opCode)
      ensures |source.data| <= |old(source.data)|
      ensures err == Nil && lo < hi ==> |source.data| < |old(source.data)| || frame.None?
    {
      hide NextHeader, Handled, MessageTail, CurrentTail, Input.Left, LastAccept, Utf8.Run, Decode, Tracks, Over;
      Apart();
      ghost var left, size, data := Left(), raw.N, source.data;
      LeftLength();
      n, err, c := ReadFrame(p, lo, hi);
      FrameTaken(state, handler.Replying?, left, size, data, |c|);
    }

    /** An OnIntermediate that may read as much of the payload as it likes. */
    method ReadAnything(input: Input)
      requires input == Plain(raw) || input == Unmasking(cipher)
      requires Core()
      modifies raw, cipher, source
      ensures Core() && Src(input, false).Beyond() == old(Src(input, false).Beyond())
    {
      var times: int := *;
      for i := 0 to if times > 0 then times else 0
        invariant Core() && Src(input, false).Beyond() == old(Src(input, false).Beyond())
      {
        hide Src.Beyond, Input.Left;
        var buf := SomeBuffer();
        var n, e := Src(input, false).Read(buf, 0, buf.Length);
      }
    }

    /** Calls OnIntermediate with a checked control header and the reader of its payload. */
    method Intermediate(h: Header, input: Input) returns (err: Error)
      requires Valid() && (input == Plain(raw) || input == Unmasking(cipher))
      requires AtControl(h, Src(input, false)) && 8 <= h.op <= 10
      modifies this`collected, this`answered, this`log, raw, cipher, source, handler.Objects()
      ensures Valid() && log == old(log) + [Control(h, old(input.Left()))]
      ensures err == HandlerError(handler.Replying?, Control(h, old(input.Left())))
      ensures err != Nil ==> input.Left() == []
      ensures Src(input, false).Beyond() == old(Src(input, false).Beyond())
    {
      hide AnswerTo, HandlerError, Answers, AsMessages, Src.Beyond, Input.Left;
      ghost var c := Control(h, input.Left());
      assert this as object !in input.Objects();
      OnlyRepliesFail(c);
      match handler {
        case NoHandler => err := Nil;
        case Arbitrary =>
          ReadAnything(input);
          err := Nil;
        case Collect =>
          var payload := ReadPayload(input);
          collected := collected + [Message(h.op, payload)];
          LoggedMessage(log, c);
          err := Nil;
        case Replying(dst, client, masks) =>
          err := Reply(dst, client, masks, h, input);
      }
      log := log + [c];
    }

    /** Reads the next header and gets ready to read its frame, or handles it inside a message. */
    method NextFrame() returns (hdr: Header, err: Error)
      requires Valid() && Settled() && (state.fragmented || utf8.dfa == START)
      modifies this, raw, cipher, utf8`source, source, handler.Objects()
      ensures Settled()
      ensures var n := NextHeader(old(state), old(source.data));
              n.err == Nil ==> state == Advance(old(state), n.header)
      ensures var n := NextHeader(old(state), old(source.data));
              if n.err != Nil then
                && Valid() && err == n.err && source.data == n.rest && log == old(log)
                && frame == old(frame) && state == old(state) && opCode == old(opCode)
              else if old(state.fragmented) && IsControl(n.header.op) then
                var c := Control(n.header, PayloadIn(n.header, n.rest));
                && Valid() && log == old(log) + [c] && err == HandlerError(handler.Replying?, c)
                && source.data == AfterPayload(n.header, n.rest) && (raw.N == 0 || source.data == [])
                && frame == old(frame) && state == old(state) && opCode == old(opCode)
              else
                && Valid() && err == Nil && hdr == n.header && source.data == n.rest && log == old(log)
                && frame.Some? && raw.N == n.header.length && Left() == PayloadIn(n.header, n.rest)
                && state == old(state).(fragmented := !n.header.fin)
                && opCode == (if old(state.fragmented) then old(opCode) else n.header.op)
    {
      hide ReadHeaderFrom, CheckHeader, PayloadIn, AfterPayload, HandlerError, Src.Beyond, Input.Left, Handled;
      ghost var st, s := state, source.data;
      ControlIsChecked(st, s);
      hdr, err := ReadHeader(source);
      if err == EOF && state.fragmented {
        err := UnexpectedEOF;
      }
      if err == Nil {
        err := CheckHeader(hdr, state);
      }
      if err != Nil {
        return;
      }
      var input := Enter(hdr);
      if state.fragmented && IsControl(hdr.op) {
        err := HandleIntermediate(hdr, input);
      } else {
        Start(hdr, input);
      }
    }

    /** The reader of the payload of a frame whose header has just been read. */
    method Enter(h: Header) returns (input: Input)
      requires Core() && 0 <= h.length
      modifies raw, cipher
      ensures Core() && (input == Plain(raw) || input == Unmasking(cipher)) && raw.N == h.length
      ensures input.Left() == PayloadIn(h, source.data)
      ensures Src(input, false).Beyond() == AfterPayload(h, source.data)
    {
      raw.N := h.length;
      input := Plain(raw);
      if h.masked {
        cipher.Reset(h.mask);
        input := Unmasking(cipher);
      }
    }

    /** A control frame inside a message: its handler, and then what that has left of the payload is discarded. */
    method HandleIntermediate(h: Header, input: Input) returns (err: Error)
      requires Valid() && (input == Plain(raw) || input == Unmasking(cipher))
      requires 8 <= h.op <= 10 && 0 <= h.length <= MAX_CONTROL_PAYLOAD && raw.N == h.length
      modifies this`collected, this`answered, this`log, raw, cipher, source, handler.Objects()
      ensures Valid() && log == old(log) + [Control(h, old(input.Left()))]
      ensures err == HandlerError(handler.Replying?, Control(h, old(input.Left())))
      ensures source.data == old(Src(input, false).Beyond()) && (raw.N == 0 || source.data == [])
    {
      hide HandlerError, Answers, AsMessages;
      err := Intermediate(h, input);
      if err == Nil {
        var _ := Drain(Src(Plain(raw), false));
      }
    }

    /** Makes the frame current: the first one of a message, or a continuation. */
    method Start(h: Header, input: Input)
      requires Valid() && (input == Plain(raw) || input == Unmasking(cipher))
      requires if state.fragmented then h.op == OP_CONTINUATION else utf8.dfa == START
      modifies this`opCode, this`checked, this`frame, this`state, utf8`source
      ensures Valid() && frame == Some(input) && state == old(state).(fragmented := !h.fin)
      ensures opCode == (if old(state.fragmented) then old(opCode) else h.op) && Left() == old(input.Left())
    {
      hide Answers, AsMessages;
      if !state.fragmented {
        opCode := h.op;
      }
      checked := false;
      if checkUtf8 && (h.op == OP_TEXT || (state.fragmented && opCode == OP_TEXT)) {
        utf8.source := Some(input);
        checked := true;
      }
      frame := Some(input);
      state := state.(fragmented := !h.fin);
    }

    /** NextFrame inside a message: what is left of the message loses no more than the control frame handled. */
    method NextInMessage() returns (err: Error)
      requires Valid() && Settled() && state.fragmented && frame.None?
      modifies this, raw, cipher, utf8`source, source, handler.Objects()
      ensures Valid() && Settled() && old(log) <= log && opCode == old(opCode)
      ensures err == Nil ==> InMessage() && old(Rest()) == Prepend([], log[|old(log)|..], Rest())
      ensures err != Nil ==> old(Rest()) == Tail([], log[|old(log)|..], Failed(err), source.data)
      ensures |source.data| <= |old(source.data)| && (err == Nil ==> |source.data| + 2 <= |old(source.data)|)
      ensures err != InvalidUTF8 && SameSide(old(state), state)
    {
      hide NextHeader, HandlerError, Handled, PayloadIn, AfterPayload, Input.Left;
      ghost var st, s := state, source.data;
      ghost var n := NextHeader(st, s);
      OtherErrors(st, s, false, Control(n.header, []));
      if n.err == Nil {
        OtherErrors(st, s, handler.Replying?, Control(n.header, PayloadIn(n.header, n.rest)));
        ControlIsChecked(st, s);
        AfterIsShorter(n.header, n.rest);
        if !IsControl(n.header.op) {
          ContinuationTail(st, handler.Replying?, s);
        }
      }
      var hdr;
      hdr, err := NextFrame();
      assert log[|old(log)|..] == [] || log[|old(log)|..] == [log[|old(log)|]];
      if err == Nil {
        PrependNothing(Rest());
      }
    }

    /**
     * Reads the next payload bytes of the current message. c is what it has taken from the message; whatever
     * the chunks and the buffers are, that much is taken off what is left of the message.
     */
    method Read(p: array<byte>, lo: nat, hi: nat) returns (n: nat, err: Error, ghost c: seq<byte>)
      requires Valid() && Settled() && lo <= hi <= p.Length
      modifies this, raw, cipher, utf8, source, handler.Objects(), p
      ensures Valid() && Settled() && old(log) <= log && n <= |c| && n <= hi - lo && p[lo..lo + n] == c[..n]
      ensures forall k :: 0 <= k < p.Length && !(lo <= k < hi) ==> p[k] == old(p[k])
      ensures !old(InMessage()) ==> n == 0 && err == NoFrameAdvance && log == old(log) && source.data == old(source.data)
      ensures old(InMessage()) && err == Nil ==>
        && InMessage() && old(Rest()) == Prepend(c, log[|old(log)|..], Rest()) && opCode == old(opCode)
        && (!state.fragmented ==> !Over(Rest()))
      ensures old(InMessage()) && err == InvalidUTF8 ==>
        && c <= old(Rest()).data && log[|old(log)|..] <= old(Rest()).controls
        && Invalid(old(utf8.dfa), c, c == old(Rest()).data && old(Rest()).end == Done, n)
      ensures old(InMessage()) && err != Nil && err != InvalidUTF8 ==>
        var t := old(Rest());
        && c == t.data && log[|old(log)|..] == t.controls && source.data == t.rest && err == EndError(t.end)
        && (t.end == Done ==> Idle() && !state.fragmented) && (t.end.Failed? ==> c == [])
      ensures old(InMessage()) && (err == Nil || err == InvalidUTF8 || !old(Rest()).end.Failed?) ==>
        Tracks(old(Checking()), old(utf8.dfa), c, err, utf8.dfa, n)
      ensures old(InMessage()) && err == Nil && lo < hi ==> Measure() < old(Measure())
      ensures SameSide(old(state), state) && (!old(state.fragmented) ==> state == old(state))
    {
      hide NextHeader, Handled, MessageTail, CurrentTail, Input.Left, Tracks, Invalid, Core, Over, Idle;
      c := [];
      if frame.None? {
        if !state.fragmented {
          return 0, NoFrameAdvance, [];
        }
        err := NextInMessage();
        if err != Nil {
          return 0, err, [];
        }
        if frame.None? {
          NothingTaken(Checking(), utf8.dfa);
          return 0, Nil, [];
        }
      }
      ghost var cs := log[|old(log)|..];
      TakenAfter(cs, Rest());
      n, err, c := ReadAfter(p, lo, hi, Prepend([], cs, Rest()), cs);
    }

    /** ReadCurrent in terms of what was left of the message before the control frames cs. */
    method ReadAfter(p: array<byte>, lo: nat, hi: nat, ghost t: Tail, ghost cs: seq<Control>)
      returns (n: nat, err: Error, ghost c: seq<byte>)
      requires Valid() && frame.Some? && lo <= hi <= p.Length && t == Prepend([], cs, Rest())
      modifies this`frame, this`opCode, raw, cipher, utf8, source, p
      ensures Valid() && Settled() && n <= |c| && n <= hi - lo && p[lo..lo + n] == c[..n]
      ensures forall k :: 0 <= k < p.Length && !(lo <= k < hi) ==> p[k] == old(p[k])
      ensures err == Nil ==> InMessage() && t == Prepend(c, cs, Rest()) && (!state.fragmented ==> !Over(Rest()))
      ensures err == InvalidUTF8 ==>
        c <= t.data && cs <= t.controls && Invalid(old(utf8.dfa), c, c == t.data && t.end == Done, n)
      ensures err != Nil && err != InvalidUTF8 ==>
        && c == t.data && cs == t.controls && source.data == t.rest && err == EndError(t.end)
        && (t.end == Done ==> Idle() && !state.fragmented) && !t.end.Failed?
      ensures Tracks(old(Checking()), old(utf8.dfa), c, err, utf8.dfa, n)
      ensures err == Nil ==> opCode == old(opCode) && (lo < hi ==> Measure() < old(Measure()))
      ensures |source.data| <= |old(source.data)|
    {
      hide NextHeader, Handled, MessageTail, CurrentTail, Input.Left, Tracks, Invalid, Core, Over, Idle;
      ghost var rest := Rest();
      TakenAfter(cs, rest);
      n, err, c := ReadCurrent(p, lo, hi);
      if err == Nil {
        PrependTwice([], cs, c, [], Rest());
      }
    }

    /** Without a current frame, nothing is left of the last one. */
    ghost predicate Settled()
      reads this`frame, raw, source
    {
      frame.None? ==> raw.N == 0 || source.data == []
    }

    /** Decreases with every Read into a nonempty buffer. */
    ghost function Measure(): nat
      reads this, source
    {
      2 * |source.data| + if frame.Some? then 1 else 0
    }

    /**
     * Discards what is left of the message. The control frames handled and the position of the source are
     * those of reading it to its end.
     */
    method Discard() returns (err: Error)
      requires Valid() && Settled()
      modifies this, raw, cipher, utf8, source, handler.Objects()
      ensures Valid() && Settled() && Idle() && old(log) <= log
      ensures Skipped(log[|old(log)|..], err, source.data)
           == if old(InMessage()) then Discarded(old(Rest())) else Skipped([], Nil, old(source.data))
      ensures SameSide(old(state), state) && (err == Nil ==> !state.fragmented)
    {
      hide NextHeader, Handled, MessageTail, Discarded, SkipFrom, Core, CurrentTail, Input.Left;
      hide Settled, Idle, Beyond, SameSide, AfterControls, Rest;
      Apart();
      ghost var was, total := log, Skipped([], Nil, source.data);
      if InMessage() {
        total := Discarded(Rest());
      }
      SkipTheRest();
      assert log[|was|..] == [];
      err := DiscardFrames(total, was);
      Linked();
      Reset();
    }

    /** Discard's loop; total is what it has to come to since the log was was. */
    method DiscardFrames(ghost total: Skipped, ghost was: seq<Control>) returns (err: Error)
      requires Valid() && was <= log
      requires AfterControls(log[|was|..], SkipFrom(state, handler.Replying?, Beyond())) == total
      modifies this, raw, cipher, utf8`source, source, handler.Objects()
      ensures Valid() && was <= log && Skipped(log[|was|..], err, source.data) == total
      ensures SameSide(old(state), state) && (err == Nil ==> !state.fragmented)
    {
      hide NextHeader, Handled, MessageTail, SkipFrom, Core, Input.Left;
      Apart();
      ghost var replies := handler.Replying?;
      while true
        invariant Valid() && was <= log && SameSide(old(state), state)
        invariant AfterControls(log[|was|..], SkipFrom(state, replies, Beyond())) == total
        decreases |source.data|
      {
        var _ := DrainRaw();
        err := Nil;
        if !state.fragmented {
          NothingToSkip(state, replies, source.data);
          return;
        }
        err := SkipFrame(total, was);
        if err != Nil {
          return;
        }
      }
    }

    /** The stream after what is left of the frame. */
    ghost function Beyond(): seq<byte>
      reads raw, source
    {
      source.data[Min(raw.N, |source.data|)..]
    }

    /** Discarding the current message, from inside a frame or not, goes on from the end of the frame. */
    lemma {:induction false} SkipTheRest()
      requires Core() && Settled()
      ensures AfterControls([], SkipFrom(state, handler.Replying?, Beyond()))
           == if InMessage() then Discarded(Rest()) else Skipped([], Nil, source.data)
    {
      hide MessageTail, CurrentTail, Discarded, SkipFrom, Input.Left;
      SkippedNothing(SkipFrom(state, handler.Replying?, Beyond()));
      if frame.Some? {
        LeftLength();
        SkipCurrent(state, handler.Replying?, Left(), raw.N, source.data);
      } else {
        BetweenFrames(state, handler.Replying?, source.data);
      }
    }

    /** io.Copy(io.Discard, &r.raw) */
    method DrainRaw() returns (err: Error)
      requires Core()
      modifies raw, source
      ensures Core() && source.data == old(Beyond()) && (raw.N == 0 || source.data == [])
    {
      hide Input.Left, Src.Beyond, Src.AtEnd, Beyond;
      var src := Src(Plain(raw), false);
      BeyondIsLeft(src);
      err := Drain(src);
      ReadToItsEnd(src);
    }

    lemma BeyondIsLeft(src: Src)
      requires raw.R == source && src.input == Plain(raw)
      ensures Beyond() == src.Beyond()
    {}

    /** The step of Discard's loop from one frame to the next. */
    method SkipFrame(ghost total: Skipped, ghost was: seq<Control>) returns (err: Error)
      requires Valid() && state.fragmented && was <= log && (raw.N == 0 || source.data == [])
      requires AfterControls(log[|was|..], SkipFrom(state, handler.Replying?, source.data)) == total
      modifies this, raw, cipher, utf8`source, source, handler.Objects()
      ensures Valid() && was <= log && SameSide(old(state), state)
      ensures err == Nil ==>
        && AfterControls(log[|was|..], SkipFrom(state, handler.Replying?, Beyond())) == total
        && |source.data| < |old(source.data)|
      ensures err != Nil ==> Skipped(log[|was|..], err, source.data) == total
    {
      hide NextHeader, Handled, MessageTail, SkipFrom, Core, HandlerError, PayloadIn, AfterPayload, Input.Left;
      hide AfterControls;
      ghost var before, n := log, NextHeader(state, source.data);
      SkipStep(state, handler.Replying?, source.data, log[|was|..], total);
      var hdr;
      hdr, err := NextFrame();
      if log != before {
        LogGrows(was, before, log[|before|]);
      }
      BeyondFrame(hdr);
    }

    lemma BeyondFrame(h: Header)
      ensures raw.N == 0 || source.data == [] ==> Beyond() == source.data
      ensures raw.N == h.length ==> Beyond() == AfterPayload(h, source.data)
    {}

    /** ControlFrameHandler on a control frame that is current: it reads the payload through the Reader. */
    method AnswerOwn(h: Header) returns (err: Error)
      requires Valid() && handler.Replying? && frame.Some? && !state.fragmented && !Checking()
      requires AtControl(h, Src(frame.value, true)) && 8 <= h.op <= 10
      modifies this`frame, this`opCode, this`answered, this`log, raw, cipher, utf8, source, handler.Objects()
      ensures Valid() && err == OwnError(Control(h, old(Left())))
      ensures log == old(log) + if |old(Left())| < h.length then [] else [Control(h, old(Left()))]
      ensures source.data == old(Src(frame.value, true).Beyond())
      ensures err == Nil ==> Settled() && utf8.dfa == START
    {
      hide AnswerTo, HandlerError, Answers, Src.Beyond, Input.Left;
      var dst, client, masks := handler.dst, handler.client, handler.masks;
      var src := Src(frame.value, true);
      ghost var c := Control(h, Left());
      AtControlLeft(h, src);
      ErrorOfAnswer(client, masks(answered), c);
      LoggedAnswer(client, masks, log, c);
      err := Handle(dst, State(false, client, false, false), masks(answered), h, src);
      WholeIsAnswered(c);
      ReadToItsEnd(src);
      if err != UnexpectedEOF {
        HasRead(h.length > 0);
        answered := answered + 1;
        log := log + [c];
      }
    }

    /** The control frame has been read; a handler that has read to its end has reset the Reader. */
    method HasRead(read: bool)
      requires Core() && !Checking()
      modifies this`frame, this`opCode, raw, utf8
      ensures Core() && utf8.dfa == START && (read ==> Settled())
      ensures !read ==> frame == old(frame) && raw.N == old(raw.N)
    {
      if read {
        Linked();
        Reset();
      }
    }

    /** ControlFrameHandler: answers one more control frame. */
    method Reply(dst: Sink, client: bool, masks: Sending.Masks, h: Header, input: Input) returns (err: Error)
      requires Valid() && handler == Replying(dst, client, masks)
      requires input == Plain(raw) || input == Unmasking(cipher)
      requires AtControl(h, Src(input, false)) && 8 <= h.op <= 10
      modifies this`answered, raw, cipher, source, dst`out
      ensures Core() && answered == |log| + 1
      ensures dst.out == before + Answers(client, masks, log + [Control(h, old(input.Left()))])
      ensures err == HandlerError(true, Control(h, old(input.Left())))
      ensures input.Left() == []
      ensures Src(input, false).Beyond() == old(Src(input, false).Beyond())
    {
      hide AnswerTo, HandlerError, Answers, Src.Beyond, Input.Left;
      ghost var c := Control(h, input.Left());
      ErrorOfAnswer(client, masks(answered), c);
      LoggedAnswer(client, masks, log, c);
      err := Handle(dst, State(false, client, false, false), masks(answered), h, Src(input, false));
      answered := answered + 1;
    }
  }

  /** What is left of a message after k bytes of its current frame, and after all of them. */
  lemma {:induction false} FrameTaken(st: State, replies: bool, p: seq<byte>, n: nat, s: seq<byte>, k: nat)
    requires |p| == Min(n, |s|) && k <= |p|
    ensures var t, more := CurrentTail(st, replies, p, n, s), CurrentTail(st, replies, p[k..], n - k, s[k..]);
            && t == Prepend(p[..k], [], more) && p[..k] <= t.data
            && (k < n && !st.fragmented ==> !Over(more))
            && (k == |p| ==>
                 if n > |s| then t == Tail(p, [], Cut(!st.fragmented), []) && s[k..] == []
                 else if st.fragmented then t == Prepend(p, [], MessageTail(st, replies, s[k..]))
                 else t == Tail(p, [], Done, s[k..]))
  {
    hide MessageTail;
    CurrentTailAfter(st, replies, p, n, s, k);
    assert p + [] == p;
    assert [] + p == p;
    var none: seq<Control> := [];
    assert none + none == none;
  }

  lemma RejectedInput(d: Dfa, c: seq<byte>, after: Dfa, n: nat, complete: bool)
    requires IsState(d.state) && Utf8.Run(d, c).state == REJECT && n == LastAccept(d, c)
    ensures Tracks(true, d, c, InvalidUTF8, after, n) && Invalid(d, c, complete, n)
  {}

  lemma AllTaken(left: seq<byte>, c: seq<byte>)
    requires |c| <= |left| && c == left[..|c|] && left[|c|..] == []
    ensures c == left
  {}

  /** What all the input c that was passed on says, for each way in which the Read may end. */
  lemma {:induction false} PassedInput(checking: bool, d: Dfa, c: seq<byte>, after: Dfa, err: Error, now: Dfa, n: nat)
    requires IsState(d.state) && (!checking ==> after == d)
    requires checking ==> after == Utf8.Run(d, c) && (after.state == REJECT ==> c == [])
    requires if err == InvalidUTF8 then checking && after.state != ACCEPT && n == LastAccept(d, c)
             else n == |c| && (err == Nil ==> now == after) && (err == EOF && checking ==> after.state == ACCEPT)
    ensures Tracks(checking, d, c, err, now, n)
    ensures err == InvalidUTF8 ==> Invalid(d, c, true, n)
  {
    hide LastAccept, Utf8.Run, Decode;
  }

  lemma {:induction false} SkippedNothing(s: Skipped)
    ensures AfterControls([], s) == s
  {
    assert [] + s.controls == s.controls;
  }

  lemma BetweenFrames(st: State, replies: bool, s: seq<byte>)
    ensures SkipFrom(st, replies, s) == if st.fragmented then Discarded(MessageTail(st, replies, s)) else Skipped([], Nil, s)
  {}

  lemma LogGrows(was: seq<Control>, log: seq<Control>, c: Control)
    requires was <= log
    ensures was <= log + [c] && (log + [c])[|was|..] == log[|was|..] + [c]
  {}

  /** What is left to skip, and what has been, after one more frame. */
  lemma {:induction false} SkipStep(st: State, replies: bool, s: seq<byte>, cs: seq<Control>, total: Skipped)
    requires st.fragmented && AfterControls(cs, SkipFrom(st, replies, s)) == total
    ensures var n := NextHeader(st, s);
            if n.err != Nil then Skipped(cs, n.err, n.rest) == total
            else
              0 <= n.header.length &&
              var c, after := Control(n.header, PayloadIn(n.header, n.rest)), AfterPayload(n.header, n.rest);
              && |after| < |s|
              && if !IsControl(n.header.op) then
                   AfterControls(cs, SkipFrom(st.(fragmented := !n.header.fin), replies, after)) == total
                 else if HandlerError(replies, c) != Nil then Skipped(cs + [c], HandlerError(replies, c), after) == total
                 else AfterControls(cs + [c], SkipFrom(st, replies, after)) == total
  {
    hide NextHeader, SkipFrom, HandlerError, PayloadIn;
    var n := NextHeader(st, s);
    SkipNext(st, replies, s);
    ControlIsChecked(st, s);
    if n.err == Nil {
      AfterIsShorter(n.header, n.rest);
      var c, r := Control(n.header, PayloadIn(n.header, n.rest)), SkipFrom(st, replies, AfterPayload(n.header, n.rest));
      Associative(cs, [c], r.controls);
    } else {
      assert cs + [] == cs;
    }
  }

  /** What a checked control header is like, and that only continuations pass inside a message. */
  lemma {:induction false} ControlIsChecked(st: State, s: seq<byte>)
    ensures var n := NextHeader(st, s);
            n.err == Nil ==>
              && 0 <= n.header.length
              && (IsControl(n.header.op) ==>
                    8 <= n.header.op <= 10 && n.header.fin && n.header.length <= MAX_CONTROL_PAYLOAD)
              && (st.fragmented && !IsControl(n.header.op) ==> n.header.op == OP_CONTINUATION)
  {
    hide ReadHeaderFrom;
  }

  /** The error of the handler for a control frame outside of messages, read through the Reader itself. */
  function OwnError(c: Control): Error
  {
    if |c.payload| < c.header.length then UnexpectedEOF else HandlerError(true, c)
  }

  lemma {:induction false} WholeIsAnswered(c: Control)
    ensures OwnError(c) == UnexpectedEOF <==> |c.payload| < c.header.length
  {
    hide EncodeFrame, ParseCloseFrameData, ProtocolErrorFrame, ReplyFrame, Utf8.WellFormed;
  }

  /** All but the fragment bit of a state. */
  predicate SameSide(a: State, b: State)
  {
    a.server == b.server && a.client == b.client && a.extended == b.extended
  }

  lemma ReadToItsEnd(src: Src)
    requires src.input.Left() == []
    ensures src.Beyond() == src.input.Limit().R.data
    ensures src.input.Limit().N == 0 || src.input.Limit().R.data == []
  {}

  lemma OnlyRepliesFail(c: Control)
    ensures HandlerError(false, c) == Nil
  {}

  lemma LoggedMessage(log: seq<Control>, c: Control)
    ensures AsMessages(log + [c]) == AsMessages(log) + [Message(c.header.op, c.payload)]
  {}

  lemma {:induction false} LoggedAnswer(client: bool, masks: Sending.Masks, log: seq<Control>, c: Control)
    ensures Answers(client, masks, log + [c]) == Answers(client, masks, log) + AnswerTo(client, masks(|log|), c).bytes
  {
    hide AnswerTo;
    assert (log + [c])[..|log|] == log;
  }

  /** io.ReadAll of a frame */
  method ReadPayload(input: Input) returns (payload: seq<byte>)
    modifies input.Objects()
    ensures payload == old(input.Left()) && input.Left() == []
    ensures Src(input, false).Beyond() == old(Src(input, false).Beyond())
  {
    hide Src.Beyond, Input.Left;
    payload := [];
    var err := Nil;
    while err == Nil
      invariant payload + input.Left() == old(input.Left())
      invariant Src(input, false).Beyond() == old(Src(input, false).Beyond())
      invariant err != Nil ==> input.Left() == []
      decreases |input.Left()|, if err == Nil then 1 else 0
    {
      var buf := SomeBuffer();
      var n;
      n, err := Src(input, false).Read(buf, 0, buf.Length);
      payload := payload + buf[0..n];
    }
  }

  // Control frames.

  /**
   * Where a control handler reads a payload from: a frame, or a Reader that is at a control frame of its own.
   * The Reader delivers what its frame delivers, but reports a payload that the stream cuts short.
   */
  datatype Src = Src(input: Input, viaReader: bool)
  {
    /** The stream ends inside the payload. */
    ghost predicate Cut()
      reads input.Objects()
    {
      input.Limit().N > |input.Limit().R.data|
    }

    /** The stream after the payload. */
    ghost function Beyond(): seq<byte>
      reads input.Objects()
    {
      input.Limit().R.data[|input.Left()|..]
    }

    /** The error at the end of the payload. */
    ghost function AtEnd(): Error
      reads input.Objects()
    {
      if viaReader && Cut() then UnexpectedEOF else EOF
    }

    method Read(p: array<byte>, lo: nat, hi: nat) returns (n: nat, err: Error)
      requires lo < hi <= p.Length
      modifies input.Objects(), p
      ensures n <= hi - lo && n <= |old(input.Left())|
      ensures p[lo..lo + n] == old(input.Left())[..n] && input.Left() == old(input.Left())[n..]
      ensures forall k :: 0 <= k < p.Length && !(lo <= k < hi) ==> p[k] == old(p[k])
      ensures Beyond() == old(Beyond()) && AtEnd() == old(AtEnd()) && Cut() == old(Cut())
      ensures err == Nil ==> n > 0
      ensures err != Nil ==> err == old(AtEnd()) && input.Left() == []
    {
      hide Input.Left, Masked, Beyond, AtEnd, Cut;
      ghost var left, data, size := input.Left(), input.Limit().R.data, input.Limit().N;
      HasRead(left, data, size, 0);
      n, err := input.Read(p, lo, hi);
      HasRead(left, data, size, n);
      if err == EOF && viaReader && input.Limit().N != 0 {
        err := UnexpectedEOF;
      }
    }

    /** What holds before and after n bytes of the payload left have been read. */
    lemma {:induction false} HasRead(left: seq<byte>, data: seq<byte>, size: nat, n: nat)
      requires n <= |left| && n <= |data| && n <= size
      requires input.Left() == left[n..] && input.Limit().R.data == data[n..] && input.Limit().N == size - n
      ensures |left| <= |data| && Beyond() == data[|left|..] && (Cut() <==> size > |data|)
      ensures AtEnd() == if viaReader && size > |data| then UnexpectedEOF else EOF
      ensures n == |left| ==> (size > |data| <==> input.Limit().N != 0)
    {
      assert data[n..][|left| - n..] == data[|left|..];
    }
  }

  /** io.ReadFull */
  method ReadFullFrom(src: Src, p: array<byte>, lo: nat, hi: nat) returns (n: nat, err: Error)
    requires lo < hi <= p.Length && |src.input.Left()| <= hi - lo
    modifies src.input.Objects(), p
    ensures src.input.Left() == [] && src.Beyond() == old(src.Beyond())
    ensures n == |old(src.input.Left())| && p[lo..lo + n] == old(src.input.Left())
    ensures err == if n == hi - lo then Nil else if n == 0 then old(src.AtEnd()) else UnexpectedEOF
  {
    hide *;
    ghost var all := src.input.Left();
    n, err := 0, Nil;
    while n < hi - lo && err == Nil
      invariant n <= |all| && src.Beyond() == old(src.Beyond()) && src.AtEnd() == old(src.AtEnd())
      invariant p[lo..lo + n] == all[..n] && src.input.Left() == all[n..]
      invariant err == Nil || (n == |all| && err == old(src.AtEnd()))
      decreases |all| - n, if err == Nil then 1 else 0
    {
      ghost var before := p[lo..lo + n];
      var nn;
      nn, err := src.Read(p, lo + n, hi);
      assert p[lo..lo + n] == before;
      TwoSlices(p, lo, lo + n, lo + n + nn);
      Taken(all, n, nn);
      n := n + nn;
    }
    EndErrors(src);
    if n >= hi - lo {
      err := Nil;
    } else if n > 0 && err == EOF {
      err := UnexpectedEOF;
    }
  }

  lemma EndErrors(src: Src)
    ensures src.AtEnd() == EOF || src.AtEnd() == UnexpectedEOF
  {}

  /** A buffer of any size, as a caller may offer for reading. */
  method SomeBuffer() returns (buf: array<byte>)
    ensures fresh(buf) && 0 < buf.Length <= MAX_LEN
  {
    var size: nat := *;
    buf := new byte[if 0 < size <= MAX_LEN then size else 512];
  }

  /** io.Copy to io.Discard: drains src. */
  method Drain(src: Src) returns (err: Error)
    modifies src.input.Objects()
    ensures src.input.Left() == [] && src.Beyond() == old(src.Beyond())
    ensures err == if old(src.AtEnd()) == EOF then Nil else UnexpectedEOF
  {
    hide Src.Beyond, Src.AtEnd, Input.Left;
    err := Nil;
    while err == Nil
      invariant src.Beyond() == old(src.Beyond()) && src.AtEnd() == old(src.AtEnd())
      invariant err == Nil || (src.input.Left() == [] && err == old(src.AtEnd()))
      decreases |src.input.Left()|, if err == Nil then 1 else 0
    {
      var buf := SomeBuffer();
      var n;
      n, err := src.Read(buf, 0, buf.Length);
    }
    EndErrors(src);
    if err == EOF {
      err := Nil;
    }
  }

  /** What bytes that fit make of a Writer: they are buffered. */
  function Buffered(w: Sending.Outgoing, p: seq<byte>): Sending.Outgoing
  {
    if p == [] then w else w.(buf := w.buf + p, dirty := true)
  }

  lemma {:induction false} BufferedTwice(w: Sending.Outgoing, p: seq<byte>, q: seq<byte>)
    ensures Buffered(Buffered(w, p), q) == Buffered(w, p + q)
  {
    assert (w.buf + p) + q == w.buf + (p + q);
    assert p + [] == p && [] + q == q;
  }

  /** A ControlWriter that works, and has room for k more bytes. */
  ghost predicate Room(cw: ControlWriter, k: nat)
    reads cw.w, cw.w.raw, cw.w.dest
  {
    cw.w.Valid() && !cw.w.noFlush && cw.w.err == Nil && cw.w.dest.reliable && k <= cw.limit && k <= cw.w.Free()
  }

  /** Bytes that fit are only buffered; k more bytes still fit after them. */
  method BufferInto(cw: ControlWriter, p: array<byte>, n: nat, ghost k: nat)
    requires 0 < n <= p.Length <= MAX_LEN && p != cw.w.raw && Room(cw, n + k)
    modifies cw.w, cw.w.raw, cw.w.dest`out
    ensures Room(cw, k) && cw.w.raw == old(cw.w.raw) && cw.w.dest.out == old(cw.w.dest.out)
    ensures cw.w.ideal == Buffered(old(cw.w.ideal), old(p[0..n]))
  {
    hide Writer.Valid, Writer.Now, Writer.Layout;
    var m, e := cw.Write(p, 0, n);
  }

  /** One round of CopyToWriter; c is what it has copied. */
  method CopySome(cw: ControlWriter, src: Src) returns (err: Error, ghost c: seq<byte>)
    requires Room(cw, |src.input.Left()|)
    modifies src.input.Objects(), cw.w, cw.w.raw, cw.w.dest`out
    ensures src.Beyond() == old(src.Beyond()) && src.AtEnd() == old(src.AtEnd())
    ensures old(src.input.Left()) == c + src.input.Left() && Room(cw, |src.input.Left()|)
    ensures if err == Nil then c != [] else err == old(src.AtEnd()) && src.input.Left() == []
    ensures cw.w.raw == old(cw.w.raw) && cw.w.dest.out == old(cw.w.dest.out)
    ensures cw.w.ideal == Buffered(old(cw.w.ideal), c)
  {
    hide Src.Beyond, Src.AtEnd, Input.Left, Room, Buffered;
    NothingBuffered(cw.w.ideal);
    ghost var all := src.input.Left();
    var buf := SomeBuffer();
    assert buf != cw.w.raw;
    var n;
    n, err := src.Read(buf, 0, buf.Length);
    c := buf[0..n];
    assert all == c + src.input.Left();
    if n > 0 {
      BufferInto(cw, buf, n, |src.input.Left()|);
    }
  }

  /** io.Copy to a ControlWriter that has room for all of src. */
  method CopyToWriter(cw: ControlWriter, src: Src) returns (err: Error)
    requires Room(cw, |src.input.Left()|)
    modifies src.input.Objects(), cw.w, cw.w.raw, cw.w.dest`out
    ensures src.input.Left() == [] && src.Beyond() == old(src.Beyond())
    ensures err == if old(src.AtEnd()) == EOF then Nil else UnexpectedEOF
    ensures Room(cw, 0) && cw.w.raw == old(cw.w.raw) && cw.w.dest.out == old(cw.w.dest.out)
    ensures cw.w.ideal == Buffered(old(cw.w.ideal), old(src.input.Left()))
  {
    hide Src.Beyond, Src.AtEnd, Input.Left, Room, Buffered;
    err := Nil;
    ghost var got: seq<byte> := [];
    NothingBuffered(cw.w.ideal);
    while err == Nil
      invariant src.Beyond() == old(src.Beyond()) && src.AtEnd() == old(src.AtEnd())
      invariant err == Nil || (src.input.Left() == [] && err == old(src.AtEnd()))
      invariant Room(cw, |src.input.Left()|)
      invariant cw.w.raw == old(cw.w.raw) && cw.w.dest.out == old(cw.w.dest.out)
      invariant got + src.input.Left() == old(src.input.Left()) && cw.w.ideal == Buffered(old(cw.w.ideal), got)
      decreases |src.input.Left()|, if err == Nil then 1 else 0
    {
      ghost var c;
      err, c := CopySome(cw, src);
      BufferedTwice(old(cw.w.ideal), got, c);
      got := got + c;
    }
    assert got == old(src.input.Left());
    EndErrors(src);
    if err == EOF {
      err := Nil;
    }
  }

  lemma NothingBuffered(w: Sending.Outgoing)
    ensures Buffered(w, []) == w
  {}

  /** Flushing a Writer that has only buffered p sends p as one final frame, or nothing if nothing was written. */
  lemma {:induction false} FlushedReply(op: OpCode, client: bool, raw: nat, masks: Sending.Masks, p: seq<byte>)
    ensures var w := Sending.Flush(Buffered(Sending.Fresh(op, client, false, raw), p), masks);
            EncodeFrames(w.frames) == if p == [] then [] else EncodeFrame(ReplyFrame(client, op, masks(0), p))
  {
    hide NewFrame, EncodeFrame;
    var w := Sending.Fresh(op, client, false, raw);
    assert w.buf + p == p;
    if p != [] {
      var f := ReplyFrame(client, op, masks(0), p);
      assert Sending.Flush(Buffered(w, p), masks).frames == [f];
      assert EncodeFrames([f]) == EncodeFrame(f) + [] == EncodeFrame(f);
    }
  }

  /** The control header is checked, and src is at the start of its payload. */
  ghost predicate AtControl(h: Header, src: Src)
    reads src.input.Objects()
  {
    0 <= h.length <= MAX_CONTROL_PAYLOAD && src.input.Limit().N == h.length
  }

  lemma AtControlLeft(h: Header, src: Src)
    requires AtControl(h, src)
    ensures |src.input.Left()| <= h.length
    ensures src.Cut() <==> |src.input.Left()| < h.length
  {}

  /** An empty reply is just its header, with a zero mask in client state. */
  lemma {:induction false} EmptyReply(client: bool, op: OpCode)
    ensures EncodeFrame(ReplyFrame(client, op, ZERO_MASK, []))
         == EncodeHeader(Header(true, 0, op, client, ZERO_MASK, 0))
  {
    hide EncodeHeader;
    var f := ReplyFrame(client, op, ZERO_MASK, []);
    assert f.payload == [];
    assert EncodeHeader(f.header) + [] == EncodeHeader(f.header);
  }

  /** The buffer for a reply: room for the header in front of exactly the payload of the request. */
  lemma ReplyBufferFits(client: bool, length: nat)
    requires 0 < length <= MAX_CONTROL_PAYLOAD
    ensures var size := length + Sending.HeaderSizeFor(client, length);
            && size - Sending.Reserve(client, size) == length
            && size <= MAX_CONTROL_PAYLOAD + Sending.HeaderSizeFor(client, MAX_CONTROL_PAYLOAD)
  {}

  /** A ControlWriter over p, with room for exactly length bytes. */
  method OpenReply(dst: Sink, state: State, op: OpCode, mask: Mask, p: array<byte>, ghost length: nat)
    returns (cw: ControlWriter)
    requires 0 < length <= MAX_CONTROL_PAYLOAD && p.Length == length + Sending.HeaderSizeFor(state.client, length)
    requires dst.reliable
    ensures fresh(cw) && fresh(cw.w) && cw.w.raw == p && cw.w.dest == dst && cw.w.base == dst.out
    ensures Room(cw, length) && cw.w.offset >= 2
    ensures cw.w.masks(0) == mask && cw.w.ideal == Sending.Fresh(op, state.client, false, p.Length)
  {
    hide OnTheWire;
    ReplyBufferFits(state.client, length);
    cw := NewControlWriterBuffer(dst, state, op, p, _ => mask);
  }

  /** Flushes a reply that has been buffered. */
  method SendReply(cw: ControlWriter, op: OpCode, client: bool, mask: Mask, ghost payload: seq<byte>)
    returns (err: Error)
    requires Room(cw, 0) && cw.w.masks(0) == mask && cw.w.dest.out == cw.w.base
    requires cw.w.ideal == Buffered(Sending.Fresh(op, client, false, cw.w.raw.Length), payload)
    modifies cw.w, cw.w.raw, cw.w.dest`out
    ensures err == Nil
    ensures cw.w.dest.out == old(cw.w.dest.out)
                             + if payload == [] then [] else EncodeFrame(ReplyFrame(client, op, mask, payload))
  {
    hide EncodeFrame, EncodeFrames, ReplyFrame, Buffered, Sending.Flush, Writer.Now;
    FlushedReply(op, client, cw.w.raw.Length, cw.w.masks, payload);
    err := cw.Flush();
  }

  /** The answer to a ping. */
  function Pong(client: bool, mask: Mask, p: seq<byte>): seq<byte>
  {
    if p == [] then [] else EncodeFrame(ReplyFrame(client, OP_PONG, mask, p))
  }

  /** HandlePing for a ping with a payload: copies it into the buffer of a ControlWriter and flushes that. */
  method EchoPing(dst: Sink, state: State, mask: Mask, length: nat, src: Src) returns (err: Error)
    requires 0 < length <= MAX_CONTROL_PAYLOAD && |src.input.Left()| <= length && dst.reliable
    modifies src.input.Objects(), dst`out
    ensures src.input.Left() == [] && src.Beyond() == old(src.Beyond())
    ensures if old(src.AtEnd()) != EOF then err == UnexpectedEOF && dst.out == old(dst.out)
            else err == Nil && dst.out == old(dst.out) + Pong(state.client, mask, old(src.input.Left()))
  {
    hide EncodeFrame, ReplyFrame, Src.Beyond, Src.AtEnd, Input.Left, Room, Buffered, Writer.Valid;
    hide Sending.HeaderSizeFor;
    ReplyBufferFits(state.client, length);
    var p := new byte[length + Sending.HeaderSizeFor(state.client, length)];
    ghost var payload := src.input.Left();
    var w := OpenReply(dst, state, OP_PONG, mask, p, length);
    LessRoom(w, length, |payload|);
    err := CopyToWriter(w, src);
    if err == Nil {
      err := SendReply(w, OP_PONG, state.client, mask, payload);
    }
  }

  method HandlePing(dst: Sink, state: State, mask: Mask, h: Header, src: Src) returns (err: Error)
    requires AtControl(h, src) && dst.reliable && h.op == OP_PING
    modifies src.input.Objects(), dst`out
    ensures src.input.Left() == []
    ensures src.Beyond() == old(src.Beyond())
    ensures var a := AnswerTo(state.client, mask, Control(h, old(src.input.Left())));
            if h.length > 0 && old(src.AtEnd()) != EOF then err == UnexpectedEOF && dst.out == old(dst.out)
            else err == a.err && dst.out == old(dst.out) + a.bytes
  {
    hide EncodeFrame, EncodeHeader, ReplyFrame, Src.Beyond, Src.AtEnd, Input.Left;
    AtControlLeft(h, src);
    if h.length == 0 {
      EmptyReply(state.client, OP_PONG);
      err := WriteHeader(dst, Header(true, 0, OP_PONG, state.client, ZERO_MASK, 0));
      return;
    }
    err := EchoPing(dst, state, mask, h.length, src);
  }

  lemma LessRoom(cw: ControlWriter, k: nat, m: nat)
    requires Room(cw, k) && m <= k
    ensures Room(cw, m)
  {}

  method HandlePong(h: Header, src: Src) returns (err: Error)
    requires AtControl(h, src)
    modifies src.input.Objects()
    ensures src.input.Left() == []
    ensures src.Beyond() == old(src.Beyond())
    ensures err == if h.length > 0 && old(src.AtEnd()) != EOF then UnexpectedEOF else Nil
  {
    hide Src.Beyond, Src.AtEnd, Input.Left;
    AtControlLeft(h, src);
    if h.length == 0 {
      return Nil;
    }
    err := Drain(src);
  }

  /** closeWithProtocolError: in client state the masked frame's header is dropped, the masked payload is not. */
  method CloseWithProtocolError(dst: Sink, client: bool, mask: Mask, e: Error) returns (err: Error)
    requires dst.reliable
    modifies dst`out
    ensures err == Nil && dst.out == old(dst.out) + EncodeFrame(ProtocolErrorFrame(client, mask, e))
  {
    hide EncodeFrame, CloseBody, ErrorText;
    var body := CloseBody(STATUS_PROTOCOL_ERROR, ErrorText(e));
    var p := new byte[|body|](i requires 0 <= i < |body| => body[i]);
    assert p[0..p.Length] == body;
    if client {
      Cipher(p, 0, p.Length, mask, 0);
    }
    assert p[..] == p[0..p.Length];
    err := WriteFrame(dst, Frame(DataHeader(true, OP_CLOSE, None, |body|), p[..]));
  }

  /** The end of HandleClose: echoes the code p[..2] from the buffer p that the request was read into. */
  method EchoClose(dst: Sink, state: State, mask: Mask, p: array<byte>, length: nat) returns (err: Error)
    requires 2 <= length <= MAX_CONTROL_PAYLOAD && p.Length == length + Sending.HeaderSizeFor(state.client, length)
    requires dst.reliable
    modifies p, dst`out
    ensures err == Nil
    ensures dst.out == old(dst.out) + EncodeFrame(ReplyFrame(state.client, OP_CLOSE, mask, old(p[..2])))
  {
    ReplyBufferFits(state.client, length);
    hide EncodeFrame, ReplyFrame, Writer.Valid, Sending.HeaderSizeFor;
    ghost var code := p[0..2];
    assert code == p[..2];
    var w := OpenReply(dst, state, OP_CLOSE, mask, p, length);
    EchoInto(w);
    err := SendReply(w, OP_CLOSE, state.client, mask, code);
  }

  /** Buffers the first two bytes of the Writer's own buffer, which are part of its header gap. */
  method EchoInto(cw: ControlWriter)
    requires Room(cw, 2) && cw.w.offset >= 2
    modifies cw.w, cw.w.raw, cw.w.dest`out
    ensures Room(cw, 0) && cw.w.raw == old(cw.w.raw) && cw.w.dest.out == old(cw.w.dest.out)
    ensures cw.w.ideal == Buffered(old(cw.w.ideal), old(cw.w.raw[0..2]))
  {
    hide Writer.Now, OnTheWire;
    var m, e := cw.Write(cw.w.raw, 0, 2);
  }

  method HandleClose(dst: Sink, state: State, mask: Mask, h: Header, src: Src) returns (err: Error)
    requires AtControl(h, src) && dst.reliable && h.op == OP_CLOSE
    modifies src.input.Objects(), dst`out
    ensures src.input.Left() == []
    ensures src.Beyond() == old(src.Beyond())
    ensures var a := AnswerTo(state.client, mask, Control(h, old(src.input.Left())));
            if h.length > 0 && old(src.AtEnd()) != EOF then err == UnexpectedEOF && dst.out == old(dst.out)
            else err == a.err && dst.out == old(dst.out) + a.bytes
  {
    hide EncodeFrame, EncodeHeader, ReplyFrame, ProtocolErrorFrame, Src.Beyond, Input.Left;
    hide ParseCloseFrameData, CheckCloseFrameData, CloseBody, Sending.HeaderSizeFor;
    AtControlLeft(h, src);
    if h.length == 0 {
      EmptyReply(state.client, OP_CLOSE);
      err := WriteHeader(dst, Header(true, 0, OP_CLOSE, state.client, ZERO_MASK, 0));
      return if err != Nil then err else Closed(STATUS_NO_STATUS_RCVD, []);
    }
    ReplyBufferFits(state.client, h.length);
    var p := new byte[h.length + Sending.HeaderSizeFor(state.client, h.length)];
    ghost var payload := src.input.Left();
    var n;
    n, err := ReadFullFrom(src, p, 0, h.length);
    if err != Nil {
      return;
    }
    assert p[..h.length] == p[0..h.length] == payload;
    err := AnswerClose(dst, state, mask, h, p);
  }

  /** The part of HandleClose that answers the request in p. */
  method AnswerClose(dst: Sink, state: State, mask: Mask, h: Header, p: array<byte>) returns (err: Error)
    requires 0 < h.length <= MAX_CONTROL_PAYLOAD && h.op == OP_CLOSE && dst.reliable
    requires p.Length == h.length + Sending.HeaderSizeFor(state.client, h.length) && h.length <= p.Length
    modifies p, dst`out
    ensures var a := AnswerTo(state.client, mask, Control(h, old(p[..h.length])));
            err == a.err && dst.out == old(dst.out) + a.bytes
  {
    hide EncodeFrame, ReplyFrame, ProtocolErrorFrame, ParseCloseFrameData, CheckCloseFrameData, Sending.HeaderSizeFor;
    var subp := p[..h.length];
    var (code, reason) := ParseCloseFrameData(subp);
    var e := CheckCloseFrameData(code, reason);
    if e != Nil {
      var _ := CloseWithProtocolError(dst, state.client, mask, e);
      return e;
    }
    ValidBodyHasCode(subp);
    assert p[..2] == subp[..2];
    err := EchoClose(dst, state, mask, p, h.length);
    if err == Nil {
      err := Closed(code, reason);
    }
  }

  lemma ValidBodyHasCode(p: seq<byte>)
    requires var (code, reason) := ParseCloseFrameData(p); CheckCloseFrameData(code, reason) == Nil
    ensures |p| >= 2
  {}

  /** ControlHandler.Handle on a source that is already unmasked (DisableSrcCiphering). */
  method Handle(dst: Sink, state: State, mask: Mask, h: Header, src: Src) returns (err: Error)
    requires AtControl(h, src) && dst.reliable
    modifies src.input.Objects(), dst`out
    ensures 8 <= h.op <= 10 ==> src.input.Left() == []
    ensures src.Beyond() == old(src.Beyond())
    ensures var a := AnswerTo(state.client, mask, Control(h, old(src.input.Left())));
            if h.length > 0 && 8 <= h.op <= 10 && old(src.AtEnd()) != EOF then
              err == UnexpectedEOF && dst.out == old(dst.out)
            else err == a.err && dst.out == old(dst.out) + a.bytes
  {
    hide EncodeFrame, ReplyFrame, ProtocolErrorFrame, Src.Beyond, Src.AtEnd, Input.Left, ParseCloseFrameData;
    if h.op == OP_PING {
      err := HandlePing(dst, state, mask, h, src);
    } else if h.op == OP_PONG {
      err := HandlePong(h, src);
    } else if h.op == OP_CLOSE {
      err := HandleClose(dst, state, mask, h, src);
    } else {
      err := NotControlFrame;
    }
  }

  /**
   * ControlHandler.Handle on the bytes of the wire: in server state it unmasks them itself.
   */
  method HandleMasked(dst: Sink, state: State, mask: Mask, h: Header, l: LimitedReader) returns (err: Error)
    requires AtControl(h, Src(Plain(l), false)) && dst.reliable
    modifies l, l.R, dst`out
    ensures var p := old(l.Left());
            var a := AnswerTo(state.client, mask, Control(h, if state.server then Masked(p, h.mask, 0) else p));
            err == a.err && dst.out == old(dst.out) + a.bytes
    ensures 8 <= h.op <= 10 ==> l.R.data == old(l.R.data)[|old(l.Left())|..]
  {
    hide AnswerTo, Masked;
    if state.server {
      var c := new CipherReader(l, h.mask);
      err := Handle(dst, state, mask, h, Src(Unmasking(c), false));
    } else {
      err := Handle(dst, state, mask, h, Src(Plain(l), false));
    }
  }

  lemma AfterIsShorter(h: Header, s: seq<byte>)
    requires 0 <= h.length
    ensures |AfterPayload(h, s)| <= |s|
  {}
}
