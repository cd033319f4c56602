/** Frames octet by octet (sections 5.2, 5.5 and 5.7 of RFC 6455), and what the two sides make of them. */
module Octets {
  import opened Bytes
  import Bits
  import opened Masking
  import opened Frame
  import Check
  import opened Closing
  import opened Codec
  import opened Stream
  import opened Wire
  import Utf8
  import opened Messages
  import Sending
  import opened Receiving
  import opened Reading
  import opened Helper
  import opened Answering
  import opened EndToEnd

  /** The octets of a final frame of at most 125 bytes of payload, sent by a client or by a server. */
  function Sent(first: byte, byClient: bool, key: Mask, p: seq<byte>): seq<byte>
    requires |p| <= 125
  {
    if byClient then [first, 128 + |p|] + key + Masked(p, key, 0) else [first, |p|] + p
  }

  function ShortFrame(op: OpCode, byClient: bool, key: Mask, p: seq<byte>): Frame
  {
    NewFrame(true, op, if byClient then Some(key) else None, p)
  }

  lemma {:induction false} ShortOctets(op: OpCode, byClient: bool, key: Mask, p: seq<byte>)
    requires op < 16 && |p| <= 125
    ensures var f := ShortFrame(op, byClient, key, p);
            && EncodeFrame(f) == Sent(128 + op, byClient, key, p) && Intact(f) && Unmasked(f) == p
  {
    hide Masked, EncodeHeader;
    var f := ShortFrame(op, byClient, key, p);
    UnmaskedNewFrame(true, op, if byClient then Some(key) else None, p);
    EncodedLayout(f.header);
    var e := EncodeHeader(f.header);
    if byClient {
      assert e == [128 + op, 128 + |p|] + key;
    } else {
      assert e == [128 + op, |p|];
    }
  }

  /** Reads a header and hands it to a ControlHandler, as its documentation proposes. */
  method HandleNext(src: Source, dst: Sink, client: bool, mask: Mask, ghost op: OpCode, ghost key: Mask,
                    ghost p: seq<byte>, ghost s: seq<byte>) returns (err: Error)
    requires dst.reliable && 8 <= op <= 10 && |p| <= 125
    requires src.data == Sent(128 + op, !client, key, p) + s
    modifies src, dst
    ensures var a := AnswerTo(client, mask, Control(ShortFrame(op, !client, key, p).header, p));
            err == a.err && dst.out == old(dst.out) + a.bytes && src.data == s
  {
    hide EncodeHeader, Masked, AnswerTo, ReadHeaderFrom;
    ghost var f := ShortFrame(op, !client, key, p);
    ghost var header, payload := EncodeHeader(f.header), f.payload;
    ShortOctets(op, !client, key, p);
    HeaderRoundTrip(f.header, payload + s);
    Associative(header, payload, s);
    SplitsHere(header, payload + s);
    SplitsHere(payload, s);
    var h, e := ReadHeader(src);
    var l := new LimitedReader(src, h.length);
    err := HandleMasked(dst, State(!client, client, false, false), mask, h, l);
  }

  /** 0x89, a ping, is answered with 0x8a and the same payload; by a client with a mask of its own. */
  method PingIsAnswered(src: Source, dst: Sink, client: bool, mask: Mask, ghost key: Mask, ghost p: seq<byte>,
                        ghost s: seq<byte>) returns (err: Error)
    requires dst.reliable && |p| <= 125
    requires src.data == (if client then [0x89, |p|] + p else [0x89, 128 + |p|] + key + Masked(p, key, 0)) + s
    modifies src, dst
    ensures err == Nil && src.data == s
    ensures dst.out == old(dst.out) + if !client then [0x8a, |p|] + p
                                      else if p == [] then [0x8a, 128, 0, 0, 0, 0]
                                      else [0x8a, 128 + |p|] + mask + Masked(p, mask, 0)
  {
    hide EncodeFrame, Masked, AnswerTo, EncodeHeader;
    PingAnswer(client, mask, key, p);
    err := HandleNext(src, dst, client, mask, 9, key, p, s);
  }

  lemma {:induction false} PingAnswer(client: bool, mask: Mask, key: Mask, p: seq<byte>)
    requires |p| <= 125
    ensures AnswerTo(client, mask, Control(ShortFrame(9, !client, key, p).header, p))
         == Answer(Sent(0x8a, client, if p == [] then ZERO_MASK else mask, p), Nil)
    ensures Sent(0x8a, true, ZERO_MASK, []) == [0x8a, 128, 0, 0, 0, 0]
  {
    hide EncodeFrame, Masked, EncodeHeader, ReplyFrame;
    ReplyOctets(10, client, if p == [] then ZERO_MASK else mask, p);
    assert Masked([], ZERO_MASK, 0) == [];
  }

  lemma {:induction false} ReplyOctets(op: OpCode, client: bool, mask: Mask, p: seq<byte>)
    requires op < 16 && |p| <= 125
    ensures EncodeFrame(ReplyFrame(client, op, mask, p)) == Sent(128 + op, client, mask, p)
  {
    hide EncodeFrame, Masked;
    ShortOctets(op, client, mask, p);
  }

  /** 0x8a, a pong, gets nothing. */
  method PongIsTaken(src: Source, dst: Sink, client: bool, mask: Mask, ghost key: Mask, ghost p: seq<byte>,
                     ghost s: seq<byte>) returns (err: Error)
    requires dst.reliable && |p| <= 125
    requires src.data == (if client then [0x8a, |p|] + p else [0x8a, 128 + |p|] + key + Masked(p, key, 0)) + s
    modifies src, dst
    ensures err == Nil && src.data == s && dst.out == old(dst.out)
  {
    hide EncodeFrame, Masked, AnswerTo, EncodeHeader;
    PongAnswer(client, mask, key, p);
    err := HandleNext(src, dst, client, mask, 10, key, p, s);
  }

  lemma PongAnswer(client: bool, mask: Mask, key: Mask, p: seq<byte>)
    ensures AnswerTo(client, mask, Control(ShortFrame(10, !client, key, p).header, p)) == Answer([], Nil)
  {}

  /**
   * 0x88, a close, is answered with 0x88 and the two bytes of its code, or nothing if it has none; a server answers
   * an unlawful one with code 1002, the bytes 3 and 234.
   */
  method CloseIsReturned(src: Source, dst: Sink, client: bool, mask: Mask, ghost key: Mask, ghost p: seq<byte>,
                         ghost s: seq<byte>) returns (err: Error, ghost reply: seq<byte>)
    requires dst.reliable && |p| <= 125
    requires src.data == (if client then [0x88, |p|] + p else [0x88, 128 + |p|] + key + Masked(p, key, 0)) + s
    modifies src, dst
    ensures err == CloseResult(p) && src.data == s && dst.out == old(dst.out) + reply
    ensures p == [] ==> err == Closed(1005, []) && reply == if client then [0x88, 128, 0, 0, 0, 0] else [0x88, 0]
    ensures p != [] && LawfulBody(p) ==>
      && err == Closed(256 * (p[0] as int) + p[1] as int, p[2..])
      && reply == if client then [0x88, 130] + mask + Masked(p[..2], mask, 0) else [0x88, 2] + p[..2]
    ensures !LawfulBody(p) ==> |reply| >= 4 && reply[0] == 0x88 && reply[1] == |reply| - 2 <= 125
    ensures !LawfulBody(p) && !client ==> reply[2..4] == [3, 234]
  {
    hide EncodeFrame, Masked, AnswerTo, EncodeHeader, LawfulBody, CloseResult;
    reply := CloseAnswer(client, mask, key, p);
    CloseResults(p);
    err := HandleNext(src, dst, client, mask, 8, key, p, s);
  }

  lemma CloseResults(p: seq<byte>)
    ensures p == [] ==> CloseResult(p) == Closed(1005, [])
    ensures p != [] && LawfulBody(p) ==> |p| >= 2 && CloseResult(p) == Closed(256 * (p[0] as int) + p[1] as int, p[2..])
  {}

  lemma {:induction false} CloseAnswer(client: bool, mask: Mask, key: Mask, p: seq<byte>) returns (reply: seq<byte>)
    requires |p| <= 125
    ensures var a := AnswerTo(client, mask, Control(ShortFrame(8, !client, key, p).header, p));
            a == Answer(reply, CloseResult(p))
    ensures p == [] ==> reply == if client then [0x88, 128, 0, 0, 0, 0] else [0x88, 0]
    ensures p != [] && LawfulBody(p) ==>
      |p| >= 2 && reply == if client then [0x88, 130] + mask + Masked(p[..2], mask, 0) else [0x88, 2] + p[..2]
    ensures !LawfulBody(p) ==> |reply| >= 4 && reply[0] == 0x88 && reply[1] == |reply| - 2 <= 125
    ensures !LawfulBody(p) && !client ==> reply[2..4] == [3, 234]
  {
    hide EncodeFrame, Masked, EncodeHeader, LawfulBody, CloseResult, AnswerTo, ReplyFrame;
    var c := Control(ShortFrame(8, !client, key, p).header, p);
    var f := CloseIsAnswered(client, mask, c);
    reply := EncodeFrame(f);
    EmptyIsLawful();
    if LawfulBody(p) {
      EchoAnswer(client, mask, c);
    } else {
      RefusalAnswer(client, mask, c);
    }
  }

  lemma {:induction false} EchoAnswer(client: bool, mask: Mask, c: Control)
    requires c.header.op == OP_CLOSE && Whole(c) && LawfulBody(c.payload)
    ensures c.payload == [] || |c.payload| >= 2
    ensures AnswerTo(client, mask, c).bytes ==
            if c.payload == [] then (if client then [0x88, 128, 0, 0, 0, 0] else [0x88, 0])
            else if client then [0x88, 130] + mask + Masked(c.payload[..2], mask, 0) else [0x88, 2] + c.payload[..2]
  {
    hide EncodeFrame, Masked, ReplyFrame, Utf8.WellFormed, Unsigned;
    BodyMeans(c.payload);
    if c.payload == [] {
      ReplyOctets(8, client, ZERO_MASK, []);
      assert Masked([], ZERO_MASK, 0) == [];
    } else {
      ReplyOctets(8, client, mask, c.payload[..2]);
    }
  }

  lemma {:induction false} RefusalAnswer(client: bool, mask: Mask, c: Control)
    requires c.header.op == OP_CLOSE && Whole(c) && !LawfulBody(c.payload)
    ensures var r := AnswerTo(client, mask, c).bytes;
            && |r| >= 4 && r[0] == 0x88 && r[1] == |r| - 2 <= 125 && (!client ==> r[2..4] == [3, 234])
  {
    hide EncodeFrame, Masked, EncodeHeader, LawfulBody, ErrorText, CloseBody, AnswerTo;
    BodyMeans(c.payload);
    EmptyIsLawful();
    UnlawfulCloseIsRefused(client, mask, c);
    var e := CloseResult(c.payload);
    var body := CloseBody(STATUS_PROTOCOL_ERROR, ErrorText(e));
    RefusalBody(e);
    var q := if client then Masked(body, mask, 0) else body;
    RefusalOctets(q);
    assert AnswerTo(client, mask, c).bytes == [0x88, |q|] + q;
  }

  lemma EmptyIsLawful()
    ensures LawfulBody([])
  {}

  lemma {:induction false} RefusalOctets(q: seq<byte>)
    requires |q| <= 125
    ensures EncodeFrame(Frame(DataHeader(true, OP_CLOSE, None, |q|), q)) == [0x88, |q|] + q
  {
    hide EncodeHeader;
    var h := DataHeader(true, OP_CLOSE, None, |q|);
    EncodedLayout(h);
    assert EncodeHeader(h) == [0x88, |q|];
  }

  /** 0x81 is a message of checked text, 0x82 one of any bytes. */
  method MessageIsDelivered(src: Source, client: bool, text: bool, ghost key: Mask, ghost p: seq<byte>,
                            ghost s: seq<byte>) returns (data: seq<byte>, op: OpCode, err: Error)
    requires |p| <= 125
    requires var first: byte := if text then 0x81 else 0x82;
             src.data == (if client then [first, |p|] + p else [first, 128 + |p|] + key + Masked(p, key, 0)) + s
    modifies src
    ensures op == if text then 1 else 2
    ensures if text && !Utf8.WellFormed(p) then err == InvalidUTF8 else err == Nil && data == p && src.data == s
  {
    hide EncodeFrame, Masked, EncodeHeader, NextHeader, NextMessage, Going, Utf8.WellFormed, Hopeless, Reader.Core;
    ghost var o: OpCode := if text then 1 else 2;
    ghost var f, st := ShortFrame(o, !client, key, p), State(!client, client, false, false);
    ShortOctets(o, !client, key, p);
    OneMessage(st, f, s);
    if Utf8.WellFormed(p) {
      WellFormedIsHopeful(p);
    }
    var rd := new Reader(src, State(!client, client, false, false), true, NoHandler, []);
    var h;
    h, err := StartMessage(rd);
    ghost var t, end := NextMessage(st, false, EncodeFrame(f) + s), Nil;
    data, err, end := ReadAll(rd, t, [], h.op == OP_TEXT);
    op := h.op;
  }

  lemma {:induction false} OneMessage(st: State, f: Frame, s: seq<byte>)
    requires !st.fragmented && !st.extended && Intact(f) && Check.Lawful(f.header, st)
    requires Check.MessageStart(f.header) && f.header.fin
    ensures var n := NextHeader(st, EncodeFrame(f) + s);
            && n.err == Nil && n.header == f.header
            && NextMessage(st, false, EncodeFrame(f) + s) == Tail(Unmasked(f), [], Done, s)
  {
    hide EncodeFrame, Unmasked, NextHeader, NextMessage;
    var fs := [f];
    assert EncodeFrames(fs) == EncodeFrame(f) + [] == EncodeFrame(f);
    assert Headers(fs) == [f.header] && Check.AllLawful([], st);
    assert [f.header][1..] == [];
    MessageArrives(st, false, fs, s);
    NoMoreFrames([]);
    assert fs[1..] == [];
    assert Data(fs) == Unmasked(f) + [] == Unmasked(f);
  }

  // The examples of section 5.7 of RFC 6455.

  const HELLO: seq<byte> := [0x48, 0x65, 0x6c, 0x6c, 0x6f]
  const KEY: Mask := [0x37, 0xfa, 0x21, 0x3d]

  /** The k low digits of c are those of the exclusive or of a and b, and there are no others. */
  predicate Matches(a: nat, b: nat, c: nat, k: nat)
  {
    if k == 0 then a == 0 && b == 0 && c == 0
    else c % 2 == (if a % 2 == b % 2 then 0 else 1) && Matches(a / 2, b / 2, c / 2, k - 1)
  }

  lemma {:induction false} XorMatches(a: nat, b: nat, c: nat, k: nat)
    requires Matches(a, b, c, k)
    ensures Bits.Xor(a, b) == c
    decreases k
  {
    Bits.XorHalf(a, b);
    if k > 0 {
      XorMatches(a / 2, b / 2, c / 2, k - 1);
    }
  }

  lemma {:induction false} MaskedHello()
    ensures Masked(HELLO, KEY, 0) == [0x7f, 0x9f, 0x4d, 0x51, 0x58]
  {
    hide Bits.Xor, Masked;
    XorMatches(0x48, 0x37, 0x7f, 8);
    XorMatches(0x65, 0xfa, 0x9f, 8);
    XorMatches(0x6c, 0x21, 0x4d, 8);
    XorMatches(0x6c, 0x3d, 0x51, 8);
    XorMatches(0x6f, 0x37, 0x58, 8);
    var r := Masked(HELLO, KEY, 0);
    assert r[0] == Bits.Xor(0x48, 0x37);
    assert r[1] == Bits.Xor(0x65, 0xfa);
    assert r[2] == Bits.Xor(0x6c, 0x21);
    assert r[3] == Bits.Xor(0x6c, 0x3d);
    assert r[4] == Bits.Xor(0x6f, 0x37);
  }

  lemma {:induction false} SingleHello()
    ensures EncodeFrame(ShortFrame(1, false, KEY, HELLO)) == [0x81, 0x05, 0x48, 0x65, 0x6c, 0x6c, 0x6f]
    ensures EncodeFrame(ShortFrame(1, true, KEY, HELLO))
         == [0x81, 0x85, 0x37, 0xfa, 0x21, 0x3d, 0x7f, 0x9f, 0x4d, 0x51, 0x58]
    ensures EncodeFrame(ShortFrame(9, false, KEY, HELLO)) == [0x89, 0x05, 0x48, 0x65, 0x6c, 0x6c, 0x6f]
    ensures EncodeFrame(ShortFrame(10, true, KEY, HELLO))
         == [0x8a, 0x85, 0x37, 0xfa, 0x21, 0x3d, 0x7f, 0x9f, 0x4d, 0x51, 0x58]
  {
    hide EncodeFrame, Masked, ShortFrame;
    MaskedHello();
    ShortOctets(1, false, KEY, HELLO);
    ShortOctets(1, true, KEY, HELLO);
    ShortOctets(9, false, KEY, HELLO);
    ShortOctets(10, true, KEY, HELLO);
  }

  lemma {:induction false} UnmaskedOctets(fin: bool, op: OpCode, p: seq<byte>)
    requires op < 16 && |p| <= 125
    ensures EncodeFrame(NewFrame(fin, op, None, p)) == [(if fin then 128 else 0) + op, |p|] + p
  {
    hide EncodeHeader;
    var h := NewFrame(fin, op, None, p).header;
    EncodedLayout(h);
    assert EncodeHeader(h) == [(if fin then 128 else 0) + op, |p|];
  }

  lemma {:induction false} FourCalls(w: Sending.Outgoing, masks: Sending.Masks, cs: seq<Sending.Call>)
    requires Sending.Sane(w) && |cs| == 4
    ensures var a := Sending.Apply(w, masks, cs[0]);
            var b := Sending.Apply(a, masks, cs[1]);
            var c := Sending.Apply(b, masks, cs[2]);
            Sending.Run(w, masks, cs) == Sending.Apply(c, masks, cs[3])
  {
    hide Sending.Apply;
    Sending.RunSnoc(w, masks, cs[..3], cs[3]);
    Sending.RunSnoc(w, masks, cs[..2], cs[2]);
    Sending.RunSnoc(w, masks, cs[..1], cs[1]);
    Sending.RunSnoc(w, masks, cs[..0], cs[0]);
    assert cs == cs[..3] + [cs[3]] && cs[..3] == cs[..2] + [cs[2]];
    assert cs[..2] == cs[..1] + [cs[1]] && cs[..1] == cs[..0] + [cs[0]];
  }

  /** "Hel" and "lo", written to a server's Writer with a fragment flushed in between. */
  lemma {:induction false} FragmentedHello(raw: nat, masks: Sending.Masks)
    requires 100 <= raw <= 125
    ensures var hel, lo := [0x48, 0x65, 0x6c], [0x6c, 0x6f];
            var calls := [Sending.CallWrite(hel), Sending.CallFlushFragment, Sending.CallWrite(lo), Sending.CallFlush];
            EncodeFrames(Sending.Run(Sending.Fresh(1, false, false, raw), masks, calls).frames)
            == [0x01, 0x03, 0x48, 0x65, 0x6c, 0x80, 0x02, 0x6c, 0x6f]
  {
    hide EncodeFrame, EncodeFrames, NewFrame, Sending.Run, Sending.Fresh;
    var hel, lo: seq<byte> := [0x48, 0x65, 0x6c], [0x6c, 0x6f];
    var w := Sending.Fresh(1, false, false, raw);
    var calls := [Sending.CallWrite(hel), Sending.CallFlushFragment, Sending.CallWrite(lo), Sending.CallFlush];
    HelloFrames(raw, masks, hel, lo);
    FourCalls(w, masks, calls);
    var f, g := NewFrame(false, 1, None, hel), NewFrame(true, 0, None, lo);
    EncodeFramesConcat([f], [g]);
    AloneOnTheWire(f);
    AloneOnTheWire(g);
    UnmaskedOctets(false, 1, hel);
    UnmaskedOctets(true, 0, lo);
  }

  lemma {:induction false} AloneOnTheWire(f: Frame)
    ensures EncodeFrames([f]) == EncodeFrame(f)
  {
    hide EncodeFrame;
    assert EncodeFrames([f]) == EncodeFrame(f) + [];
  }

  /** A message in two parts that fit the buffer, with a fragment flushed after the first one. */
  lemma {:induction false} HelloFrames(raw: nat, masks: Sending.Masks, p: seq<byte>, q: seq<byte>)
    requires 100 <= raw <= 125 && 0 < |p| <= 50 && 0 < |q| <= 50
    ensures var w := Sending.Fresh(1, false, false, raw);
            && Sending.Sane(w)
            && var v := Sending.FlushFragment(Sending.Write(w, masks, p), masks);
               && Sending.Sane(v)
               && Sending.Flush(Sending.Write(v, masks, q), masks).frames
                  == [NewFrame(false, 1, None, p)] + [NewFrame(true, 0, None, q)]
  {
    hide NewFrame, Sending.GrownSize;
    var w := Sending.Fresh(1, false, false, raw);
    assert [] + p == p && [] + q == q;
    var a := Sending.Write(w, masks, p);
    assert a == w.(buf := p, dirty := true);
    var v := Sending.FlushFragment(a, masks);
    assert v.frames == [NewFrame(false, 1, None, p)] && v.buf == [] && v.fseq == 1;
    var c := Sending.Write(v, masks, q);
    assert c == v.(buf := q);
  }
}
