/**
 * What a Writer does (msutil/writer.go), as a machine on values. The masks come from a function that
 * gives the k-th mask drawn, so that two runs with the same masks can be compared.
 */
module Sending {
  import opened Bytes
  import opened Bits
  import opened Masking
  import opened Frame
  import opened Codec
  import opened Messages

  type Masks = nat -> Mask

  /** raw is the size of the whole buffer, buf its buffered payload; frames is everything sent. */
  datatype Outgoing = Outgoing(op: OpCode, client: bool, noFlush: bool, raw: nat, buf: seq<byte>,
                               dirty: bool, fseq: nat, draws: nat, frames: seq<Frame>)

  /** The bytes of a buffer of n bytes that are reserved for a header. */
  function Reserve(client: bool, n: int): nat
  {
    var mask := if client then 4 else 0;
    if n <= LEN7 + mask + 2 then mask + 2
    else if n <= LEN16 + mask + 4 then mask + 4
    else mask + 10
  }

  /** headerSize: the size of the header of a frame that carries n bytes. */
  function HeaderSizeFor(client: bool, n: int): int
  {
    HeaderSize(Header(false, 0, 0, client, ZERO_MASK, n))
  }

  /** The reserved gap covers the header of every frame that fits into the rest of the buffer. */
  lemma ReserveCoversEveryHeader(client: bool, raw: nat, n: nat)
    requires n <= raw - Reserve(client, raw) && raw <= LEN64
    ensures 0 < HeaderSizeFor(client, n) <= Reserve(client, raw)
  {}

  /** NewWriterSize(n) gives a buffer with room for exactly n bytes of payload. */
  lemma SizedBufferFits(client: bool, n: nat)
    requires 0 < n <= LEN64
    ensures var raw := n + HeaderSizeFor(client, n);
            raw > 2 && raw - Reserve(client, raw) == n
  {}

  predicate Sane(w: Outgoing)
  {
    Reserve(w.client, w.raw) < w.raw && |w.buf| <= w.raw - Reserve(w.client, w.raw)
  }

  /** Size(): the payload room of the buffer. */
  function Capacity(w: Outgoing): nat
    requires Sane(w)
  {
    w.raw - Reserve(w.client, w.raw)
  }

  function Available(w: Outgoing): nat
    requires Sane(w)
  {
    Capacity(w) - |w.buf|
  }

  /** The size that a buffer of raw bytes with so many buffered ones needs for n more bytes of payload. */
  function GrownSize(client: bool, raw: nat, buffered: nat, n: nat): nat
  {
    var offset := Reserve(client, raw);
    if raw - offset - buffered >= n then raw
    else
      var size := NextPowerOfTwo(offset + buffered + n);
      var next := Reserve(client, size);
      if size - next - buffered >= n then size else NextPowerOfTwo(next + buffered + n)
  }

  /** Growing never shrinks the buffer, and leaves room for n more bytes after at most two rounds. */
  lemma {:induction false} GrownSizeFits(client: bool, raw: nat, buffered: nat, n: nat)
    requires Reserve(client, raw) + buffered <= raw
    ensures var size := GrownSize(client, raw, buffered, n);
            && raw <= size && Reserve(client, raw) <= Reserve(client, size)
            && Reserve(client, size) + buffered + n <= size
            && (Reserve(client, raw) < raw ==> Reserve(client, size) < size)
  {
    hide NextPowerOfTwo, IsPowerOfTwo;
    var offset := Reserve(client, raw);
    var size := NextPowerOfTwo(offset + buffered + n);
    var next := Reserve(client, size);
    if raw - offset - buffered < n && size - next - buffered < n {
      var again := NextPowerOfTwo(next + buffered + n);
      assert next > offset && size > 14 >= Reserve(client, again);
      PowersDouble(size, again);
    }
  }

  /** A buffer that has to grow gets the least power of two beyond its old need in which everything fits. */
  lemma {:induction false} GrownSizeIsLeast(client: bool, raw: nat, buffered: nat, n: nat)
    requires Reserve(client, raw) + buffered <= raw
    ensures var size := GrownSize(client, raw, buffered, n);
            var need := Reserve(client, raw) + buffered + n;
            if need <= raw then size == raw
            else
              && IsPowerOfTwo(size)
              && forall q: nat | IsPowerOfTwo(q) && need < q && Reserve(client, q) + buffered + n <= q :: size <= q
  {
    hide NextPowerOfTwo, IsPowerOfTwo, Reserve;
    var need := Reserve(client, raw) + buffered + n;
    var first := NextPowerOfTwo(need);
    if need > raw {
      forall q: nat | IsPowerOfTwo(q) && need < q && Reserve(client, q) + buffered + n <= q
        ensures GrownSize(client, raw, buffered, n) <= q
      {
        NextIsLeast(need, q);
        if Reserve(client, first) + buffered + n > first {
          assert q != first;
          ReserveGrows(client, first, q);
          PowersDouble(first, q);
          SecondRound(client, raw, buffered, n);
        }
      }
    }
  }

  lemma {:induction false} NextIsLeast(n: nat, q: nat)
    requires IsPowerOfTwo(q) && n < q
    ensures NextPowerOfTwo(n) <= q
  {
    hide NextPowerOfTwo, IsPowerOfTwo;
    if n > 0 && q < NextPowerOfTwo(n) {
      PowersDouble(q, NextPowerOfTwo(n));
    }
    if n == 0 {
      NextOfZero();
    }
  }

  lemma NextOfZero()
    ensures NextPowerOfTwo(0) == 1
  {}

  lemma ReserveGrows(client: bool, a: nat, b: nat)
    requires a <= b
    ensures Reserve(client, a) <= Reserve(client, b) <= 14
  {}

  /** If the first round is not enough, the second one just doubles the size. */
  lemma {:induction false} SecondRound(client: bool, raw: nat, buffered: nat, n: nat)
    requires Reserve(client, raw) + buffered <= raw < Reserve(client, raw) + buffered + n
    requires var first := NextPowerOfTwo(Reserve(client, raw) + buffered + n);
             Reserve(client, first) + buffered + n > first
    ensures var first := NextPowerOfTwo(Reserve(client, raw) + buffered + n);
            GrownSize(client, raw, buffered, n) <= 2 * first
  {
    hide NextPowerOfTwo, IsPowerOfTwo;
    var first := NextPowerOfTwo(Reserve(client, raw) + buffered + n);
    var need := Reserve(client, first) + buffered + n;
    assert first > 14 && need < 2 * first;
    DoubleIsPower(first);
    NextIsLeast(need, 2 * first);
  }

  lemma DoubleIsPower(p: nat)
    requires IsPowerOfTwo(p)
    ensures IsPowerOfTwo(2 * p)
  {}

  // The operations.

  /** Sends p as one frame: a continuation unless it is the first frame of the message. */
  function Emit(w: Outgoing, masks: Masks, fin: bool, p: seq<byte>): (r: Outgoing)
    ensures |r.frames| == |w.frames| + 1 && r.frames[..|w.frames|] == w.frames
    ensures r == w.(draws := r.draws, frames := r.frames)
  {
    var op := if w.fseq > 0 then OP_CONTINUATION else w.op;
    var mask := if w.client then Some(masks(w.draws)) else None;
    w.(draws := w.draws + (if w.client then 1 else 0), frames := w.frames + [NewFrame(fin, op, mask, p)])
  }

  function FlushFragment(w: Outgoing, masks: Masks): Outgoing
  {
    if w.buf == [] then w
    else Emit(w, masks, false, w.buf).(buf := [], fseq := w.fseq + 1)
  }

  function Flush(w: Outgoing, masks: Masks): Outgoing
  {
    if !w.dirty && w.buf == [] then w
    else Emit(w, masks, true, w.buf).(buf := [], dirty := false, fseq := 0)
  }

  function WriteThrough(w: Outgoing, masks: Masks, p: seq<byte>): Outgoing
  {
    if w.buf != [] then w
    else Emit(w, masks, false, p).(dirty := true, fseq := w.fseq + 1)
  }

  function Grow(w: Outgoing, n: nat): Outgoing
  {
    w.(raw := GrownSize(w.client, w.raw, |w.buf|, n))
  }

  /** The loop of Write. */
  function Fill(w: Outgoing, masks: Masks, p: seq<byte>): (r: Outgoing)
    requires Sane(w)
    ensures Sane(r)
    decreases |p|, |w.buf|
  {
    if |p| <= Available(w) then w.(buf := w.buf + p)
    else if w.noFlush then
      GrownSizeFits(w.client, w.raw, |w.buf|, |p|);
      Grow(w, |p|).(buf := w.buf + p)
    else if w.buf == [] then WriteThrough(w, masks, p)
    else
      var k := Available(w);
      Fill(FlushFragment(w.(buf := w.buf + p[..k]), masks), masks, p[k..])
  }

  function Write(w: Outgoing, masks: Masks, p: seq<byte>): (r: Outgoing)
    requires Sane(w)
    ensures Sane(r)
  {
    Fill(w.(dirty := true), masks, p)
  }

  /** ReadFrom, from a source that holds exactly d and is eager or not to report its end. */
  function ReadFrom(w: Outgoing, masks: Masks, d: seq<byte>, eager: bool): (r: Outgoing)
    requires Sane(w)
    ensures Sane(r)
    decreases |d|, if Available(w) == 0 then 1 else 0
  {
    if Available(w) == 0 then
      if w.noFlush then
        GrownSizeFits(w.client, w.raw, |w.buf|, |w.buf|);
        ReadFrom(Grow(w, |w.buf|), masks, d, eager)
      else ReadFrom(FlushFragment(w, masks), masks, d, eager)
    else if d == [] then w.(dirty := true)
    else
      var k := if Available(w) <= |d| then Available(w) else |d|;
      var r := w.(buf := w.buf + d[..k]);
      if k == |d| && eager then r.(dirty := true) else ReadFrom(r, masks, d[k..], eager)
  }

  /**
   * What a Write does that does not fit: an empty buffer is bypassed; another one is filled and sent, and the rest
   * is buffered, or sent as a frame if it does not fit either.
   */
  lemma {:induction false} WriteInFull(w: Outgoing, masks: Masks, p: seq<byte>)
    requires Sane(w) && !w.noFlush && |p| > Available(w)
    ensures var d, all, cap := w.(dirty := true), w.buf + p, Capacity(w);
            Write(w, masks, p) ==
              if w.buf == [] then Emit(d, masks, false, p).(fseq := w.fseq + 1)
              else
                var v := Emit(d, masks, false, all[..cap]).(buf := [], fseq := w.fseq + 1);
                if |all| - cap <= cap then v.(buf := all[cap..])
                else Emit(v, masks, false, all[cap..]).(fseq := w.fseq + 2)
  {
    hide NewFrame, Reserve;
    if w.buf != [] {
      var d, k, all := w.(dirty := true), Available(w), w.buf + p;
      assert all[..Capacity(w)] == w.buf + p[..k] && all[Capacity(w)..] == p[k..];
      assert [] + p[k..] == p[k..];
      var v := FlushFragment(d.(buf := w.buf + p[..k]), masks);
      assert Write(w, masks, p) == Fill(v, masks, p[k..]);
    }
  }

  /** A frame that carries so many bytes and does not end its message. */
  predicate Fragment(f: Frame, n: nat)
  {
    !f.header.fin && f.header.length == |f.payload| == n
  }

  /** All that ReadFrom sends are fragments that fill the buffer, and it does not send its last bytes early. */
  lemma {:induction false} ReadFromFillsFragments(w: Outgoing, masks: Masks, d: seq<byte>, eager: bool)
    requires Sane(w) && !w.noFlush
    ensures var r, cap := ReadFrom(w, masks, d, eager), Capacity(w);
            && |w.frames| <= |r.frames| && r.frames[..|w.frames|] == w.frames && r.raw == w.raw && r.client == w.client
            && (forall i :: |w.frames| <= i < |r.frames| ==> Fragment(r.frames[i], cap))
            && (if eager && d != [] then 0 < |r.buf| <= cap else |r.buf| < cap)
    decreases |d|, if Available(w) == 0 then 1 else 0
  {
    hide Emit, Reserve;
    var cap := Capacity(w);
    if Available(w) == 0 {
      FragmentIgnoresDirty(w, masks);
      FullFragment(w, masks);
      var v := FlushFragment(w, masks);
      ReadFromFillsFragments(v, masks, d, eager);
      var r := ReadFrom(v, masks, d, eager);
      assert r.frames[..|w.frames|] == v.frames[..|w.frames|];
      assert r.frames[|w.frames|] == r.frames[..|v.frames|][|w.frames|];
    } else if d != [] {
      var k := if Available(w) <= |d| then Available(w) else |d|;
      if k < |d| || !eager {
        ReadFromFillsFragments(w.(buf := w.buf + d[..k]), masks, d[k..], eager);
      }
    }
  }

  lemma {:induction false} FullFragment(w: Outgoing, masks: Masks)
    requires Sane(w) && w.buf != []
    ensures var v := FlushFragment(w, masks);
            && |v.frames| == |w.frames| + 1 && v.frames[..|w.frames|] == w.frames
            && Fragment(v.frames[|w.frames|], |w.buf|) && v == w.(buf := [], draws := v.draws, fseq := v.fseq, frames := v.frames)
  {
    hide Masked;
  }

  /** The chunks in which the source delivers its bytes make no difference. */
  lemma {:induction false} ReadFromInChunks(w: Outgoing, masks: Masks, d: seq<byte>, eager: bool, m: nat)
    requires Sane(w) && 0 < m <= |d| && m <= Available(w)
    ensures var r := w.(buf := w.buf + d[..m]);
            ReadFrom(w, masks, d, eager)
            == (if m == |d| && eager then r.(dirty := true) else ReadFrom(r, masks, d[m..], eager))
  {
    hide Emit, GrownSize;
    var k := if Available(w) <= |d| then Available(w) else |d|;
    if m < k {
      var r := w.(buf := w.buf + d[..m]);
      var i := k - m;
      var rest := d[m..];
      assert r.buf + rest[..i] == w.buf + d[..k];
      assert rest[i..] == d[k..];
      assert i == if Available(r) <= |rest| then Available(r) else |rest|;
    }
  }

  // Whole runs.

  datatype Call =
    | CallWrite(p: seq<byte>)
    | CallWriteThrough(p: seq<byte>)
    | CallReadFrom(d: seq<byte>, eager: bool)
    | CallFlushFragment
    | CallFlush
    | CallGrow(n: nat)
    | CallDisableFlush

  function Apply(w: Outgoing, masks: Masks, c: Call): (r: Outgoing)
    requires Sane(w)
    ensures Sane(r)
  {
    match c
    case CallWrite(p) => Write(w, masks, p)
    case CallWriteThrough(p) => WriteThrough(w, masks, p)
    case CallReadFrom(d, eager) => ReadFrom(w, masks, d, eager)
    case CallFlushFragment => FlushFragment(w, masks)
    case CallFlush => Flush(w, masks)
    case CallGrow(n) =>
      GrownSizeFits(w.client, w.raw, |w.buf|, n);
      Grow(w, n)
    case CallDisableFlush => w.(noFlush := true)
  }

  function Run(w: Outgoing, masks: Masks, cs: seq<Call>): (r: Outgoing)
    requires Sane(w)
    ensures Sane(r)
    decreases cs
  {
    if cs == [] then w else Run(Apply(w, masks, cs[0]), masks, cs[1..])
  }

  /** What the caller has asked for: the messages closed by Flush, and the bytes accepted since. */
  datatype Log = Log(messages: seq<seq<byte>>, current: Option<seq<byte>>)

  function Accept(l: Log, p: seq<byte>): Log
  {
    l.(current := Some(if l.current.Some? then l.current.value + p else p))
  }

  /** WriteThrough refuses when something is buffered; every other call accepts all it is given. */
  function Record(l: Log, c: Call, buffered: bool): Log
  {
    match c
    case CallWrite(p) => Accept(l, p)
    case CallWriteThrough(p) => if buffered then l else Accept(l, p)
    case CallReadFrom(d, _) => Accept(l, d)
    case CallFlush => if l.current.Some? then Log(l.messages + [l.current.value], None) else l
    case _ => l
  }

  function RecordAll(l: Log, w: Outgoing, masks: Masks, cs: seq<Call>): Log
    requires Sane(w)
    decreases cs
  {
    if cs == [] then l
    else RecordAll(Record(l, cs[0], w.buf != []), Apply(w, masks, cs[0]), masks, cs[1..])
  }

  /** A frame as a Writer of that side sends it. */
  predicate Sent(f: Frame, client: bool)
  {
    && f.header.rsv == 0 && f.header.masked == client && (!client ==> f.header.mask == ZERO_MASK)
    && f.header.length == |f.payload|
  }

  predicate AllSent(fs: seq<Frame>, client: bool)
  {
    forall i :: 0 <= i < |fs| ==> Sent(fs[i], client)
  }

  function OpenPayload(g: Glued): seq<byte>
  {
    if g.open.Some? then g.open.value.payload else []
  }

  function WithOp(op: OpCode, ps: seq<seq<byte>>): (ms: seq<Message>)
    ensures |ms| == |ps| && forall i :: 0 <= i < |ps| ==> ms[i] == Message(op, ps[i])
  {
    seq(|ps|, i requires 0 <= i < |ps| => Message(op, ps[i]))
  }

  /**
   * The frames sent are whole messages and at most one open one; sent and buffered bytes are the accepted
   * bytes; the fragment number and the dirty flag say what is open.
   */
  ghost predicate Consistent(w: Outgoing, l: Log)
  {
    && Sane(w) && AllSent(w.frames, w.client)
    && Glue(w.frames).Some?
    && var g := Glue(w.frames).value;
       && g.messages == WithOp(w.op, l.messages)
       && (g.open.Some? ==> g.open.value.op == w.op)
       && (w.fseq > 0 <==> g.open.Some?)
       && (w.dirty <==> l.current.Some?)
       && OpenPayload(g) + w.buf == (if l.current.Some? then l.current.value else [])
       && (!w.dirty ==> g.open.None?)
  }

  /** A fresh Writer. */
  function Fresh(op: OpCode, client: bool, noFlush: bool, raw: nat): Outgoing
  {
    Outgoing(op, client, noFlush, raw, [], false, 0, 0, [])
  }

  lemma FreshIsConsistent(op: OpCode, client: bool, noFlush: bool, raw: nat)
    requires Reserve(client, raw) < raw
    ensures Consistent(Fresh(op, client, noFlush, raw), Log([], None))
  {}

  /** What one more frame does to the messages on the wire. */
  lemma {:induction false} EmitGlues(w: Outgoing, masks: Masks, fin: bool, p: seq<byte>)
    requires AllSent(w.frames, w.client) && Glue(w.frames).Some?
    requires w.fseq > 0 <==> Glue(w.frames).value.open.Some?
    requires Glue(w.frames).value.open.Some? ==> Glue(w.frames).value.open.value.op == w.op
    ensures var r := Emit(w, masks, fin, p);
            var g := Glue(w.frames).value;
            var m := Message(w.op, OpenPayload(g) + p);
            && AllSent(r.frames, w.client)
            && Glue(r.frames) == Some(if fin then Glued(g.messages + [m], None) else Glued(g.messages, Some(m)))
  {
    hide Emit, Unmasked, Sent;
    var r := Emit(w, masks, fin, p);
    var f := EmittedFrame(w, masks, fin, p);
    assert r.frames[..|w.frames|] == w.frames;
    assert Glue(r.frames) == GlueFrame(Glue(w.frames).value, f);
    assert [] + p == p;
  }

  lemma {:induction false} EmittedFrame(w: Outgoing, masks: Masks, fin: bool, p: seq<byte>) returns (f: Frame)
    ensures Emit(w, masks, fin, p).frames == w.frames + [f]
    ensures Sent(f, w.client) && Unmasked(f) == p && f.header.fin == fin
    ensures f.header.op == if w.fseq > 0 then OP_CONTINUATION else w.op
  {
    hide Masked;
    var op := if w.fseq > 0 then OP_CONTINUATION else w.op;
    var mask := if w.client then Some(masks(w.draws)) else None;
    f := NewFrame(fin, op, mask, p);
    UnmaskedNewFrame(fin, op, mask, p);
  }

  lemma {:induction false} FragmentIsConsistent(w: Outgoing, l: Log, masks: Masks)
    requires Consistent(w, l)
    ensures Consistent(FlushFragment(w, masks), l)
  {
    hide Emit, Glue, Masked;
    if w.buf != [] {
      EmitGlues(w, masks, false, w.buf);
    }
  }

  lemma {:induction false} FlushIsConsistent(w: Outgoing, l: Log, masks: Masks)
    requires Consistent(w, l)
    ensures Consistent(Flush(w, masks), Record(l, CallFlush, w.buf != []))
  {
    hide Emit, Glue, Masked;
    if w.dirty || w.buf != [] {
      EmitGlues(w, masks, true, w.buf);
      assert WithOp(w.op, l.messages + [l.current.value])
          == WithOp(w.op, l.messages) + [Message(w.op, l.current.value)];
    }
  }

  lemma {:induction false} WriteThroughIsConsistent(w: Outgoing, l: Log, masks: Masks, p: seq<byte>)
    requires Consistent(w, l)
    ensures Consistent(WriteThrough(w, masks, p), Record(l, CallWriteThrough(p), w.buf != []))
  {
    hide Emit, Glue, Masked;
    if w.buf == [] {
      EmitGlues(w, masks, false, p);
      var x := OpenPayload(Glue(w.frames).value);
      assert x + [] == x && (x + p) + [] == x + p;
      assert [] + p == p;
    }
  }

  /** Buffering more bytes, all of them accepted by an open message. */
  lemma {:induction false} BufferIsConsistent(w: Outgoing, l: Log, p: seq<byte>)
    requires Consistent(w, l) && w.dirty && |p| <= Available(w)
    ensures Consistent(w.(buf := w.buf + p), Accept(l, p))
  {
    hide Glue;
    var x := OpenPayload(Glue(w.frames).value);
    assert x + (w.buf + p) == (x + w.buf) + p;
  }

  lemma {:induction false} AcceptTwice(l: Log, p: seq<byte>, q: seq<byte>)
    ensures Accept(Accept(l, p), q) == Accept(l, p + q)
  {
    if l.current.Some? {
      assert (l.current.value + p) + q == l.current.value + (p + q);
    }
  }

  lemma {:induction false} AcceptParts(l: Log, p: seq<byte>, k: nat)
    requires k <= |p|
    ensures Accept(Accept(l, p[..k]), p[k..]) == Accept(l, p)
  {
    AcceptTwice(l, p[..k], p[k..]);
    assert p == p[..k] + p[k..];
  }

  lemma {:induction false} AcceptNothing(l: Log)
    requires l.current.Some?
    ensures Accept(l, []) == l
  {
    assert l.current.value + [] == l.current.value;
  }

  lemma {:induction false} GrowIsConsistent(w: Outgoing, l: Log, n: nat)
    requires Consistent(w, l)
    ensures Consistent(Grow(w, n), l) && Available(Grow(w, n)) >= n
  {
    hide Glue, GrownSize;
    GrownSizeFits(w.client, w.raw, |w.buf|, n);
  }

  /** An open message that has accepted nothing yet, as Write starts one even for an empty p. */
  lemma {:induction false} DirtyIsConsistent(w: Outgoing, l: Log)
    requires Consistent(w, l)
    ensures Consistent(w.(dirty := true), Accept(l, []))
  {
    hide Glue;
    if l.current.Some? {
      AcceptNothing(l);
    }
  }

  lemma {:induction false} FillIsConsistent(w: Outgoing, l: Log, masks: Masks, p: seq<byte>)
    requires Consistent(w, l) && w.dirty
    ensures Consistent(Fill(w, masks, p), Accept(l, p))
    decreases |p|, |w.buf|
  {
    hide Consistent, Glue, GrownSize, Emit;
    SaneIfConsistent(w, l);
    if |p| <= Available(w) {
      BufferIsConsistent(w, l, p);
    } else if w.noFlush {
      GrowIsConsistent(w, l, |p|);
      BufferIsConsistent(Grow(w, |p|), l, p);
    } else if w.buf == [] {
      WriteThroughIsConsistent(w, l, masks, p);
    } else {
      var k := Available(w);
      var v := w.(buf := w.buf + p[..k]);
      BufferIsConsistent(w, l, p[..k]);
      FragmentIsConsistent(v, Accept(l, p[..k]), masks);
      FillIsConsistent(FlushFragment(v, masks), Accept(l, p[..k]), masks, p[k..]);
      AcceptParts(l, p, k);
    }
  }

  lemma SaneIfConsistent(w: Outgoing, l: Log)
    requires Consistent(w, l)
    ensures Sane(w) && (w.dirty <==> l.current.Some?)
    ensures !w.dirty ==> w.buf == [] && w.fseq == 0
  {}

  /** ReadFrom closes nothing, so a message that it opens becomes dirty at the end of the source only. */
  lemma {:induction false} ReadFromIsConsistent(w: Outgoing, l: Log, masks: Masks, d: seq<byte>, eager: bool)
    requires Sane(w) && Consistent(w.(dirty := true), l)
    ensures Consistent(ReadFrom(w, masks, d, eager), Accept(l, d))
    decreases |d|, if Available(w) == 0 then 1 else 0
  {
    hide Consistent, Glue, GrownSize, Emit;
    var v := w.(dirty := true);
    SaneIfConsistent(v, l);
    if Available(w) == 0 {
      if w.noFlush {
        GrowIsConsistent(v, l, |w.buf|);
        ReadFromIsConsistent(Grow(w, |w.buf|), l, masks, d, eager);
      } else {
        FragmentIsConsistent(v, l, masks);
        FragmentIgnoresDirty(w, masks);
        ReadFromIsConsistent(FlushFragment(w, masks), l, masks, d, eager);
      }
    } else if d == [] {
      AcceptNothing(l);
    } else {
      var k := if Available(w) <= |d| then Available(w) else |d|;
      BufferIsConsistent(v, l, d[..k]);
      if k < |d| || !eager {
        ReadFromIsConsistent(w.(buf := w.buf + d[..k]), Accept(l, d[..k]), masks, d[k..], eager);
        AcceptParts(l, d, k);
      } else {
        assert d[..k] == d;
      }
    }
  }

  lemma FragmentIgnoresDirty(w: Outgoing, masks: Masks)
    requires Sane(w)
    ensures FlushFragment(w.(dirty := true), masks) == FlushFragment(w, masks).(dirty := true)
    ensures Sane(FlushFragment(w, masks))
    ensures w.buf != [] ==> Available(FlushFragment(w, masks)) > 0
  {}

  lemma {:induction false} ApplyIsConsistent(w: Outgoing, l: Log, masks: Masks, c: Call)
    requires Consistent(w, l)
    ensures Consistent(Apply(w, masks, c), Record(l, c, w.buf != []))
  {
    hide Consistent, Glue, GrownSize, Emit, Fill, ReadFrom, WriteThrough, Flush, FlushFragment;
    SaneIfConsistent(w, l);
    match c
    case CallWrite(p) =>
      DirtyIsConsistent(w, l);
      FillIsConsistent(w.(dirty := true), Accept(l, []), masks, p);
      AcceptTwice(l, [], p);
      assert [] + p == p;
    case CallWriteThrough(p) => WriteThroughIsConsistent(w, l, masks, p);
    case CallReadFrom(d, eager) =>
      DirtyIsConsistent(w, l);
      ReadFromIsConsistent(w, Accept(l, []), masks, d, eager);
      AcceptTwice(l, [], d);
      assert [] + d == d;
    case CallFlushFragment => FragmentIsConsistent(w, l, masks);
    case CallFlush => FlushIsConsistent(w, l, masks);
    case CallGrow(n) => GrowIsConsistent(w, l, n);
    case CallDisableFlush => NoFlushIsConsistent(w, l);
  }

  lemma NoFlushIsConsistent(w: Outgoing, l: Log)
    requires Consistent(w, l)
    ensures Consistent(w.(noFlush := true), l)
  {}

  /** Every run keeps what is sent and buffered consistent with what was accepted. */
  lemma {:induction false} RunIsConsistent(w: Outgoing, l: Log, masks: Masks, cs: seq<Call>)
    requires Consistent(w, l)
    ensures Consistent(Run(w, masks, cs), RecordAll(l, w, masks, cs))
    decreases cs
  {
    hide Consistent, Apply, Record;
    SaneIfConsistent(w, l);
    if cs != [] {
      ApplyIsConsistent(w, l, masks, cs[0]);
      RunIsConsistent(Apply(w, masks, cs[0]), Record(l, cs[0], w.buf != []), masks, cs[1..]);
    }
  }

  /** Of a client, the k-th frame carries the k-th mask drawn, and no mask is drawn for anything else. */
  predicate OwnMasks(client: bool, draws: nat, frames: seq<Frame>, masks: Masks)
  {
    if client then draws == |frames| && forall k :: 0 <= k < |frames| ==> frames[k].header.mask == masks(k)
    else draws == 0
  }

  /** The same opcode and side, and still a mask of its own for each frame. */
  predicate SameKind(w: Outgoing, r: Outgoing, masks: Masks)
  {
    && r.op == w.op && r.client == w.client
    && (OwnMasks(w.client, w.draws, w.frames, masks) ==> OwnMasks(r.client, r.draws, r.frames, masks))
  }

  lemma {:induction false} EmitKeepsKind(w: Outgoing, masks: Masks, fin: bool, p: seq<byte>)
    ensures SameKind(w, Emit(w, masks, fin, p), masks)
  {
    hide Masked;
  }

  lemma {:induction false} FragmentKeepsKind(w: Outgoing, masks: Masks, buf: seq<byte>)
    ensures SameKind(w, FlushFragment(w.(buf := buf), masks), masks)
  {
    hide Emit, OwnMasks;
    EmitKeepsKind(w.(buf := buf), masks, false, buf);
  }

  lemma {:induction false} FillKeepsKind(w: Outgoing, masks: Masks, p: seq<byte>)
    requires Sane(w)
    ensures SameKind(w, Fill(w, masks, p), masks)
    decreases |p|, |w.buf|
  {
    hide GrownSize, Emit, OwnMasks;
    if |p| > Available(w) && !w.noFlush {
      if w.buf == [] {
        EmitKeepsKind(w, masks, false, p);
      } else {
        var k := Available(w);
        var v := FlushFragment(w.(buf := w.buf + p[..k]), masks);
        FragmentKeepsKind(w, masks, w.buf + p[..k]);
        FillKeepsKind(v, masks, p[k..]);
      }
    }
  }

  lemma {:induction false} ReadFromKeepsKind(w: Outgoing, masks: Masks, d: seq<byte>, eager: bool)
    requires Sane(w)
    ensures SameKind(w, ReadFrom(w, masks, d, eager), masks)
    decreases |d|, if Available(w) == 0 then 1 else 0
  {
    hide GrownSize, Emit, OwnMasks;
    if Available(w) == 0 {
      GrownSizeFits(w.client, w.raw, |w.buf|, |w.buf|);
      FragmentIgnoresDirty(w, masks);
      FragmentKeepsKind(w, masks, w.buf);
      ReadFromKeepsKind(if w.noFlush then Grow(w, |w.buf|) else FlushFragment(w, masks), masks, d, eager);
    } else if d != [] {
      var k := if Available(w) <= |d| then Available(w) else |d|;
      if k < |d| || !eager {
        ReadFromKeepsKind(w.(buf := w.buf + d[..k]), masks, d[k..], eager);
      }
    }
  }

  /** No call changes the opcode or the side of a Writer, or takes a mask that is not its own for a frame. */
  lemma {:induction false} ApplyKeepsKind(w: Outgoing, masks: Masks, c: Call)
    requires Sane(w)
    ensures SameKind(w, Apply(w, masks, c), masks)
  {
    hide Fill, ReadFrom, Emit, GrownSize, OwnMasks;
    match c {
      case CallWrite(p) => FillKeepsKind(w.(dirty := true), masks, p);
      case CallReadFrom(d, eager) => ReadFromKeepsKind(w, masks, d, eager);
      case CallWriteThrough(p) => EmitKeepsKind(w, masks, false, p);
      case CallFlushFragment => FragmentKeepsKind(w, masks, w.buf);
      case CallFlush => EmitKeepsKind(w, masks, true, w.buf);
      case _ =>
    }
  }

  lemma {:induction false} RunKeepsKind(w: Outgoing, masks: Masks, cs: seq<Call>)
    requires Sane(w)
    ensures SameKind(w, Run(w, masks, cs), masks)
    decreases cs
  {
    hide Apply, OwnMasks;
    if cs != [] {
      ApplyKeepsKind(w, masks, cs[0]);
      RunKeepsKind(Apply(w, masks, cs[0]), masks, cs[1..]);
    }
  }

  /** In any run of a client, the k-th frame carries the k-th mask drawn; a server draws none and masks nothing. */
  lemma {:induction false} EachFrameHasItsMask(op: OpCode, client: bool, noFlush: bool, raw: nat, masks: Masks,
      cs: seq<Call>)
    requires Reserve(client, raw) < raw
    ensures var r := Run(Fresh(op, client, noFlush, raw), masks, cs);
            && r.draws == (if client then |r.frames| else 0)
            && forall k :: 0 <= k < |r.frames| ==>
                 && r.frames[k].header.masked == client
                 && r.frames[k].header.mask == if client then masks(k) else [0, 0, 0, 0]
  {
    hide Run, RecordAll, Glue;
    var w := Fresh(op, client, noFlush, raw);
    RunKeepsKind(w, masks, cs);
    FreshIsConsistent(op, client, noFlush, raw);
    RunIsConsistent(w, Log([], None), masks, cs);
  }

  /** After a Flush no message is open. */
  lemma {:induction false} FlushCloses(w: Outgoing, masks: Masks, cs: seq<Call>)
    requires Sane(w)
    ensures var r := Run(w, masks, cs + [CallFlush]);
            r.frames == Flush(Run(w, masks, cs), masks).frames && !r.dirty && r.buf == []
  {
    hide Run, Emit;
    RunSnoc(w, masks, cs, CallFlush);
  }

  // With flushing disabled.

  predicate Buffers(c: Call)
  {
    c.CallWrite? || c.CallReadFrom? || c.CallGrow?
  }

  function Given(c: Call): seq<byte>
  {
    match c
    case CallWrite(p) => p
    case CallWriteThrough(p) => p
    case CallReadFrom(d, _) => d
    case _ => []
  }

  /** Some call gives bytes, if only none at all; then there is a message to be closed. */
  predicate Opens(cs: seq<Call>)
  {
    exists i :: 0 <= i < |cs| && Gives(cs[i])
  }

  predicate Gives(c: Call)
  {
    c.CallWrite? || c.CallWriteThrough? || c.CallReadFrom?
  }

  lemma {:induction false} OpensFirst(cs: seq<Call>)
    requires cs != []
    ensures Opens(cs) <==> Gives(cs[0]) || Opens(cs[1..])
  {
    assert forall i :: 0 <= i < |cs[1..]| ==> cs[1..][i] == cs[i + 1];
  }

  function AllGiven(cs: seq<Call>): seq<byte>
  {
    if cs == [] then [] else Given(cs[0]) + AllGiven(cs[1..])
  }

  lemma {:induction false} NoFlushReadFrom(w: Outgoing, masks: Masks, d: seq<byte>, eager: bool)
    requires Sane(w) && w.noFlush
    ensures ReadFrom(w, masks, d, eager)
         == w.(raw := ReadFrom(w, masks, d, eager).raw, buf := w.buf + d, dirty := true)
    decreases |d|, if Available(w) == 0 then 1 else 0
  {
    hide GrownSize;
    if Available(w) == 0 {
      GrownSizeFits(w.client, w.raw, |w.buf|, |w.buf|);
      NoFlushReadFrom(Grow(w, |w.buf|), masks, d, eager);
    } else if d == [] {
      assert w.buf + d == w.buf;
    } else {
      var k := if Available(w) <= |d| then Available(w) else |d|;
      if k < |d| || !eager {
        NoFlushReadFrom(w.(buf := w.buf + d[..k]), masks, d[k..], eager);
        assert (w.buf + d[..k]) + d[k..] == w.buf + d;
      } else {
        assert d[..k] == d;
      }
    }
  }

  lemma {:induction false} NoFlushApply(w: Outgoing, masks: Masks, c: Call)
    requires Sane(w) && w.noFlush && Buffers(c)
    ensures var r := Apply(w, masks, c);
            r == w.(raw := r.raw, buf := w.buf + Given(c), dirty := w.dirty || Gives(c))
            && Sane(r) && r.noFlush
  {
    hide GrownSize, ReadFrom, Emit, Reserve;
    match c
    case CallWrite(p) =>
    case CallReadFrom(d, eager) => NoFlushReadFrom(w, masks, d, eager);
    case CallGrow(n) => assert w.buf + [] == w.buf;
  }

  /** A Writer that must not flush only buffers, however much it is given. */
  lemma {:induction false} NoFlushBuffersAll(w: Outgoing, masks: Masks, cs: seq<Call>)
    requires Sane(w) && w.noFlush && forall i :: 0 <= i < |cs| ==> Buffers(cs[i])
    ensures var r := Run(w, masks, cs);
            r == w.(raw := r.raw, buf := w.buf + AllGiven(cs), dirty := w.dirty || Opens(cs))
    decreases cs
  {
    hide Apply, Reserve, Given, Opens;
    if cs == [] {
      assert w.buf + [] == w.buf;
      NothingOpens();
    } else {
      OpensFirst(cs);
      var v := Apply(w, masks, cs[0]);
      NoFlushApply(w, masks, cs[0]);
      NoFlushBuffersAll(v, masks, cs[1..]);
      assert (w.buf + Given(cs[0])) + AllGiven(cs[1..]) == w.buf + AllGiven(cs);
    }
  }

  lemma NothingOpens()
    ensures !Opens([])
  {}

  /** Then Flush sends exactly one frame, final and holding everything, or none if nothing was given. */
  lemma {:induction false} NoFlushSendsOneFrame(w: Outgoing, masks: Masks, cs: seq<Call>)
    requires Sane(w) && w.noFlush && w.buf == [] && w.fseq == 0 && !w.dirty
    requires forall i :: 0 <= i < |cs| ==> Buffers(cs[i])
    ensures var r := Flush(Run(w, masks, cs), masks);
            if !Opens(cs) then r.frames == w.frames
            else
              && |r.frames| == |w.frames| + 1 && r.frames[..|w.frames|] == w.frames
              && var f := r.frames[|w.frames|];
                 f.header.fin && f.header.op == w.op && Unmasked(f) == AllGiven(cs)
  {
    hide Masked, Run, Opens, Reserve, AllGiven;
    NoFlushBuffersAll(w, masks, cs);
    var r := Run(w, masks, cs);
    assert [] + AllGiven(cs) == AllGiven(cs);
    if Opens(cs) {
      UnmaskedNewFrame(true, w.op, if w.client then Some(masks(w.draws)) else None, r.buf);
    } else {
      NothingGiven(cs);
    }
  }

  lemma {:induction false} NothingGiven(cs: seq<Call>)
    requires !Opens(cs)
    ensures AllGiven(cs) == []
  {
    hide Opens;
    if cs != [] {
      OpensFirst(cs);
      NothingGiven(cs[1..]);
    }
  }

  lemma {:induction false} RunSnoc(w: Outgoing, masks: Masks, cs: seq<Call>, c: Call)
    requires Sane(w)
    ensures Run(w, masks, cs + [c]) == Apply(Run(w, masks, cs), masks, c)
    decreases cs
  {
    hide Apply;
    if cs == [] {
      assert ([] + [c])[1..] == [];
      assert (cs + [c])[0] == c;
    } else {
      RunSnoc(Apply(w, masks, cs[0]), masks, cs[1..], c);
      assert (cs + [c])[1..] == cs[1..] + [c];
    }
  }

  // One message.

  /** No call closes the message, and no WriteThrough is refused: each is made when nothing is buffered. */
  predicate OneMessage(w: Outgoing, masks: Masks, cs: seq<Call>)
    requires Sane(w)
    decreases cs
  {
    || cs == []
    || (&& !cs[0].CallFlush? && (cs[0].CallWriteThrough? ==> w.buf == [])
        && OneMessage(Apply(w, masks, cs[0]), masks, cs[1..]))
  }

  lemma {:induction false} RecordOfMessage(l: Log, w: Outgoing, masks: Masks, cs: seq<Call>)
    requires Sane(w) && OneMessage(w, masks, cs)
    ensures RecordAll(l, w, masks, cs) == if Opens(cs) then Accept(l, AllGiven(cs)) else l
    decreases cs
  {
    hide Apply, Accept, Opens;
    if cs == [] {
      NothingOpens();
    } else {
      var c, more := cs[0], cs[1..];
      RecordOfMessage(Record(l, c, w.buf != []), Apply(w, masks, c), masks, more);
      OpensFirst(cs);
      AcceptTwice(l, Given(c), AllGiven(more));
      if !Opens(more) {
        NothingGiven(more);
      }
      assert [] + AllGiven(more) == AllGiven(more) && Given(c) + [] == Given(c);
    }
  }

  lemma {:induction false} RecordSnoc(l: Log, w: Outgoing, masks: Masks, cs: seq<Call>, c: Call)
    requires Sane(w)
    ensures RecordAll(l, w, masks, cs + [c])
         == Record(RecordAll(l, w, masks, cs), c, Run(w, masks, cs).buf != [])
    decreases cs
  {
    hide Apply, Record;
    if cs == [] {
      assert (cs + [c])[1..] == [] && (cs + [c])[0] == c;
    } else {
      RecordSnoc(Record(l, cs[0], w.buf != []), Apply(w, masks, cs[0]), masks, cs[1..], c);
      assert (cs + [c])[1..] == cs[1..] + [c];
    }
  }

  /** However a message is split into calls, what is accepted is all that was given. */
  lemma {:induction false} OneMessageIsAccepted(w: Outgoing, masks: Masks, cs: seq<Call>)
    requires Sane(w) && Opens(cs) && OneMessage(w, masks, cs)
    ensures RecordAll(Log([], None), w, masks, cs + [CallFlush]) == Log([AllGiven(cs)], None)
  {
    hide Run, AllGiven, RecordAll, Opens, OneMessage;
    RecordOfMessage(Log([], None), w, masks, cs);
    RecordSnoc(Log([], None), w, masks, cs, CallFlush);
  }

  // What has been sent stays sent.

  predicate Extends(w: Outgoing, r: Outgoing)
  {
    |w.frames| <= |r.frames| && r.frames[..|w.frames|] == w.frames
  }

  lemma {:induction false} FillExtends(w: Outgoing, masks: Masks, p: seq<byte>)
    requires Sane(w)
    ensures Extends(w, Fill(w, masks, p))
    decreases |p|, |w.buf|
  {
    hide GrownSize;
    if |p| > Available(w) && !w.noFlush && w.buf != [] {
      var k := Available(w);
      var v := FlushFragment(w.(buf := w.buf + p[..k]), masks);
      FillExtends(v, masks, p[k..]);
      ExtendsTransitive(w, v, Fill(w, masks, p));
    }
  }

  lemma {:induction false} ReadFromExtends(w: Outgoing, masks: Masks, d: seq<byte>, eager: bool)
    requires Sane(w)
    ensures Extends(w, ReadFrom(w, masks, d, eager))
    decreases |d|, if Available(w) == 0 then 1 else 0
  {
    hide GrownSize;
    if Available(w) == 0 {
      if w.noFlush {
        GrownSizeFits(w.client, w.raw, |w.buf|, |w.buf|);
        ReadFromExtends(Grow(w, |w.buf|), masks, d, eager);
      } else {
        var v := FlushFragment(w, masks);
        ReadFromExtends(v, masks, d, eager);
        ExtendsTransitive(w, v, ReadFrom(w, masks, d, eager));
      }
    } else if d != [] {
      var k := if Available(w) <= |d| then Available(w) else |d|;
      if k < |d| || !eager {
        ReadFromExtends(w.(buf := w.buf + d[..k]), masks, d[k..], eager);
      }
    }
  }

  lemma {:induction false} ExtendsTransitive(a: Outgoing, b: Outgoing, c: Outgoing)
    requires Extends(a, b) && Extends(b, c)
    ensures Extends(a, c)
  {
    assert c.frames[..|a.frames|] == c.frames[..|b.frames|][..|a.frames|];
  }

  /** The bytes of what was sent before are a prefix of the bytes of what is sent later. */
  lemma {:induction false} ExtendsOnTheWire(a: Outgoing, b: Outgoing)
    requires Extends(a, b)
    ensures EncodeFrames(a.frames) <= EncodeFrames(b.frames)
  {
    hide EncodeFrames;
    var more := b.frames[|a.frames|..];
    assert b.frames == a.frames + more;
    EncodeFramesConcat(a.frames, more);
  }

  lemma {:induction false} ExtendsDirty(w: Outgoing, masks: Masks, p: seq<byte>)
    requires Sane(w)
    ensures Extends(w, Write(w, masks, p)) && Write(w, masks, p).dirty
  {
    FillExtends(w.(dirty := true), masks, p);
    FillKeepsDirty(w.(dirty := true), masks, p);
  }

  lemma {:induction false} FillKeepsDirty(w: Outgoing, masks: Masks, p: seq<byte>)
    requires Sane(w) && w.dirty
    ensures Fill(w, masks, p).dirty
    decreases |p|, |w.buf|
  {
    hide GrownSize, Emit;
    if |p| > Available(w) && !w.noFlush && w.buf != [] {
      var k := Available(w);
      FillKeepsDirty(FlushFragment(w.(buf := w.buf + p[..k]), masks), masks, p[k..]);
    }
  }

  // A ControlWriter lets every Write through that is within its limit, whatever was written before.

  /** After Writes of ps, one by one. */
  function AfterWrites(w: Outgoing, masks: Masks, ps: seq<seq<byte>>): (r: Outgoing)
    requires Sane(w)
    ensures Sane(r)
  {
    if ps == [] then w else Write(AfterWrites(w, masks, ps[..|ps| - 1]), masks, ps[|ps| - 1])
  }

  function Total(ps: seq<seq<byte>>): seq<byte>
  {
    if ps == [] then [] else Total(ps[..|ps| - 1]) + ps[|ps| - 1]
  }

  /** Writes that fit together are only buffered; as soon as they do not, a fragment is sent. */
  lemma {:induction false} WritesWithinLimit(w: Outgoing, masks: Masks, ps: seq<seq<byte>>)
    requires Sane(w) && !w.noFlush && w.buf == [] && w.fseq == 0 && w.frames == []
    requires forall i :: 0 <= i < |ps| ==> |ps[i]| <= Capacity(w)
    ensures var r := AfterWrites(w, masks, ps);
            if |Total(ps)| <= Capacity(w) then r == w.(buf := Total(ps), dirty := w.dirty || ps != [])
            else r.dirty && |r.frames| >= 1
  {
    hide Emit, Reserve;
    if ps != [] {
      var before, p := ps[..|ps| - 1], ps[|ps| - 1];
      WritesWithinLimit(w, masks, before);
      var v := AfterWrites(w, masks, before);
      ExtendsDirty(v, masks, p);
      if |Total(before)| <= Capacity(w) < |Total(ps)| {
        var d := v.(dirty := true);
        var k := Available(d);
        FillExtends(FlushFragment(d.(buf := d.buf + p[..k]), masks), masks, p[k..]);
      }
    }
  }

  /** A control message that is written in parts goes out as one frame exactly when all of it fits the limit. */
  lemma {:induction false} OneControlFrame(w: Outgoing, masks: Masks, ps: seq<seq<byte>>)
    requires Sane(w) && !w.noFlush && !w.dirty && w.buf == [] && w.fseq == 0 && w.frames == []
    requires ps != [] && forall i :: 0 <= i < |ps| ==> |ps[i]| <= Capacity(w)
    ensures |Flush(AfterWrites(w, masks, ps), masks).frames| == 1 <==> |Total(ps)| <= Capacity(w)
  {
    hide Emit, Reserve, AfterWrites, Total;
    WritesWithinLimit(w, masks, ps);
  }

  /** Two parts of 100 bytes pass the limit of 125 one by one, and go out as a fragment and a final frame. */
  lemma {:induction false} TwoPartsTwoFrames(op: OpCode, masks: Masks)
    ensures var w := Fresh(op, false, false, 127);
            Sane(w) && Capacity(w) == 125
            && var fs := Flush(AfterWrites(w, masks, [Zeros(100), Zeros(100)]), masks).frames;
               fs == [NewFrame(false, op, None, Zeros(125)), NewFrame(true, OP_CONTINUATION, None, Zeros(75))]
  {
    hide GrownSize, NewFrame;
    var w, p := Fresh(op, false, false, 127), Zeros(100);
    var ps := [p, p];
    assert ps[..1] == [p];
    var one := Write(w, masks, p);
    assert AfterWrites(w, masks, [p]) == one;
    assert one.buf == p && one.dirty && one.frames == [];
    assert p + p[..25] == Zeros(125) && p[25..] == Zeros(75) && [] + Zeros(75) == Zeros(75);
    var sent := FlushFragment(one.(buf := p + p[..25]), masks);
    assert sent.frames == [NewFrame(false, op, None, Zeros(125))];
    var two := Write(one, masks, p);
    assert two == Fill(sent, masks, p[25..]) == sent.(buf := Zeros(75));
  }

  function Zeros(n: nat): (s: seq<byte>)
    ensures |s| == n
  {
    seq(n, i => 0)
  }
}
