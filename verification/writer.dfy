/** Writer, ControlWriter and writeFrame (msutil/writer.go). */
module Writing {
  import opened Bytes
  import opened Bits
  import opened Masking
  import opened Frame
  import opened Codec
  import opened Stream
  import opened Wire
  import opened Sending

  /** No buffer and no slice is longer than this. */
  const MAX_LEN := 0x4000_0000_0000_0000

  /** Buffered and wanted bytes stay below this, so that the next power of two is still a possible size. */
  const MAX_GROWN := 0x2000_0000_0000_0000

  const DEFAULT_WRITE_BUFFER := 4096

  /** Frames that a Writer sends, and their mask, given by the number of masks drawn before. */
  function MaskOf(client: bool, masks: Masks, draws: nat): Option<Mask>
  {
    if client then Some(masks(draws)) else None
  }

  /** After base, the destination has received all the frames, or a prefix of them once a write has failed. */
  predicate OnTheWire(base: seq<byte>, out: seq<byte>, frames: seq<Frame>, err: Error)
  {
    && base <= out
    && if err == Nil then out == base + EncodeFrames(frames) else out[|base|..] <= EncodeFrames(frames)
  }

  class Writer {
    const dest: Sink
    const masks: Masks     // the k-th mask that NewMask returns
    var op: OpCode
    var state: State
    var noFlush: bool
    var raw: array<byte>
    var offset: nat        // buf is raw[offset..]
    var n: nat
    var dirty: bool
    var fseq: nat
    var err: Error
    var draws: nat         // masks drawn so far

    /** The same calls with the same masks on a destination that never fails. */
    ghost var ideal: Outgoing
    /** What the destination held at first. */
    ghost const base: seq<byte>

    /** A part of the buffer. */
    ghost function Part(lo: nat, hi: nat): (s: seq<byte>)
      reads this`raw, raw
      requires lo <= hi <= raw.Length
      ensures |s| == hi - lo
    {
      raw[lo..hi]
    }

    lemma PartIs(lo: nat, hi: nat)
      requires lo <= hi <= raw.Length
      ensures Part(lo, hi) == raw[lo..hi]
    {}

    lemma TwoParts(lo: nat, mid: nat, hi: nat)
      requires lo <= mid <= hi <= raw.Length
      ensures Part(lo, hi) == Part(lo, mid) + Part(mid, hi)
    {}

    /** The fields as a machine state; what has been sent is taken from the ideal run. */
    ghost function Now(): Outgoing
      reads this, raw
      requires offset + n <= raw.Length
    {
      Outgoing(op, state.client, noFlush, raw.Length, Part(offset, offset + n), dirty, fseq, draws, ideal.frames)
    }

    /** The gap in front of the payload is what reserve computes for the whole buffer. */
    ghost predicate Layout()
      reads this`state, this`raw, this`offset, this`n
    {
      && offset == Reserve(state.client, raw.Length) && offset < raw.Length <= MAX_LEN
      && offset + n <= raw.Length
    }

    ghost predicate Valid()
      reads this, raw, dest
      ensures Valid() ==> offset + n <= raw.Length
    {
      && Layout() && Sane(ideal)
      && (err == Nil ==> Now() == ideal) && err != EOF
      && OnTheWire(base, dest.out, ideal.frames, err)
    }

    /** NewWriterBuffer; it panics where the buffer has no room for payload. */
    constructor (dest: Sink, state: State, op: OpCode, buf: array<byte>, masks: Masks)
      requires Reserve(state.client, buf.Length) < buf.Length <= MAX_LEN
      ensures Valid() && err == Nil && raw == buf && this.dest == dest && this.masks == masks && this.state == state
      ensures ideal == Fresh(op, state.client, false, buf.Length) && base == dest.out
    {
      this.dest, this.state, this.op, this.masks := dest, state, op, masks;
      raw, offset, n := buf, Reserve(state.client, buf.Length), 0;
      noFlush, dirty, fseq, err, draws := false, false, 0, Nil, 0;
      ideal, base := Fresh(op, state.client, false, buf.Length), dest.out;
      new;
      assert raw[offset..offset + n] == [];
      assert dest.out == base + EncodeFrames([]);
    }

    function Size(): nat
      requires offset <= raw.Length
      reads this, raw
    {
      raw.Length - offset
    }

    function Free(): nat
      requires offset + n <= raw.Length
      reads this, raw
    {
      raw.Length - offset - n
    }

    method DisableFlush()
      requires Valid()
      modifies this`noFlush, this`ideal
      ensures Valid() && ideal == old(ideal).(noFlush := true)
    {
      noFlush := true;
      ideal := ideal.(noFlush := true);
    }

    /** flushFragment: sends the buffered bytes as one frame. */
    method SendBuffer(fin: bool) returns (e: Error)
      requires Valid() && err == Nil
      modifies raw, dest`out, this`draws
      ensures Layout()
      ensures var r := Emit(ideal, masks, fin, ideal.buf);
              && draws == r.draws
              && OnTheWire(base, dest.out, r.frames, e)
      ensures (dest.reliable ==> e == Nil) && e != EOF
    {
      hide EncodeFrame, EncodeFrames, NewFrame, OnTheWire;
      var mask := MaskOf(state.client, masks, draws);
      draws := draws + if state.client then 1 else 0;
      var skip;
      ghost var f;
      skip, f := DumpFrame(raw, offset, n, fin, if fseq > 0 then OP_CONTINUATION else op, mask);
      assert Emit(ideal, masks, fin, ideal.buf).frames == ideal.frames + [f];
      var k;
      k, e := dest.Write(raw[skip..offset + n]);
      assert EncodeFrame(f)[..|EncodeFrame(f)|] == EncodeFrame(f);
      Appended(base, ideal.frames, f, old(dest.out), dest.out, e);
    }

    /** Sends the buffer and empties it. */
    method SendFrame(fin: bool)
      requires Valid() && err == Nil
      modifies this`n, this`err, this`draws, this`ideal, raw, dest`out
      ensures Valid() && n == 0 && ideal == Emit(old(ideal), masks, fin, old(ideal).buf).(buf := [])
      ensures dest.reliable ==> err == Nil
    {
      hide Emit, OnTheWire, Reserve;
      var sent := SendBuffer(fin);
      err := sent;
      n := 0;
      ideal := Emit(ideal, masks, fin, ideal.buf).(buf := []);
      assert raw[offset..offset + n] == [];
    }

    /** What the ideal run sends meanwhile only makes the prefix that a failed Writer has sent a shorter one. */
    ghost method GoOn(next: Outgoing)
      requires Valid() && err != Nil && Sane(next) && Extends(ideal, next)
      modifies this`ideal
      ensures Valid() && ideal == next
    {
      hide OnTheWire, Sane;
      StillAPrefix(base, dest.out, ideal, next, err);
      ideal := next;
    }

    method FlushFragment() returns (e: Error)
      requires Valid()
      modifies this`n, this`fseq, this`err, this`draws, this`ideal, raw, dest`out
      ensures Valid() && e == err && ideal == Sending.FlushFragment(old(ideal), masks)
      ensures old(err) != Nil ==> err == old(err) && dest.out == old(dest.out) && n == old(n)
      ensures dest.reliable ==> err == old(err)
      ensures n <= old(n) && (err == Nil ==> n == 0)
    {
      hide Emit, OnTheWire, Reserve, Sane, Part;
      FlushSane(ideal, masks);
      if n == 0 || err != Nil {
        if err != Nil {
          GoOn(Sending.FlushFragment(ideal, masks));
        }
        return err;
      }
      SendFrame(false);
      fseq := fseq + 1;
      ideal := ideal.(fseq := ideal.fseq + 1);
      return err;
    }

    method Flush() returns (e: Error)
      requires Valid()
      modifies this`n, this`dirty, this`fseq, this`err, this`draws, this`ideal, raw, dest`out
      ensures Valid() && e == err && ideal == Sending.Flush(old(ideal), masks) && n <= old(n)
      ensures old(err) != Nil ==> err == old(err) && dest.out == old(dest.out)
      ensures dest.reliable ==> err == old(err)
    {
      hide Emit, OnTheWire, Reserve, Sane, Part;
      FlushSane(ideal, masks);
      if (!dirty && n == 0) || err != Nil {
        if err != Nil {
          GoOn(Sending.Flush(ideal, masks));
        }
        return err;
      }
      SendFrame(true);
      dirty, fseq := false, 0;
      ideal := ideal.(dirty := false, fseq := 0);
      return err;
    }

    /** Sends p[lo..hi] in two writes, header and payload, leaving the buffer alone. */
    method SendDirectly(p: array<byte>, lo: nat, hi: nat) returns (sent: Error)
      requires Valid() && err == Nil && lo <= hi <= p.Length && hi - lo <= MAX_LEN
      modifies this`draws, dest`out
      ensures var r := Emit(ideal, masks, false, p[lo..hi]);
              draws == r.draws && OnTheWire(base, dest.out, r.frames, sent)
      ensures (dest.reliable ==> sent == Nil) && sent != EOF
    {
      hide EncodeFrame, OnTheWire, NewFrame, Reserve;
      var mask := MaskOf(state.client, masks, draws);
      draws := draws + if state.client then 1 else 0;
      var frame := BuildFrame(false, if fseq > 0 then OP_CONTINUATION else op, mask, p, lo, hi);
      assert Emit(ideal, masks, false, p[lo..hi]).frames == ideal.frames + [frame];
      sent := WriteFrame(dest, frame);
      Appended(base, ideal.frames, frame, old(dest.out), dest.out, sent);
    }

    /** Sends p[lo..hi] as a frame of its own, bypassing the buffer, which must be empty. */
    method WriteThrough(p: array<byte>, lo: nat, hi: nat) returns (m: nat, e: Error)
      requires Valid() && lo <= hi <= p.Length && hi - lo <= MAX_LEN
      modifies this`dirty, this`fseq, this`err, this`draws, this`ideal, dest`out
      ensures Valid() && ideal == Sending.WriteThrough(old(ideal), masks, p[lo..hi])
      ensures old(err) != Nil ==> err == old(err) && dest.out == old(dest.out)
      ensures dest.reliable ==> err == old(err)
      ensures e == if err == Nil && n != 0 then NotEmpty else err
      ensures m == if e == Nil then hi - lo else 0
    {
      hide Emit, OnTheWire, Reserve, Sane, Part;
      ThroughSane(ideal, masks, p[lo..hi]);
      if err != Nil {
        GoOn(Sending.WriteThrough(ideal, masks, p[lo..hi]));
        return 0, err;
      }
      if n != 0 {
        return 0, NotEmpty;
      }
      var sent := SendDirectly(p, lo, hi);
      err := sent;
      m := if err == Nil then hi - lo else 0;
      dirty := true;
      fseq := fseq + 1;
      ideal := Sending.WriteThrough(ideal, masks, p[lo..hi]);
      assert raw[offset..offset + n] == [];
      return m, err;
    }

    /** Grows the buffer so that m more bytes of payload fit, keeping what is buffered. */
    method Grow(m: nat)
      requires Valid() && n + m + 14 < MAX_GROWN
      modifies this`raw, this`offset, this`ideal
      ensures Valid() && ideal == Sending.Grow(old(ideal), m)
      ensures raw == old(raw) || fresh(raw)
      ensures raw.Length >= old(raw.Length) && Free() >= m
    {
      hide OnTheWire, Reserve, GrownSize, Sane;
      GrowSane(ideal, m);
      if err != Nil {
        GoOn(Sending.Grow(ideal, m));
      }
      var size, nextOffset := NextSize(state.client, raw.Length, n, m);
      GrownSizeFits(state.client, raw.Length, n, m);
      if size == raw.Length {
        return;
      }
      Relocate(size, nextOffset);
    }

    /** Moves the payload to a larger buffer. */
    method Relocate(size: nat, nextOffset: nat)
      requires Valid() && raw.Length <= size <= MAX_LEN && offset <= nextOffset == Reserve(state.client, size) < size
      requires nextOffset + n <= size && (err == Nil ==> Sane(ideal.(raw := size)))
      modifies this`raw, this`offset, this`ideal
      ensures Valid() && fresh(raw) && raw.Length == size && offset == nextOffset
      ensures ideal == if err == Nil then old(ideal).(raw := size) else old(ideal)
    {
      hide OnTheWire, Reserve, Sane;
      ghost var payload := raw[offset..offset + n];
      raw := Enlarged(raw, offset, n, size, nextOffset);
      offset := nextOffset;
      assert raw[offset..offset + n] == payload;
      if err == Nil {
        ideal := ideal.(raw := size);
      }
    }

    /** copy(w.buf[w.n:], p), counted as buffered. */
    method Buffer(p: array<byte>, lo: nat, hi: nat) returns (k: nat)
      requires Valid() && err == Nil && lo <= hi <= p.Length
      modifies this`n, this`ideal, raw
      ensures Valid() && k == if hi - lo <= old(Free()) then hi - lo else old(Free())
      ensures n == old(n) + k && Sane(old(ideal))
      ensures ideal == old(ideal).(buf := old(ideal).buf + old(p[lo..lo + k]))
    {
      hide OnTheWire, Reserve, Sane, Part;
      PartIs(offset, offset + n);
      k := CopyBehind(raw, offset, n, p, lo, hi);
      PartIs(offset, offset + n);
      PartIs(offset + n, offset + n + k);
      Count(k);
    }

    /** Counts k bytes that have been put behind the buffered ones. */
    method Count(k: nat)
      requires Valid() && k <= Free()
      modifies this`n, this`ideal
      ensures Valid() && n == old(n) + k && (err == Nil ==> Sane(old(ideal)))
      ensures ideal == if err != Nil then old(ideal)
                       else old(ideal).(buf := old(ideal).buf + Part(offset + old(n), offset + old(n) + k))
    {
      hide OnTheWire, Reserve, Sane, Part;
      ghost var w, more := ideal, Part(offset + n, offset + n + k);
      TwoParts(offset, offset + n, offset + n + k);
      n := n + k;
      if err == Nil {
        RoomFor(w, offset, k);
        ideal := w.(buf := w.buf + more);
      }
    }

    /** After a part of a Write of p by w, the rest of it makes of this Writer what all of p makes of w. */
    ghost predicate OnCourse(w: Outgoing, p: seq<byte>, rest: seq<byte>)
      reads this`err, this`ideal
    {
      && Sane(w) && Sane(ideal)
      && if err == Nil then Fill(ideal, masks, rest) == Fill(w, masks, p) else Extends(ideal, Fill(w, masks, p))
    }

    /** Fills the buffer with the first bytes of p[lo..hi] and sends it as a fragment. */
    method FillAndFlush(p: array<byte>, lo: nat, hi: nat) returns (nn: nat)
      requires Valid() && err == Nil && lo <= hi <= p.Length <= MAX_LEN && p != raw
      requires hi - lo > Free() && !noFlush && n > 0
      modifies this`n, this`fseq, this`err, this`draws, this`ideal, raw, dest`out
      ensures Valid() && nn <= hi - lo && OnCourse(old(ideal), p[lo..hi], p[lo + nn..hi])
      ensures p[..] == old(p[..])
      ensures (dest.reliable ==> err == Nil) && (err == Nil ==> n == 0) && n <= old(n) + nn
    {
      hide OnTheWire, Reserve, Fill, Sane, Sending.FlushFragment, Part;
      ghost var w, rest, k := ideal, p[lo..hi], Free();
      assert Available(ideal) == Free() && |ideal.buf| == n;
      FillFlushes(ideal, masks, rest, k);
      ghost var head, tail := p[lo..lo + k], p[lo + k..hi];
      assert head == rest[..k] && tail == rest[k..];
      nn := Buffer(p, lo, hi);
      assert p[lo + nn..hi] == tail;
      var e := FlushFragment();
    }

    /** One round of Write's loop, when p[lo..hi] does not fit into the buffer. */
    method WriteSome(p: array<byte>, lo: nat, hi: nat) returns (nn: nat)
      requires Valid() && err == Nil && lo <= hi <= p.Length <= MAX_LEN && p != raw
      requires hi - lo > Free()
      requires noFlush ==> n + (hi - lo) + 14 < MAX_GROWN
      modifies this, raw, dest`out
      ensures Valid() && nn <= hi - lo && OnCourse(old(ideal), p[lo..hi], p[lo + nn..hi])
      ensures state == old(state) && noFlush == old(noFlush)
      ensures raw == old(raw) || fresh(raw)
      ensures p[..] == old(p[..])
      ensures dest.reliable ==> err == Nil
      ensures err == Nil ==> nn > 0 || (n == 0 && old(n) > 0) || (noFlush && n == old(n) && hi - lo <= Free())
      ensures (noFlush ==> nn == 0 && n == old(n)) && n <= old(n) + nn
    {
      hide OnTheWire, Reserve, Fill, Sane, Sending.Grow, Sending.WriteThrough, Part;
      nn := 0;
      ghost var rest := p[lo..hi];
      assert Available(ideal) == Free() && |ideal.buf| == n;
      if noFlush {
        FillGrows(ideal, masks, rest);
        Grow(hi - lo);
      } else if n == 0 {
        FillThrough(ideal, masks, rest);
        var e;
        nn, e := WriteThrough(p, lo, hi);
        assert err == Nil ==> p[lo + nn..hi] == [];
      } else {
        nn := FillAndFlush(p, lo, hi);
      }
    }

    /** Write's loop: sends or grows until the rest of p[lo..hi] fits. */
    method WriteUntilFits(p: array<byte>, lo: nat, hi: nat) returns (m: nat)
      requires Valid() && lo <= hi <= p.Length <= MAX_LEN && p != raw && err == Nil
      requires noFlush ==> n + (hi - lo) + 14 < MAX_GROWN
      modifies this, raw, dest`out
      ensures Valid() && m <= hi - lo && OnCourse(old(ideal), p[lo..hi], p[lo + m..hi])
      ensures state == old(state) && noFlush == old(noFlush)
      ensures (raw == old(raw) || fresh(raw)) && p != raw
      ensures p[lo..hi] == old(p[lo..hi])
      ensures err == Nil ==> hi - (lo + m) <= Free()
      ensures (dest.reliable ==> err == Nil) && n <= old(n) + m
    {
      hide OnTheWire, Reserve, Fill, Layout, Part;
      m := 0;
      ghost var w, given := ideal, p[lo..hi];
      while hi - (lo + m) > Free() && err == Nil
        invariant Valid() && m <= hi - lo
        invariant state == old(state) && noFlush == old(noFlush)
        invariant (raw == old(raw) || fresh(raw)) && p != raw
        invariant p[lo..hi] == given
        invariant noFlush ==> n + (hi - (lo + m)) + 14 < MAX_GROWN
        invariant OnCourse(w, given, p[lo + m..hi])
        invariant (dest.reliable ==> err == Nil) && n <= old(n) + m
        decreases if err == Nil then 1 else 0, hi - lo - m, n, if hi - (lo + m) > Free() then 1 else 0
      {
        assert p[lo + m..hi] == given[m..];
        var nn := WriteSome(p, lo + m, hi);
        m := m + nn;
      }
    }

    /**
     * Accepts all of p[lo..hi] unless the destination fails. Like a control handler's reply, p may be a part
     * of the gap of the buffer itself, as long as it fits without a flush.
     */
    method Write(p: array<byte>, lo: nat, hi: nat) returns (m: nat, e: Error)
      requires Valid() && lo <= hi <= p.Length <= MAX_LEN
      requires p != raw || (hi <= offset && hi - lo <= Free())
      requires noFlush ==> n + (hi - lo) + 14 < MAX_GROWN
      modifies this, raw, dest`out
      ensures Valid() && e == err && m <= hi - lo && Sane(old(ideal))
      ensures ideal == Sending.Write(old(ideal), masks, old(p[lo..hi]))
      ensures raw == old(raw) || fresh(raw)
      ensures p != old(raw) ==> p[lo..hi] == old(p[lo..hi])
      ensures state == old(state) && noFlush == old(noFlush)
      ensures old(err) != Nil ==> err == old(err) && dest.out == old(dest.out)
      ensures dest.reliable ==> err == old(err)
      ensures (err == Nil ==> m == hi - lo) && n <= old(n) + (hi - lo)
      // bytes that fit are only buffered
      ensures old(err) == Nil && hi - lo <= old(Free()) ==>
        && err == Nil && raw == old(raw) && offset == old(offset) && n == old(n) + (hi - lo) && dest.out == old(dest.out)
        && ideal == old(ideal).(buf := old(ideal).buf + old(p[lo..hi]), dirty := true)
    {
      hide OnTheWire, Reserve, Fill, Sane, Layout, Part;
      dirty := true;
      if err != Nil {
        WriteExtends(ideal, masks, p[lo..hi]);
        GoOn(Sending.Write(ideal, masks, p[lo..hi]));
        return 0, err;
      }
      ideal := ideal.(dirty := true);
      DirtySane(old(ideal));
      m := WriteAll(p, lo, hi);
      return m, err;
    }

    /** The part of Write after the flag has been set. */
    method WriteAll(p: array<byte>, lo: nat, hi: nat) returns (m: nat)
      requires Valid() && err == Nil && lo <= hi <= p.Length <= MAX_LEN
      requires p != raw || (hi <= offset && hi - lo <= Free())
      requires noFlush ==> n + (hi - lo) + 14 < MAX_GROWN
      modifies this, raw, dest`out
      ensures Valid() && m <= hi - lo && Sane(old(ideal)) && ideal == Fill(old(ideal), masks, old(p[lo..hi]))
      ensures raw == old(raw) || fresh(raw)
      ensures p != old(raw) ==> p[lo..hi] == old(p[lo..hi])
      ensures state == old(state) && noFlush == old(noFlush)
      ensures (dest.reliable ==> err == Nil) && (err == Nil ==> m == hi - lo) && n <= old(n) + (hi - lo)
      // bytes that fit are only buffered
      ensures hi - lo <= old(Free()) ==>
        && err == Nil && raw == old(raw) && offset == old(offset) && n == old(n) + (hi - lo) && dest.out == old(dest.out)
        && ideal == old(ideal).(buf := old(ideal).buf + old(p[lo..hi]))
    {
      hide OnTheWire, Reserve, Fill, Sane, Part;
      m := 0;
      if hi - lo <= Free() {
        FillFits(ideal, masks, p[lo..hi]);
      } else {
        ghost var full := Fill(ideal, masks, p[lo..hi]);
        m := WriteUntilFits(p, lo, hi);
        if err != Nil {
          GoOn(full);
          return;
        }
      }
      BufferRest(p, lo + m, hi);
      m := hi - lo;
    }

    /** The end of Write, when p[lo..hi] fits into the buffer. */
    method BufferRest(p: array<byte>, lo: nat, hi: nat)
      requires Valid() && err == Nil && lo <= hi <= p.Length && hi - lo <= Free()
      modifies this`n, this`ideal, raw
      ensures Valid() && Sane(old(ideal)) && ideal == Fill(old(ideal), masks, old(p[lo..hi]))
      ensures n == old(n) + (hi - lo)
      ensures p != raw ==> p[..] == old(p[..])
    {
      hide OnTheWire, Reserve, Fill, Sane, Part;
      FillFits(ideal, masks, p[lo..hi]);
      var nn := Buffer(p, lo, hi);
    }

    /** Reads a chunk into the free part of the buffer. */
    method ReadChunk(src: Source) returns (nn: nat, e: Error)
      requires Valid() && Free() > 0
      modifies this`n, this`ideal, raw, src`data
      ensures Valid() && nn <= |old(src.data)| && nn <= old(Free()) && src.data == old(src.data)[nn..]
      ensures n == old(n) + nn && (err == Nil ==> Sane(old(ideal)))
      ensures ideal == if err == Nil then old(ideal).(buf := old(ideal).buf + old(src.data)[..nn]) else old(ideal)
      ensures old(src.data) != [] ==> nn > 0
      ensures e == if src.data == [] && (nn == 0 || src.eager) then EOF else Nil
    {
      hide OnTheWire, Reserve, Sane, Part;
      PartIs(offset, offset + n);
      nn, e := ReadBehind(raw, offset, n, src);
      PartIs(offset, offset + n);
      PartIs(offset + n, offset + n + nn);
      Count(nn);
    }

    /** One round of ReadFrom's loop. */
    method ReadSome(src: Source) returns (nn: nat, e: Error)
      requires Valid() && (noFlush ==> 2 * n + 14 < MAX_GROWN)
      modifies this, raw, dest`out, src`data
      ensures Valid() && nn <= |old(src.data)| && src.data == old(src.data)[nn..] && Sane(old(ideal))
      ensures state == old(state) && noFlush == old(noFlush)
      ensures raw == old(raw) || fresh(raw)
      ensures var full := Sending.ReadFrom(old(ideal), masks, old(src.data), src.eager);
              && (e == Nil && err == Nil ==> Sending.ReadFrom(ideal, masks, src.data, src.eager) == full)
              && (e == EOF && err == Nil ==> src.data == [] && ideal.(dirty := true) == full)
              && (err != Nil && old(err) == Nil ==> e == err && Extends(ideal, full))
      ensures old(err) != Nil ==> err == old(err) && dest.out == old(dest.out) && ideal == old(ideal)
      ensures (dest.reliable ==> err == old(err)) && (e == Nil || e == EOF || e == err)
      ensures nn == 0 ==> if e == Nil then old(Free()) == 0 && Free() > 0 else Free() > 0 || old(Free()) == 0
      ensures e == EOF ==> src.data == []
      ensures n <= old(n) + nn && (noFlush ==> n == old(n) + nn)
      // after a failure nothing is flushed any more
      ensures old(err) != Nil ==> FailedRound(noFlush, old(Free()), |src.data|, src.eager, nn, Free(), e, err)
    {
      hide OnTheWire, Reserve, Sending.ReadFrom, Sane, Sending.Grow, Sending.FlushFragment, Part;
      assert err == Nil ==> Available(ideal) == Free() && |ideal.buf| == n;
      ghost var w, d := ideal, src.data;
      nn := 0;
      if Free() == 0 {
        if noFlush {
          if err == Nil { ReadFromGrows(w, masks, d, src.eager); }
          Grow(n);
          e := Nil;
        } else {
          if err == Nil { ReadFromFlushes(w, masks, d, src.eager); }
          e := FlushFragment();
        }
        if old(err) != Nil {
          ideal := w;   // what is full here need not be full in a run that has not failed
        }
        return;
      }
      nn, e := ReadChunk(src);
      if err == Nil {
        if nn > 0 {
          ReadFromInChunks(w, masks, d, src.eager, nn);
        } else {
          ReadFromEnds(w, masks, src.eager);
        }
      }
    }

    /**
     * Buffers all that src delivers, flushing or growing when the buffer is full. A Writer that has failed
     * before still takes bytes from src, and reports nil exactly when it sees their end before its buffer is full.
     */
    method ReadFrom(src: Source) returns (total: nat, e: Error)
      requires Valid() && (noFlush ==> 2 * (n + |src.data|) + 14 < MAX_GROWN)
      modifies this, raw, dest`out, src`data
      ensures Valid() && Sane(old(ideal)) && total <= |old(src.data)| && src.data == old(src.data)[total..]
      ensures ideal == Sending.ReadFrom(old(ideal), masks, old(src.data), src.eager)
      ensures state == old(state) && noFlush == old(noFlush)
      ensures raw == old(raw) || fresh(raw)
      ensures old(err) != Nil ==> err == old(err) && dest.out == old(dest.out)
      ensures dest.reliable ==> err == old(err)
      ensures (e == Nil ==> src.data == []) && n <= old(n) + total
      ensures e == Nil || e == err
      ensures err == Nil ==> e == Nil
      ensures old(err) != Nil ==> (e == Nil <==> old(EndsFirst(noFlush, Free(), |src.data|, src.eager)))
    {
      hide OnTheWire, Reserve, Sending.ReadFrom, Sane, Layout, FailedRound, FailedRead, Part;
      ghost var d, room := src.data, Free();
      FailedReadBegins(noFlush, room, |d|, src.eager, err);
      ghost var full := Sending.ReadFrom(ideal, masks, d, src.eager);
      ReadFromExtends(ideal, masks, d, src.eager);
      total, e := 0, Nil;
      while e == Nil
        invariant Valid() && total <= |d| && src.data == d[total..]
        invariant state == old(state) && noFlush == old(noFlush)
        invariant raw == old(raw) || fresh(raw)
        invariant noFlush ==> 2 * (n + |src.data|) + 14 < MAX_GROWN
        invariant old(err) != Nil ==> err == old(err) && dest.out == old(dest.out)
        invariant dest.reliable ==> err == old(err)
        invariant n <= old(n) + total && (e == Nil || e == EOF || e == err)
        invariant e == EOF ==> src.data == []
        invariant e == Nil && err == Nil ==> Sending.ReadFrom(ideal, masks, src.data, src.eager) == full
        invariant e == EOF && err == Nil ==> ideal.(dirty := true) == full
        invariant err != Nil ==> Extends(ideal, full)
        invariant err != Nil && old(err) == Nil ==> e != Nil
        invariant old(err) != Nil ==> FailedRead(noFlush, room, |d|, src.eager, total, Free(), e, err)
        decreases |src.data|, if Free() == 0 then 1 else 0, if e == Nil then 1 else 0
      {
        var nn;
        ghost var free := Free();
        nn, e := ReadSome(src);
        Taken(d, total, nn);
        if old(err) != Nil {
          FailedReadGoesOn(noFlush, room, |d|, src.eager, total, free, nn, Free(), e, err);
        }
        total := total + nn;
      }
      FailedReadEnds(noFlush, room, |d|, src.eager, total, Free(), e, err);
      if e == EOF {
        e := Nil;
        EndOfSource(full);
      } else {
        GoOn(full);
      }
    }

    /** The end of ReadFrom when its source has ended: only now is the message known to be open. */
    method EndOfSource(ghost full: Outgoing)
      requires Valid() && Sane(full)
      requires if err == Nil then ideal.(dirty := true) == full else Extends(ideal, full)
      modifies this`dirty, this`ideal
      ensures Valid() && ideal == full
    {
      hide OnTheWire, Reserve, Sane, Part;
      dirty := true;
      if err == Nil {
        ideal := full;
      } else {
        GoOn(full);
      }
    }
  }

  // Filling the free part of a buffer whose payload is raw[offset..offset + n].

  method CopyBehind(raw: array<byte>, offset: nat, n: nat, p: array<byte>, lo: nat, hi: nat) returns (k: nat)
    requires offset + n <= raw.Length && lo <= hi <= p.Length
    modifies raw
    ensures k == if hi - lo <= raw.Length - offset - n then hi - lo else raw.Length - offset - n
    ensures raw[offset..offset + n] == old(raw[offset..offset + n])
    ensures raw[offset + n..offset + n + k] == old(p[lo..lo + k])
  {
    k := Copy(raw, offset + n, raw.Length, p, lo, hi);
  }

  method ReadBehind(raw: array<byte>, offset: nat, n: nat, src: Source) returns (nn: nat, e: Error)
    requires offset + n < raw.Length
    modifies raw, src`data
    ensures nn <= |old(src.data)| && offset + n + nn <= raw.Length && src.data == old(src.data)[nn..]
    ensures raw[offset..offset + n] == old(raw[offset..offset + n])
    ensures raw[offset + n..offset + n + nn] == old(src.data)[..nn]
    ensures old(src.data) != [] ==> nn > 0
    ensures e == if src.data == [] && (nn == 0 || src.eager) then EOF else Nil
  {
    nn, e := src.Read(raw, offset + n, raw.Length);
  }

  // ReadFrom after a failure, when nothing is flushed any more.

  /** A source of that size shows its end before the free part of the buffer is full, or the buffer may grow. */
  predicate EndsFirst(noFlush: bool, room: nat, size: nat, eager: bool)
  {
    noFlush || size < room || (size == room && room > 0 && eager)
  }

  /** A round that has read nn bytes and left so many in the source. */
  predicate FailedRound(noFlush: bool, room: nat, left: nat, eager: bool, nn: nat, free: nat, e: Error, err: Error)
  {
    if noFlush then e == Nil || e == EOF
    else if room == 0 then nn == 0 && e == err && free == 0
    else free == room - nn && e == if left == 0 && (nn == 0 || eager) then EOF else Nil
  }

  /** After so many bytes in all: e is still Nil, or it is the end of the source or the sticky error. */
  predicate FailedRead(noFlush: bool, room: nat, size: nat, eager: bool, total: nat, free: nat, e: Error, err: Error)
  {
    && (if noFlush then e == Nil || e == EOF else free == room - total)
    && (!noFlush && e == Nil && total == size ==> total == 0 || !eager)
    && (e == EOF ==> EndsFirst(noFlush, room, size, eager))
    && (e != Nil && e != EOF ==> e == err && !EndsFirst(noFlush, room, size, eager))
  }

  lemma FailedReadBegins(noFlush: bool, room: nat, size: nat, eager: bool, err: Error)
    ensures FailedRead(noFlush, room, size, eager, 0, room, Nil, err)
  {}

  lemma FailedReadGoesOn(noFlush: bool, room: nat, size: nat, eager: bool, total: nat, free: nat, nn: nat, after: nat,
                         e: Error, err: Error)
    requires err != Nil && err != EOF && total + nn <= size
    requires FailedRead(noFlush, room, size, eager, total, free, Nil, err)
    requires FailedRound(noFlush, free, size - total - nn, eager, nn, after, e, err)
    ensures FailedRead(noFlush, room, size, eager, total + nn, after, e, err)
  {}

  lemma FailedReadEnds(noFlush: bool, room: nat, size: nat, eager: bool, total: nat, free: nat, e: Error, err: Error)
    requires e != Nil
    ensures FailedRead(noFlush, room, size, eager, total, free, e, err) ==>
              (e == EOF <==> EndsFirst(noFlush, room, size, eager))
  {}

  /** One byte for a failed Writer with room for two: ReadFrom takes it and returns nil, and it is never sent. */
  method FailedReadFromIsNil(w: Writer) returns (total: nat, e: Error)
    requires w.Valid() && w.err != Nil && !w.noFlush && w.Free() >= 2
    modifies w, w.raw, w.dest`out
    ensures total == 1 && e == Nil && w.err != Nil && w.dest.out == old(w.dest.out)
  {
    hide OnTheWire, Sending.ReadFrom, Sane, Writer.Layout;
    var src := new Source([0], false);
    total, e := w.ReadFrom(src);
  }

  // The rounds of ReadFrom's loop.

  lemma {:induction false} ReadFromGrows(w: Outgoing, masks: Masks, d: seq<byte>, eager: bool)
    requires Sane(w) && Available(w) == 0 && w.noFlush
    ensures var r := Sending.Grow(w, |w.buf|);
            Sane(r) && ReadFrom(w, masks, d, eager) == ReadFrom(r, masks, d, eager)
  {
    hide GrownSize;
    GrownSizeFits(w.client, w.raw, |w.buf|, |w.buf|);
  }

  lemma {:induction false} ReadFromFlushes(w: Outgoing, masks: Masks, d: seq<byte>, eager: bool)
    requires Sane(w) && Available(w) == 0 && !w.noFlush
    ensures var r := Sending.FlushFragment(w, masks);
            && Sane(r) && ReadFrom(w, masks, d, eager) == ReadFrom(r, masks, d, eager)
            && Extends(r, ReadFrom(w, masks, d, eager))
  {
    hide Emit;
    ReadFromExtends(Sending.FlushFragment(w, masks), masks, d, eager);
  }

  lemma ReadFromEnds(w: Outgoing, masks: Masks, eager: bool)
    requires Sane(w) && Available(w) > 0
    ensures ReadFrom(w, masks, [], eager) == w.(dirty := true)
  {}

  lemma {:induction false} GrowSane(w: Outgoing, m: nat)
    requires Sane(w)
    ensures Sane(Sending.Grow(w, m))
  {
    hide GrownSize;
    GrownSizeFits(w.client, w.raw, |w.buf|, m);
  }

  lemma {:induction false} FlushSane(w: Outgoing, masks: Masks)
    requires Sane(w)
    ensures Sane(Sending.Flush(w, masks)) && Sane(Sending.FlushFragment(w, masks))
    ensures Extends(w, Sending.Flush(w, masks)) && Extends(w, Sending.FlushFragment(w, masks))
  {
    hide Emit;
  }

  lemma {:induction false} ThroughSane(w: Outgoing, masks: Masks, p: seq<byte>)
    requires Sane(w)
    ensures Sane(Sending.WriteThrough(w, masks, p)) && Extends(w, Sending.WriteThrough(w, masks, p))
  {
    hide Emit;
  }

  /** Bytes that fit into the free part of a buffer keep its machine sane. */
  lemma RoomFor(w: Outgoing, offset: nat, k: nat)
    requires Sane(w) && offset == Reserve(w.client, w.raw) && offset + |w.buf| + k <= w.raw
    ensures forall p: seq<byte> | |p| == k :: Sane(w.(buf := w.buf + p))
  {}

  lemma DirtySane(w: Outgoing)
    requires Sane(w)
    ensures Sane(w.(dirty := true))
  {}

  lemma {:induction false} WriteExtends(w: Outgoing, masks: Masks, p: seq<byte>)
    requires Sane(w)
    ensures Extends(w, Sending.Write(w, masks, p))
  {
    FillExtends(w.(dirty := true), masks, p);
  }

  // The rounds of Write's loop, one lemma for each branch.

  lemma {:induction false} FillGrows(w: Outgoing, masks: Masks, p: seq<byte>)
    requires Sane(w) && |p| > Available(w) && w.noFlush
    ensures Sane(Sending.Grow(w, |p|)) && Fill(Sending.Grow(w, |p|), masks, p) == Fill(w, masks, p)
  {
    hide GrownSize, Reserve, Emit, Sending.FlushFragment, Sending.WriteThrough;
    var r := Sending.Grow(w, |p|);
    GrownSizeFits(w.client, w.raw, |w.buf|, |p|);
    assert |p| <= Available(r);
  }

  lemma {:induction false} FillThrough(w: Outgoing, masks: Masks, p: seq<byte>)
    requires Sane(w) && |p| > Available(w) && !w.noFlush && w.buf == []
    ensures var r := Sending.WriteThrough(w, masks, p);
            Sane(r) && Fill(w, masks, p) == r && Fill(r, masks, []) == r
  {
    hide Emit;
    var r := Sending.WriteThrough(w, masks, p);
    assert r.buf + [] == r.buf;
  }

  lemma {:induction false} FillFlushes(w: Outgoing, masks: Masks, p: seq<byte>, k: nat)
    requires Sane(w) && |p| > Available(w) == k && !w.noFlush && w.buf != []
    ensures var r := Sending.FlushFragment(w.(buf := w.buf + p[..k]), masks);
            Sane(r) && Fill(r, masks, p[k..]) == Fill(w, masks, p) && Extends(r, Fill(w, masks, p))
  {
    hide Emit;
    FillExtends(Sending.FlushFragment(w.(buf := w.buf + p[..k]), masks), masks, p[k..]);
  }

  lemma FillFits(w: Outgoing, masks: Masks, p: seq<byte>)
    requires Sane(w) && |p| <= Available(w)
    ensures Fill(w, masks, p) == w.(buf := w.buf + p)
  {}

  /** A larger buffer whose payload starts at nextOffset and begins with what is buffered in raw. */
  method Enlarged(raw: array<byte>, offset: nat, n: nat, size: nat, nextOffset: nat) returns (p: array<byte>)
    requires offset + n <= raw.Length && offset <= nextOffset && nextOffset + n <= size
    ensures fresh(p) && p.Length == size && p[nextOffset..nextOffset + n] == raw[offset..offset + n]
  {
    p := new byte[size];
    var copied := Copy(p, nextOffset - offset, size, raw, 0, offset + n);
    assert p[nextOffset - offset..nextOffset + n] == raw[0..offset + n];
    assert p[nextOffset..nextOffset + n] == p[nextOffset - offset..nextOffset + n][offset..];
    assert raw[offset..offset + n] == raw[0..offset + n][offset..];
  }

  /** The loop of Grow: it takes at most two rounds. */
  method NextSize(client: bool, raw: nat, buffered: nat, n: nat) returns (size: nat, nextOffset: nat)
    requires Reserve(client, raw) + buffered <= raw <= MAX_LEN && buffered + n + 14 < MAX_GROWN
    ensures size == GrownSize(client, raw, buffered, n) && nextOffset == Reserve(client, size)
    ensures size <= MAX_LEN
  {
    hide CeilPowerOfTwo, NextPowerOfTwo, Reserve;
    size := raw;
    nextOffset := Reserve(client, raw);
    var cap := size - nextOffset - buffered;
    ghost var rounds := 0;
    ghost var first := NextPowerOfTwo(nextOffset + buffered + n);
    GrownSizeFits(client, raw, buffered, n);
    while cap < n
      invariant rounds <= 2 && nextOffset == Reserve(client, size) && cap == size - nextOffset - buffered
      invariant size <= MAX_LEN
      invariant rounds == 0 ==> size == raw
      invariant rounds > 0 ==> raw - Reserve(client, raw) - buffered < n
      invariant rounds == 1 ==> size == first
      invariant rounds == 2 ==> first - Reserve(client, first) - buffered < n
      invariant rounds == 2 ==> size == NextPowerOfTwo(Reserve(client, first) + buffered + n)
      decreases 2 - rounds
    {
      ReserveIsSmall(client, size);
      CeilPowerOfTwoIsNext(nextOffset + buffered + n);
      size := CeilPowerOfTwo(nextOffset + buffered + n);
      nextOffset := Reserve(client, size);
      cap := size - nextOffset - buffered;
      rounds := rounds + 1;
    }
  }

  lemma ReserveIsSmall(client: bool, n: int)
    ensures Reserve(client, n) <= 14
  {}

  /** A frame with p[lo..hi] as payload; a masked one gets a copy, to prevent corruption of caller data. */
  method BuildFrame(fin: bool, op: OpCode, mask: Option<Mask>, p: array<byte>, lo: nat, hi: nat) returns (f: Frame)
    requires lo <= hi <= p.Length
    ensures f == NewFrame(fin, op, mask, p[lo..hi]) && f.header.length == hi - lo
  {
    if mask.Some? {
      var payload := MaskedCopy(p, lo, hi, mask.value, 0);
      f := Frame(DataHeader(fin, op, mask, hi - lo), payload[..]);
    } else {
      f := Frame(DataHeader(fin, op, mask, hi - lo), p[lo..hi]);
    }
  }

  /** Masks the payload raw[offset..offset + n] in place and puts the header of its frame in front of it. */
  method DumpFrame(raw: array<byte>, offset: nat, n: nat, fin: bool, op: OpCode, mask: Option<Mask>)
    returns (skip: nat, ghost f: Frame)
    requires offset + n <= raw.Length <= MAX_LEN && offset == Reserve(mask.Some?, raw.Length)
    modifies raw
    ensures f == NewFrame(fin, op, mask, old(raw[offset..offset + n]))
    ensures skip <= offset && raw[skip..offset + n] == EncodeFrame(f)
  {
    hide EncodeHeader, Masked, Reserve;
    ReserveCoversEveryHeader(mask.Some?, raw.Length, n);
    ghost var payload := raw[offset..offset + n];
    var header := DataHeader(fin, op, mask, n);
    if mask.Some? {
      Cipher(raw, offset, offset + n, mask.value, 0);
    }
    f := Frame(header, raw[offset..offset + n]);
    assert f == NewFrame(fin, op, mask, payload);
    skip := offset - HeaderSize(header);
    ghost var tail := raw[offset..raw.Length];
    SliceOfSlice(raw, offset, raw.Length, n);
    PutHeader(raw, skip, offset, header);
    SliceOfSlice(raw, offset, raw.Length, n);
    TwoSlices(raw, skip, offset, offset + n);
  }

  /** Writes the header into the gap raw[skip..offset] through a bytesWriter, which always has the space. */
  method PutHeader(raw: array<byte>, skip: nat, offset: nat, h: Header)
    requires skip <= offset <= raw.Length && h.length <= LEN64 && offset - skip == HeaderSize(h)
    modifies raw
    ensures raw[skip..offset] == EncodeHeader(h)
    ensures raw[offset..raw.Length] == old(raw[offset..raw.Length])
  {
    hide EncodeHeader;
    var bts, m, err := DumpHeader(h);
    EncodedSize(h);
    assert |bts[..m]| == m;
    ghost var rest := raw[offset..raw.Length];
    var copied := Copy(raw, skip, offset, bts, 0, m);
    assert err == Nil && copied == m;
    assert bts[0..m] == bts[..m];
    assert raw[offset..raw.Length] == rest;
  }

  lemma EncodedSize(h: Header)
    requires h.length <= LEN64
    ensures |EncodeHeader(h)| == HeaderSize(h)
  {}

  /** A frame, or a part of it, appended to what was sent. */
  lemma {:induction false} Appended(base: seq<byte>, fs: seq<Frame>, f: Frame, before: seq<byte>, out: seq<byte>,
      err: Error)
    requires OnTheWire(base, before, fs, Nil)
    requires if err == Nil then out == before + EncodeFrame(f)
             else exists k :: 0 <= k <= |EncodeFrame(f)| && out == before + EncodeFrame(f)[..k]
    ensures OnTheWire(base, out, fs + [f], err)
  {
    hide EncodeFrame, EncodeFrames;
    OneFrame(fs, f);
    var sent, e := EncodeFrames(fs), EncodeFrame(f);
    if err == Nil {
      assert base + sent + e == base + (sent + e);
    } else {
      var k :| 0 <= k <= |e| && out == before + e[..k];
      assert out[|base|..] == sent + e[..k];
      assert sent + e[..k] <= sent + e;
    }
  }

  lemma {:induction false} OneFrame(fs: seq<Frame>, f: Frame)
    ensures EncodeFrames(fs + [f]) == EncodeFrames(fs) + EncodeFrame(f)
  {
    hide EncodeFrame;
    EncodeFramesConcat(fs, [f]);
    assert EncodeFrames([f]) == EncodeFrame(f) + [] == EncodeFrame(f);
  }

  /** What an ideal run sends meanwhile only makes the prefix that was sent a shorter one. */
  lemma {:induction false} StillAPrefix(base: seq<byte>, out: seq<byte>, a: Outgoing, b: Outgoing, err: Error)
    requires OnTheWire(base, out, a.frames, err) && err != Nil && Extends(a, b)
    ensures OnTheWire(base, out, b.frames, err)
  {
    hide EncodeFrames;
    ExtendsOnTheWire(a, b);
  }

  // Constructors (the pools behind GetWriter are not modelled).

  /** NewWriterBufferSize: too small a size selects the default one. */
  method NewWriterBufferSize(dest: Sink, state: State, op: OpCode, n: int, masks: Masks) returns (w: Writer)
    requires n <= MIN_HEADER_SIZE || Reserve(state.client, n) < n <= MAX_LEN
    ensures w.Valid() && fresh(w) && fresh(w.raw) && w.dest == dest && w.masks == masks && w.err == Nil
    ensures w.ideal == Fresh(op, state.client, false, if n <= MIN_HEADER_SIZE then DEFAULT_WRITE_BUFFER else n)
    ensures w.state == state && w.base == dest.out
  {
    var buf := new byte[if n <= MIN_HEADER_SIZE then DEFAULT_WRITE_BUFFER else n];
    w := new Writer(dest, state, op, buf, masks);
  }

  /** NewWriterSize: the buffer has room for exactly n bytes of payload, for every positive n. */
  method NewWriterSize(dest: Sink, state: State, op: OpCode, n: int, masks: Masks) returns (w: Writer)
    requires n <= MAX_LEN - 14
    ensures w.Valid() && fresh(w) && fresh(w.raw) && w.dest == dest && w.masks == masks && w.err == Nil
    ensures w.ideal == Fresh(op, state.client, false, w.raw.Length)
    ensures w.state == state && w.base == dest.out
    ensures n > 0 ==> w.Size() == n
  {
    var size := n;
    if n > 0 {
      SizedBufferFits(state.client, n);
      size := n + HeaderSizeFor(state.client, n);
    }
    w := NewWriterBufferSize(dest, state, op, size, masks);
  }

  /** A Writer for control frames: refuses a single Write beyond the limit. */
  class ControlWriter {
    const w: Writer
    const limit: nat

    constructor (w: Writer, limit: nat)
      ensures this.w == w && this.limit == limit
    {
      this.w, this.limit := w, limit;
    }

    method Write(p: array<byte>, lo: nat, hi: nat) returns (m: nat, e: Error)
      requires w.Valid() && !w.noFlush && lo <= hi <= p.Length <= MAX_LEN
      requires p != w.raw || (hi <= w.offset && hi - lo <= w.Free())
      modifies w, w.raw, w.dest`out
      ensures w.Valid() && !w.noFlush && (w.raw == old(w.raw) || fresh(w.raw)) && Sane(old(w.ideal))
      ensures hi - lo > limit ==>
        m == 0 && e == ControlOverflow && w.ideal == old(w.ideal) && w.err == old(w.err) && w.dest.out == old(w.dest.out)
      ensures hi - lo <= limit ==> e == w.err && w.ideal == Sending.Write(old(w.ideal), w.masks, old(p[lo..hi]))
      ensures p != old(w.raw) ==> p[lo..hi] == old(p[lo..hi])
      ensures w.dest.reliable ==> w.err == old(w.err)
      ensures w.err == Nil && hi - lo <= limit ==> m == hi - lo
      // bytes that fit are only buffered
      ensures old(w.err) == Nil && hi - lo <= limit && hi - lo <= old(w.Free()) ==>
        && w.err == Nil && w.raw == old(w.raw) && w.dest.out == old(w.dest.out) && w.Free() == old(w.Free()) - (hi - lo)
        && w.ideal == old(w.ideal).(buf := old(w.ideal).buf + old(p[lo..hi]), dirty := true)
    {
      if hi - lo > limit {
        return 0, ControlOverflow;
      }
      m, e := w.Write(p, lo, hi);
    }

    method Flush() returns (e: Error)
      requires w.Valid()
      modifies w, w.raw, w.dest`out
      ensures w.Valid() && e == w.err && w.ideal == Sending.Flush(old(w.ideal), w.masks)
      ensures w.dest.reliable ==> w.err == old(w.err)
    {
      e := w.Flush();
    }
  }

  /** NewControlWriterBuffer; of a buffer that is too long only as much as a control frame needs is used. */
  method NewControlWriterBuffer(dest: Sink, state: State, op: OpCode, buf: array<byte>, masks: Masks)
    returns (c: ControlWriter)
    requires Reserve(state.client, buf.Length) < buf.Length <= MAX_LEN
    ensures c.w.Valid() && !c.w.noFlush && fresh(c) && fresh(c.w) && c.w.dest == dest && c.w.masks == masks
    ensures c.w.err == Nil && c.w.base == dest.out && c.limit == c.w.Size()
    ensures c.limit <= MAX_CONTROL_PAYLOAD
    ensures c.w.ideal == Fresh(op, state.client, false, c.w.raw.Length)
    ensures buf.Length <= MAX_CONTROL_PAYLOAD + HeaderSizeFor(state.client, MAX_CONTROL_PAYLOAD) ==> c.w.raw == buf
    ensures c.w.raw == buf || fresh(c.w.raw)
  {
    var max := MAX_CONTROL_PAYLOAD + HeaderSizeFor(state.client, MAX_CONTROL_PAYLOAD);
    var raw := buf;
    if buf.Length > max {
      raw := new byte[max];
    }
    var w := new Writer(dest, state, op, raw, masks);
    c := new ControlWriter(w, w.Size());
  }

  /** writeFrame, WriteMessage: one frame, with a masked copy of p in client state. */
  method WriteMessage(dest: Sink, client: bool, op: OpCode, fin: bool, p: array<byte>, lo: nat, hi: nat, mask: Mask)
    returns (e: Error)
    requires lo <= hi <= p.Length <= MAX_LEN
    modifies dest`out
    ensures e == Nil ==>
      dest.out == old(dest.out) + EncodeFrame(NewFrame(fin, op, if client then Some(mask) else None, p[lo..hi]))
    ensures dest.reliable ==> e == Nil
  {
    hide NewFrame, EncodeFrame;
    var f := BuildFrame(fin, op, if client then Some(mask) else None, p, lo, hi);
    e := WriteFrame(dest, f);
  }
}
