/** Reading and writing headers and frames on a transport (read.go, write.go). */
module Wire {
  import opened Bytes
  import opened Frame
  import opened Codec
  import opened Stream

  const MAX_HEADER_SIZE := 14
  const MIN_HEADER_SIZE := 2

  /** binary.BigEndian.PutUint16 and PutUint64 */
  method PutBigEndian(bts: array<byte>, at: nat, x: int, size: nat)
    requires at + size <= bts.Length
    modifies bts
    ensures bts[at..at + size] == BigEndian(x, size)
    ensures forall k :: 0 <= k < bts.Length && !(at <= k < at + size) ==> bts[k] == old(bts[k])
  {
    hide BigEndian;
    var s := BigEndian(x, size);
    forall k | 0 <= k < size {
      bts[at + k] := s[k];
    }
  }

  /** copy(bts[at:], mask[:]) */
  method PutMask(bts: array<byte>, at: nat, mask: Mask)
    requires at + 4 <= bts.Length
    modifies bts
    ensures bts[at..at + 4] == mask
    ensures forall k :: 0 <= k < bts.Length && !(at <= k < at + 4) ==> bts[k] == old(bts[k])
  {
    forall k | 0 <= k < 4 {
      bts[at + k] := mask[k];
    }
  }

  /** Builds the encoding of h at the start of a buffer, up to the point where WriteHeader writes it. */
  method DumpHeader(h: Header) returns (bts: array<byte>, n: nat, err: Error)
    ensures fresh(bts) && n <= bts.Length
    ensures err == if h.length <= LEN64 then Nil else HeaderLengthUnexpected
    ensures err == Nil ==> bts[..n] == EncodeHeader(h)
  {
    hide FirstByte, BigEndian;
    bts := new byte[MAX_HEADER_SIZE];
    bts[0] := FirstByte(h);
    if h.length > LEN64 {
      return bts, 0, HeaderLengthUnexpected;
    }
    err := Nil;
    n := DumpLength(bts, h.length);
    ghost var end, field := n, bts[2..n];
    bts[1] := SecondByte(bts[1], h.masked);
    if h.masked {
      PutMask(bts, n, h.mask);
      n := n + 4;
    }
    assert bts[2..end] == field && bts[end..n] == if h.masked then h.mask else [];
    TwoSlices(bts, 2, end, n);
    assert bts[0..2] == [bts[0], bts[1]];
    TwoSlices(bts, 0, 2, n);
    assert bts[..n] == bts[0..n];
  }

  /** The length in its shortest form: in bts[1], or after it. */
  method DumpLength(bts: array<byte>, length: int) returns (n: nat)
    requires length <= LEN64 && bts.Length == MAX_HEADER_SIZE
    modifies bts
    ensures n == if length <= LEN7 then 2 else if length <= LEN16 then 4 else 10
    ensures bts[0] == old(bts[0]) && bts[1] == if n == 2 then Byte(length) else if n == 4 then 126 else 127
    ensures bts[2..n] == if n == 2 then [] else BigEndian(length, n - 2)
  {
    hide BigEndian;
    if length <= LEN7 {
      bts[1] := Byte(length);
      n := 2;
    } else if length <= LEN16 {
      bts[1] := 126;
      PutBigEndian(bts, 2, length, 2);
      n := 4;
    } else {
      bts[1] := 127;
      PutBigEndian(bts, 2, length, 8);
      n := 10;
    }
  }

  method WriteHeader(w: Sink, h: Header) returns (err: Error)
    modifies w`out
    ensures err == Nil ==> h.length <= LEN64 && w.out == old(w.out) + EncodeHeader(h)
    ensures exists k :: 0 <= k <= |EncodeHeader(h)| && w.out == old(w.out) + EncodeHeader(h)[..k]
    ensures w.reliable && h.length <= LEN64 ==> err == Nil
    ensures err != EOF
  {
    hide FirstByte, BigEndian;
    var bts, n, dumped := DumpHeader(h);
    if dumped != Nil {
      assert w.out == old(w.out) + EncodeHeader(h)[..0];
      return dumped;
    }
    var k;
    k, err := w.Write(bts[..n]);
    assert w.out == old(w.out) + EncodeHeader(h)[..k];
  }

  method WriteFrame(w: Sink, f: Frame) returns (err: Error)
    modifies w`out
    ensures err == Nil ==> f.header.length <= LEN64 && w.out == old(w.out) + EncodeFrame(f)
    ensures exists k :: 0 <= k <= |EncodeFrame(f)| && w.out == old(w.out) + EncodeFrame(f)[..k]
    ensures w.reliable && f.header.length <= LEN64 ==> err == Nil
    ensures err != EOF
  {
    hide EncodeHeader;
    err := WriteHeader(w, f.header);
    ghost var e := EncodeHeader(f.header);
    if err != Nil {
      ghost var k :| 0 <= k <= |e| && w.out == old(w.out) + e[..k];
      assert EncodeFrame(f)[..k] == e[..k];
      return err;
    }
    var n;
    n, err := w.Write(f.payload);
    assert EncodeFrame(f)[..|e| + n] == e + f.payload[..n];
    assert w.out == old(w.out) + EncodeFrame(f)[..|e| + n];
  }

  method ReadHeader(r: Source) returns (h: Header, err: Error)
    modifies r`data
    ensures var s := ReadHeaderFrom(old(r.data));
            && err == s.err
            && r.data == old(r.data)[s.used..]
            && (err == Nil ==> h == s.header)
  {
    hide Unsigned;
    ghost var s := r.data;
    h := Header(false, 0, 0, false, ZERO_MASK, 0);
    var bts := new byte[MAX_HEADER_SIZE - 2];
    var n;
    n, err := ReadFull(r, bts, 0, 2);
    if err != Nil {
      return;
    }
    assert bts[0] == bts[0..2][0] == s[0] && bts[1] == bts[0..2][1] == s[1];
    h := h.(fin := bts[0] / 0x80 == 1, rsv := bts[0] / 16 % 8, op := bts[0] % 16);
    var extra := 0;
    if bts[1] / 0x80 == 1 {
      h := h.(masked := true);
      extra := extra + 4;
    }
    var length := bts[1] % 0x80;
    if length < 126 {
      h := h.(length := length);
    } else if length == 126 {
      extra := extra + 2;
    } else {
      extra := extra + 8;
    }
    if extra == 0 {
      assert s[2..2] == [];
      return;
    }
    ghost var start := DecodeStart(s[0], s[1]);
    assert extra == Extra(start);
    ghost var after := r.data;
    n, err := ReadFull(r, bts, 0, extra);
    if err != Nil {
      return;
    }
    ghost var rest := s[2..2 + extra];
    assert after == s[2..] && rest == after[..extra];
    assert bts[0..extra] == rest;
    var k := 0;
    if length == 126 {
      h := h.(length := Unsigned(bts[..2]));
      k := 2;
    } else if length == 127 {
      assert bts[0] == rest[0];
      if bts[0] / 0x80 == 1 {
        return h, HeaderLengthMSB;
      }
      h := h.(length := Unsigned(bts[..8]));
      k := 8;
    }
    assert bts[..k] == rest[..k];
    if h.masked {
      assert bts[k..extra] == rest[k..];
      h := h.(mask := bts[k..extra]);
    }
  }

  /** ReadFrame does not unmask the payload. */
  method ReadFrame(r: Source) returns (f: Frame, err: Error)
    modifies r`data
    ensures var s := ReadHeaderFrom(old(r.data)); var rest := old(r.data)[s.used..];
            if s.err != Nil then err == s.err
            else if s.header.length <= |rest| then
              err == Nil && f == Frame(s.header, rest[..s.header.length]) && r.data == rest[s.header.length..]
            else err == if rest == [] then EOF else UnexpectedEOF
  {
    var h;
    ghost var s := ReadHeaderFrom(r.data);
    if s.err == Nil {
      ReadHeaderWellFormed(r.data);
    }
    h, err := ReadHeader(r);
    f := Frame(h, []);
    if err != Nil {
      return;
    }
    if h.length > 0 {
      var p := new byte[h.length];
      var n;
      n, err := ReadFull(r, p, 0, p.Length);
      f := Frame(h, p[..]);
      assert p[..] == p[0..p.Length];
    }
  }
}
