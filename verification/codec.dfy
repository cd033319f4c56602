/** The wire format of frame headers and frames (write.go, read.go; section 5.2 of RFC 6455). */
module Codec {
  import opened Bytes
  import opened Bits
  import opened Frame

  const LEN7 := 125
  const LEN16 := 0xffff
  const LEN64 := 0x7fff_ffff_ffff_ffff

  /** The number of bytes that encode h, or -1 for a length beyond an int64. */
  function HeaderSize(h: Header): int
  {
    var mask := if h.masked then 4 else 0;
    if h.length < 126 then 2 + mask
    else if h.length <= LEN16 then 4 + mask
    else if h.length <= LEN64 then 10 + mask
    else -1
  }

  /** a | b for two bytes */
  function OrByte(a: byte, b: byte): byte
  {
    assert Pow2(8) == 256;
    OrBound(a, b, 8);
    Or(a, b)
  }

  /** bts[0]: the fin bit, h.Rsv << 4 cut to a byte, and the opcode, or-ed together. */
  function FirstByte(h: Header): byte
  {
    OrByte(OrByte(if h.fin then 0x80 else 0, Byte(h.rsv * 16)), h.op)
  }

  /** The encoding of h, or [] where WriteHeader reports ErrHeaderLengthUnexpected and writes nothing. */
  function EncodeHeader(h: Header): seq<byte>
  {
    var maskBit := if h.masked then 0x80 else 0;
    var mask := if h.masked then h.mask else [];
    if h.length <= LEN7 then [FirstByte(h), SecondByte(Byte(h.length), h.masked)] + mask
    else if h.length <= LEN16 then [FirstByte(h), SecondByte(126, h.masked)] + BigEndian(h.length, 2) + mask
    else if h.length <= LEN64 then [FirstByte(h), SecondByte(127, h.masked)] + BigEndian(h.length, 8) + mask
    else []
  }

  /** bts[1]: the length field with bit 0x80 or-ed in for a masked frame. */
  function SecondByte(length: byte, masked: bool): byte
  {
    if masked && length < 0x80 then 0x80 + length else length
  }

  /** A frame on the wire; a header that cannot be encoded keeps its payload off the wire too. */
  function EncodeFrame(f: Frame): seq<byte>
  {
    EncodeHeader(f.header) + (if f.header.length <= LEN64 then f.payload else [])
  }

  function EncodeFrames(fs: seq<Frame>): seq<byte>
  {
    if fs == [] then [] else EncodeFrame(fs[0]) + EncodeFrames(fs[1..])
  }

  lemma {:induction false} EncodeFramesConcat(fs: seq<Frame>, gs: seq<Frame>)
    ensures EncodeFrames(fs + gs) == EncodeFrames(fs) + EncodeFrames(gs)
  {
    hide EncodeFrame;
    if fs == [] {
      assert fs + gs == gs;
      assert EncodeFrames(fs) + EncodeFrames(gs) == EncodeFrames(gs);
    } else {
      var f, more, all := fs[0], fs[1..], fs + gs;
      EncodeFramesConcat(more, gs);
      assert all[0] == f && all[1..] == more + gs;
      Associative(EncodeFrame(f), EncodeFrames(more), EncodeFrames(gs));
    }
  }

  /** The outcome of reading a header from a stream: an error, the header, and the bytes consumed. */
  datatype HeaderRead = HeaderRead(err: Error, header: Header, used: nat)

  /** The first two bytes decoded; the length field holds the 7 bits of bts[1]. */
  function DecodeStart(b0: byte, b1: byte): Header
  {
    Header(b0 / 0x80 == 1, b0 / 16 % 8, b0 % 16, b1 / 0x80 == 1, ZERO_MASK, b1 % 0x80)
  }

  /** The number of header bytes after the first two. */
  function Extra(start: Header): nat
  {
    (if start.masked then 4 else 0) + (if start.length == 126 then 2 else if start.length == 127 then 8 else 0)
  }

  /** The header from its first two bytes and the extra ones. */
  function DecodeRest(start: Header, bts: seq<byte>): HeaderRead
    requires 0 <= start.length <= 127 && |bts| == Extra(start)
  {
    var k := if start.length == 126 then 2 else if start.length == 127 then 8 else 0;
    var mask := if start.masked then bts[k..] else ZERO_MASK;
    if start.length == 127 && bts[0] / 0x80 == 1 then HeaderRead(HeaderLengthMSB, start, 2 + |bts|)
    else
      var length := if k == 0 then start.length else Unsigned(bts[..k]);
      HeaderRead(Nil, start.(length := length, mask := mask), 2 + |bts|)
  }

  /** What ReadHeader makes of a stream that holds exactly s. */
  function ReadHeaderFrom(s: seq<byte>): (r: HeaderRead)
    ensures r.used <= |s|
    ensures r.err == Nil ==> r.used >= 2
  {
    var none := Header(false, 0, 0, false, ZERO_MASK, 0);
    if |s| < 2 then HeaderRead(if s == [] then EOF else UnexpectedEOF, none, |s|)
    else
      var start := DecodeStart(s[0], s[1]);
      var extra := Extra(start);
      if |s| < 2 + extra then HeaderRead(if |s| == 2 then EOF else UnexpectedEOF, start, |s|)
      else DecodeRest(start, s[2..2 + extra])
  }

  /** A header that has an encoding of its own. */
  predicate WellFormed(h: Header)
  {
    h.rsv < 8 && h.op < 16 && 0 <= h.length <= LEN64 && (h.masked || h.mask == ZERO_MASK)
  }

  /** On legal fields the three or-ed parts of the first byte do not overlap. */
  lemma {:induction false} FirstByteFields(h: Header)
    requires h.rsv < 8 && h.op < 16
    ensures FirstByte(h) == (if h.fin then 0x80 else 0) + h.rsv * 16 + h.op
  {
    hide Or;
    var fin: nat := if h.fin then 1 else 0;
    OrHigh(fin, h.rsv);
    OrLow(8 * fin + h.rsv, h.op);
    assert Byte(h.rsv * 16) == 16 * h.rsv;
  }

  lemma {:induction false} OrHigh(fin: nat, rsv: nat)
    requires rsv < 8
    ensures Or(128 * fin, 16 * rsv) == 128 * fin + 16 * rsv
  {
    JoinSum(fin, 0, 7, 128);
    JoinSum(fin, 16 * rsv, 7, 128);
    OrDisjoint(fin, 16 * rsv, 7);
  }

  lemma {:induction false} OrLow(hi: nat, op: nat)
    requires op < 16
    ensures Or(16 * hi, op) == 16 * hi + op
  {
    JoinSum(hi, 0, 4, 16);
    JoinSum(hi, op, 4, 16);
    OrDisjoint(hi, op, 4);
  }

  lemma {:induction false} FirstByteDecodes(h: Header, b1: byte)
    requires h.rsv < 8 && h.op < 16
    ensures var start := DecodeStart(FirstByte(h), b1); start.fin == h.fin && start.rsv == h.rsv && start.op == h.op
  {
    hide FirstByte;
    FirstByteFields(h);
  }

  /** ReadHeader on WriteHeader's bytes, whatever follows them, gives the header back and takes just those bytes. */
  lemma {:induction false} HeaderRoundTrip(h: Header, suffix: seq<byte>)
    requires WellFormed(h)
    ensures |EncodeHeader(h)| == HeaderSize(h)
    ensures ReadHeaderFrom(EncodeHeader(h) + suffix) == HeaderRead(Nil, h, |EncodeHeader(h)|)
  {
    hide FirstByte, BigEndian, Unsigned;
    if h.length <= LEN7 {
      ShortRoundTrip(h, suffix);
    } else {
      LongRoundTrip(h, suffix, if h.length <= LEN16 then 2 else 8);
    }
  }

  lemma {:induction false} ShortRoundTrip(h: Header, suffix: seq<byte>)
    requires WellFormed(h) && h.length <= LEN7
    ensures ReadHeaderFrom(EncodeHeader(h) + suffix) == HeaderRead(Nil, h, |EncodeHeader(h)|)
  {
    hide FirstByte;
    var s := EncodeHeader(h) + suffix;
    var mask := if h.masked then h.mask else [];
    FirstByteDecodes(h, s[1]);
    assert s[2..2 + |mask|] == mask;
    assert h.masked ==> mask[0..] == mask;
  }

  lemma {:induction false} LongRoundTrip(h: Header, suffix: seq<byte>, k: nat)
    requires WellFormed(h) && h.length > LEN7 && k == if h.length <= LEN16 then 2 else 8
    ensures ReadHeaderFrom(EncodeHeader(h) + suffix) == HeaderRead(Nil, h, |EncodeHeader(h)|)
  {
    hide FirstByte, BigEndian, Unsigned;
    var s := EncodeHeader(h) + suffix;
    var mask := if h.masked then h.mask else [];
    var field := BigEndian(h.length, k);
    FirstByteDecodes(h, s[1]);
    FitsTwo(h.length);
    FitsEight(h.length);
    UnsignedBigEndian(h.length, k);
    TopByte(h.length);
    var bts := field + mask;
    assert s[2..2 + k + |mask|] == bts;
    assert bts[..k] == field && bts[k..] == mask;
  }

  /** Whatever ReadHeader accepts is a well-formed header. */
  lemma {:induction false} ReadHeaderWellFormed(s: seq<byte>)
    requires ReadHeaderFrom(s).err == Nil
    ensures WellFormed(ReadHeaderFrom(s).header)
  {
    hide BigEndian, Unsigned;
    var start := DecodeStart(s[0], s[1]);
    var bts := s[2..2 + Extra(start)];
    var k := if start.length == 126 then 2 else if start.length == 127 then 8 else 0;
    var field := bts[..k];
    BigEndianUnsigned(field);
    FitsTwo(Unsigned(field));
    FitsEight(Unsigned(field));
    if k == 8 {
      assert field[0] == bts[0];
      TopByte(Unsigned(field));
    }
  }

  /** A header survives the wire exactly when it is well-formed. */
  lemma {:induction false} SurvivesIffWellFormed(h: Header, suffix: seq<byte>)
    requires h.length <= LEN64
    ensures ReadHeaderFrom(EncodeHeader(h) + suffix) == HeaderRead(Nil, h, |EncodeHeader(h)|) <==> WellFormed(h)
  {
    hide *;
    if WellFormed(h) {
      HeaderRoundTrip(h, suffix);
    }
    if ReadHeaderFrom(EncodeHeader(h) + suffix) == HeaderRead(Nil, h, |EncodeHeader(h)|) {
      ReadHeaderWellFormed(EncodeHeader(h) + suffix);
    }
  }

  /** Of all encodings that ReadHeader accepts for a header, WriteHeader's is the only one that is not longer. */
  lemma {:induction false} EncodingIsShortest(s: seq<byte>)
    requires ReadHeaderFrom(s).err == Nil
    ensures var r := ReadHeaderFrom(s);
            && |EncodeHeader(r.header)| <= r.used
            && (|EncodeHeader(r.header)| == r.used <==> EncodeHeader(r.header) == s[..r.used])
  {
    hide FirstByte, BigEndian, Unsigned;
    var r := ReadHeaderFrom(s);
    ReadHeaderWellFormed(s);
    var start := DecodeStart(s[0], s[1]);
    var bts := s[2..2 + Extra(start)];
    var k := if start.length == 126 then 2 else if start.length == 127 then 8 else 0;
    var field := bts[..k];
    BigEndianUnsigned(field);
    FirstByteFields(r.header);
    FitsTwo(Unsigned(field));
    assert s[..r.used] == [s[0], s[1]] + field + bts[k..];
    if |EncodeHeader(r.header)| == r.used {
      assert r.header.length == if k == 0 then start.length else Unsigned(field);
      assert FirstByte(r.header) == s[0];
    }
  }

  /** A cut encoding: io.EOF also if just its first two bytes are there, although more must follow. */
  lemma {:induction false} CutHeader(h: Header, k: nat)
    requires WellFormed(h) && k < |EncodeHeader(h)|
    ensures ReadHeaderFrom(EncodeHeader(h)[..k]).err == if k == 0 || k == 2 then EOF else UnexpectedEOF
  {
    hide FirstByte, BigEndian, Unsigned;
    var s := EncodeHeader(h)[..k];
    HeaderRoundTrip(h, []);
    if k >= 2 {
      FirstByteDecodes(h, s[1]);
    }
  }

  /** The first two bytes of a binary frame with 126 bytes or more, and nothing else. */
  lemma HeaderCutAfterTwo()
    ensures ReadHeaderFrom([0x82, 0x7e]).err == EOF
  {}

  /** ReadHeader reports io.EOF not only at the end of the stream, but also right after the first two bytes. */
  lemma HeaderEOF(s: seq<byte>)
    ensures ReadHeaderFrom(s).err == EOF <==>
      s == [] || (|s| == 2 && Extra(DecodeStart(s[0], s[1])) > 0)
  {}

  // The wire format by position (section 5.2 of RFC 6455).

  /** The bytes of an encoded header, one by one. */
  lemma {:induction false} EncodedLayout(h: Header)
    requires WellFormed(h)
    ensures var s, n := EncodeHeader(h), h.length;
            var k := if n <= 125 then 0 else if n < 65536 then 2 else 8;
            && |s| == 2 + k + (if h.masked then 4 else 0)
            && s[0] == (if h.fin then 128 else 0) + 16 * h.rsv + h.op
            && s[1] == (if h.masked then 128 else 0) + (if n <= 125 then n else if n < 65536 then 126 else 127)
            && (126 <= n < 65536 ==> s[2] == n / 256 && s[3] == n % 256)
            && (65536 <= n ==> forall i :: 0 <= i < 8 ==> s[2..10][i] == n / Power(7 - i) % 256)
            && (h.masked ==> forall i :: 0 <= i < 4 ==> s[2 + k + i] == h.mask[i])
  {
    hide FirstByte, BigEndian, Power;
    FirstByteFields(h);
    var k := if h.length <= 125 then 0 else if h.length < 65536 then 2 else 8;
    if k == 2 {
      TwoBytes(h.length);
    }
    if k == 8 {
      forall i | 0 <= i < 8
        ensures BigEndian(h.length, 8)[i] == h.length / Power(7 - i) % 256
      {
        BigEndianAt(h.length, 8, i);
      }
    }
  }

  lemma {:induction false} TwoBytes(n: nat)
    requires n < 65536
    ensures BigEndian(n, 2) == [n / 256, n % 256]
  {
    assert BigEndian(n / 256, 1) == [Byte(n / 256)];
  }

  /** The fields of a header that ReadHeader accepts, one by one; the rest of the stream does not matter. */
  lemma {:induction false} DecodedLayout(s: seq<byte>)
    requires ReadHeaderFrom(s).err == Nil
    ensures |s| >= 2
    ensures var h, used, n := ReadHeaderFrom(s).header, ReadHeaderFrom(s).used, s[1] % 128;
            var k := if n <= 125 then 0 else if n == 126 then 2 else 8;
            && used == 2 + k + (if s[1] >= 128 then 4 else 0) <= |s|
            && h.fin == (s[0] >= 128) && h.rsv == s[0] / 16 % 8 && h.op == s[0] % 16 && h.masked == (s[1] >= 128)
            && (n <= 125 ==> h.length == n)
            && (n == 126 ==> h.length == 256 * (s[2] as int) + s[3] as int)
            && (n == 127 ==> s[2] < 128 && h.length < Power(8)
                             && forall i :: 0 <= i < 8 ==> s[2..10][i] == h.length / Power(7 - i) % 256)
            && h.mask == if h.masked then s[2 + k..6 + k] else [0, 0, 0, 0]
  {
    hide Unsigned, Power;
    var start := DecodeStart(s[0], s[1]);
    var k := if start.length == 126 then 2 else if start.length == 127 then 8 else 0;
    var bts := s[2..2 + Extra(start)];
    var field := s[2..2 + k];
    SliceInSlice(s, 2, 2 + Extra(start), k);
    if k == 2 {
      UnsignedOfTwo(field);
    }
    UnsignedAt(field);
  }

  /** The error of ReadHeader: the stream is too short, or a length of 64 bits has its first bit set. */
  lemma {:induction false} DecodedIff(s: seq<byte>)
    ensures var k := if |s| < 2 || s[1] % 128 <= 125 then 0 else if s[1] % 128 == 126 then 2 else 8;
            var size := if |s| < 2 then 2 else 2 + k + if s[1] >= 128 then 4 else 0;
            ReadHeaderFrom(s).err == if |s| < size then (if |s| == 0 || |s| == 2 then EOF else UnexpectedEOF)
                                     else if k == 8 && s[2] >= 128 then HeaderLengthMSB else Nil
  {
    hide Unsigned;
  }
}
