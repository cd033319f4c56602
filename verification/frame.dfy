/** Opcodes, endpoint states, headers, frames and status codes (frame.go and the State type of check.go). */
module Frame {
  import opened Bytes
  import opened Masking

  type OpCode = byte

  const OP_CONTINUATION: OpCode := 0x0
  const OP_TEXT: OpCode := 0x1
  const OP_BINARY: OpCode := 0x2
  const OP_CLOSE: OpCode := 0x8
  const OP_PING: OpCode := 0x9
  const OP_PONG: OpCode := 0xa

  const MAX_CONTROL_PAYLOAD := 125

  /** c & 0x8 != 0 */
  predicate IsControl(c: OpCode)
  {
    c / 8 % 2 == 1
  }

  predicate IsReserved(c: OpCode)
  {
    (0x3 <= c && c <= 0x7) || (0xb <= c && c <= 0xf)
  }

  /** The four bits of a State value. */
  datatype State = State(server: bool, client: bool, extended: bool, fragmented: bool)

  /** length is an int64 in the source; here it is an unbounded integer. */
  datatype Header = Header(fin: bool, rsv: byte, op: OpCode, masked: bool, mask: Mask, length: int)

  datatype Frame = Frame(header: Header, payload: seq<byte>)

  /** The header of a frame with no extension bits, carrying n bytes of payload. */
  function DataHeader(fin: bool, op: OpCode, mask: Option<Mask>, n: nat): Header
  {
    Header(fin, 0, op, mask.Some?, if mask.Some? then mask.value else ZERO_MASK, n)
  }

  datatype Option<+T> = None | Some(value: T)

  /** The payload of a frame as the application sees it. */
  function Unmasked(f: Frame): seq<byte>
  {
    if f.header.masked then Masked(f.payload, f.header.mask, 0) else f.payload
  }

  /** Masks a copy of the payload (NewFrame followed by MaskFrameInPlaceWith). */
  function NewFrame(fin: bool, op: OpCode, mask: Option<Mask>, p: seq<byte>): Frame
  {
    Frame(DataHeader(fin, op, mask, |p|), if mask.Some? then Masked(p, mask.value, 0) else p)
  }

  lemma {:induction false} UnmaskedNewFrame(fin: bool, op: OpCode, mask: Option<Mask>, p: seq<byte>)
    ensures Unmasked(NewFrame(fin, op, mask, p)) == p
  {
    if mask.Some? {
      MaskedTwice(p, mask.value, 0);
    }
  }

  // Status codes (section 7.4 of RFC 6455).

  const STATUS_PROTOCOL_ERROR := 1002
  const STATUS_NO_MEANING_YET := 1004
  const STATUS_NO_STATUS_RCVD := 1005

  predicate IsNotUsed(code: int) { 0 <= code <= 999 }

  predicate IsProtocolSpec(code: int) { 1000 <= code <= 2999 }

  predicate IsProtocolDefined(code: int)
  {
    code in [1000, 1001, 1002, 1003, 1007, 1008, 1009, 1010, 1011, 1005, 1006, 1015]
  }

  predicate IsProtocolReserved(code: int)
  {
    code in [1005, 1006, 1015]
  }
}
