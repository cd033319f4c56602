/** Bodies of close frames (frame.go, read.go, check.go; sections 5.5.1 and 7.4 of RFC 6455). */
module Closing {
  import opened Bytes
  import opened Frame
  import opened Utf8

  /** A body too short for a code gives code 0, which is not in use. */
  function ParseCloseFrameData(payload: seq<byte>): (r: (int, seq<byte>))
  {
    if |payload| < 2 then (0, []) else (Unsigned(payload[..2]), payload[2..])
  }

  function CheckCloseFrameData(code: int, reason: seq<byte>): Error
  {
    if IsNotUsed(code) then Protocol(StatusCodeNotInUse)
    else if IsProtocolReserved(code) then Protocol(StatusCodeApplicationLevel)
    else if code == STATUS_NO_MEANING_YET then Protocol(StatusCodeNoMeaning)
    else if IsProtocolSpec(code) && !IsProtocolDefined(code) then Protocol(StatusCodeUnknown)
    else if !WellFormed(reason) then Protocol(InvalidReason)
    else Nil
  }

  /** The codes that may be received: those that section 7.4.1 defines for use in frames, and all from 3000 on. */
  lemma {:induction false} AcceptedCloseCodes(code: int, reason: seq<byte>)
    requires 0 <= code < 0x1_0000
    ensures CheckCloseFrameData(code, reason) == Nil <==>
      && WellFormed(reason)
      && (1000 <= code <= 1003 || 1007 <= code <= 1011 || 3000 <= code)
  {
    hide WellFormed;
  }

  /** NewCloseFrameBody: the code and as much of the reason as a control frame has room for. */
  function CloseBody(code: int, reason: seq<byte>): (p: seq<byte>)
    ensures |p| <= MAX_CONTROL_PAYLOAD
  {
    BigEndian(code, 2) + reason[..if |reason| < MAX_CONTROL_PAYLOAD - 2 then |reason| else MAX_CONTROL_PAYLOAD - 2]
  }

  lemma {:induction false} ParseCloseBody(code: int, reason: seq<byte>)
    requires 0 <= code < 0x1_0000 && |reason| <= MAX_CONTROL_PAYLOAD - 2
    ensures ParseCloseFrameData(CloseBody(code, reason)) == (code, reason)
  {
    hide BigEndian, Unsigned;
    FitsTwo(code);
    UnsignedBigEndian(code, 2);
    assert CloseBody(code, reason)[..2] == BigEndian(code, 2);
    assert CloseBody(code, reason)[2..] == reason;
  }

  /** The characters of an ASCII text as bytes. */
  function TextBytes(s: string): (r: seq<byte>)
    ensures |r| == |s|
  {
    seq(|s|, i requires 0 <= i < |s| => Byte(s[i] as int))
  }

  /** reason.Error() of the protocol errors that CheckCloseFrameData reports. */
  function ErrorText(e: Error): seq<byte>
  {
    if e == Protocol(StatusCodeNotInUse) then TextBytes("status code is not in use")
    else if e == Protocol(StatusCodeApplicationLevel) then TextBytes("status code is only application level")
    else if e == Protocol(StatusCodeNoMeaning) then TextBytes("status code has no meaning yet")
    else if e == Protocol(StatusCodeUnknown) then TextBytes("status code is not defined in spec")
    else TextBytes("invalid utf8 sequence in close reason")
  }
}
