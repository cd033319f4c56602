# The framing layer of mogusocket, verified

A Dafny model of the RFC 6455 framing layer of a Go WebSocket library. Bytes given to a `Writer` on one side
become frames, and a `Reader` on the other side turns frames back into the same bytes. The modules follow the
source files:

| module | file | models |
|---|---|---|
| `Bytes`, `Bits` | bytes.dfy, bits.dfy | bytes, big-endian numbers, shifts, or, xor, the next power of two |
| `Masking` | cipher.dfy | `Cipher` and what masking means |
| `Frame`, `Check`, `Codec`, `Closing` | frame.dfy, check.dfy, codec.dfy, close.dfy | opcodes, headers, protocol checks, the wire format, close bodies |
| `Stream`, `Wire` | stream.dfy, wire.dfy | transports, `io.LimitedReader`, `CipherReader`, `CipherWriter`, reading and writing headers and frames |
| `Utf8`, `TextReader` | utf8.dfy, utf8reader.dfy | the UTF-8 automaton and `UTF8Reader` |
| `Messages`, `Sending`, `Writing` | message.dfy, sending.dfy, writer.dfy | gluing frames, the Writer as a machine on values, `Writer` and `ControlWriter` |
| `Receiving`, `Reading` | receiving.dfy, reader.dfy | what a Reader makes of a byte stream, `Reader` and `ControlHandler` |
| `Helper`, `Answering` | helper.dfy, answers.dfy | `ReadMessage` and `readData`, what replies to control frames mean |
| `EndToEnd`, `Cutting` | endtoend.dfy, cut.dfy | the theorems from one side to the other, and those on streams that are cut |
| `Refusing` | refuse.dfy | frames that end the reading: unlawful ones and closes |
| `Octets` | octets.dfy | frames octet by octet, with numbers for opcodes and fields, and the examples of section 5.7 of RFC 6455 |

How the parts fit together:

- Objects that the source updates in place are classes over byte arrays. Their methods are proved against
  functions on values: `Writer` against the machine in `Sending`, `Reader` against the functions in `Receiving`.
- A slice `p[lo:hi]` is an array with two bounds. A `Source` delivers a fixed byte sequence in nonempty chunks of
  its own choosing, with io.EOF together with the last bytes or after them. A `Sink` may fail at any byte unless
  it is `reliable`. Buffers of helpers such as `io.Copy` have any size.
- Masks are any four bytes: `masks(k)` is the k-th one that a Writer draws, or the one for the k-th control frame that
  a handler answers. So two runs with the same masks can be compared.
- The `ghost` field `ideal` of a `Writer` is the run of the same calls with the same masks when no write ever
  fails. `Valid` says that the destination holds exactly what that run sends, or a prefix of it after a failure.
- `Receiving.MessageTail` is what is left of a message, as a function of the whole stream. Every `Read` takes what
  it delivers off it, whatever the chunks and buffers are.
- Lengths of headers are bounded by 2^63 as in the source, buffers by 2^62; stream positions are unbounded.

Where the code does not do what its comments or the protocol ask, the model follows the code, a lemma gives the
exact condition, and another one an input that fails:

- `ControlWriter` never updates its count (msutil/writer.go:75-80), so its limit holds for each Write alone:
  `Sending.OneControlFrame`, `Sending.TwoPartsTwoFrames`.
- `closeWithProtocolError` masks the payload in client state and drops the header that says so
  (msutil/handler.go:214-217): `Answering.UnlawfulCloseIsRefused`, `Answering.MaskedCloseIsRefused`.
- `ReadHeader` returns io.EOF for a header that is cut after two bytes (read.go:68-71): `Codec.HeaderEOF`,
  `Codec.CutHeader`, `Codec.HeaderCutAfterTwo`.
- `Discard` does not report a message that is cut after the header of its final frame (msutil/reader.go:146-152):
  `Cutting.RestIsCut`, `Cutting.MessageIsCut`, `Cutting.DiscardCut`, `Helper.CutIsDiscarded`.
- A close frame inside a fragmented message whose body is missing makes a `ControlFrameHandler` return io.EOF,
  which `io.ReadAll` takes for the end of the message: `Helper.EndsInEOF`, `Helper.NilMeansComplete`,
  `Helper.MissingRestIsEOF`.
- `ReadFrom` of a `Writer` that has failed before returns nil if it sees the end of its source before its buffer
  is full (msutil/writer.go:423-467): the last clause of `Writing.Writer.ReadFrom`, `Writing.FailedReadFromIsNil`.

## Model

| member | source | states |
|---|---|---|
| `EndToEnd.SendAndReceive` | msutil/writer.go:260-537 | any calls on a new Writer with any buffer size and masks, Grow and DisableFlush included, then Flush, and a Reader of the other side in any chunks: it delivers exactly the accepted bytes of every message with the Writer's opcode, and stops right before what follows |
| `EndToEnd.FlushAndReceive` | msutil/reader.go:94-243 | the same for a Writer object of any history, including growth with disabled flushing |
| `EndToEnd.RunIsReceived` | msutil/writer.go:469-494 | after any run closed by Flush nothing is left open, and the peer's parse of the wire gives the accepted messages and the untouched suffix |
| `EndToEnd.OneMessageIsReceived` | msutil/writer.go:286-494 | one message, split into calls of any kind in any way (WriteThrough with nothing buffered, as it refuses otherwise) and closed by Flush, is received as the concatenation of all its parts |
| `EndToEnd.Perform` | msutil/writer.go:260-530 | whole runs on the object, Grow and DisableFlush included: the machine is followed step by step; after a failure nothing more is sent; what was sent is a prefix of what the unfailing run sends |
| `EndToEnd.PerformNew` | msutil/writer.go:496-530 | a new Writer after any calls, on its destination: all its frames or a prefix after a failure, and the k-th frame of a client carries the k-th mask drawn |
| `EndToEnd.RestArrives` | msutil/reader.go:166-243 | frames that finish a message by section 5.4 of RFC 6455, controls injected anywhere, arrive as the glued unmasked payloads and the sequence of control frames, and the stream stands right after the last frame |
| `EndToEnd.MessageArrives` | msutil/reader.go:94-140 | the same for whole messages, single or fragmented |
| `EndToEnd.UnwantedIsSkipped` | msutil/helper.go:267-272 | readData passes over any lawful conversation of unwanted messages, answering every control frame in it |
| `EndToEnd.FirstWantedIsHeard` | msutil/helper.go:247-278 | on lawful frames without a close, readData returns the first wanted message, ErrInvalidUTF8 exactly if it is text and not well-formed, after answering all control frames before its end |
| `EndToEnd.GluedIsReceived` | msutil/reader.go:208-240 | frames that glue to whole messages are received as these messages |
| `EndToEnd.LastPiece` | msutil/writer.go:532-537 | frames that glue to messages fall apart into one run of frames per message: opcode first, continuations after it, Fin on the last only |
| `EndToEnd.ReceiveMessages` | msutil/reader.go:94-243 | reading message after message with NextFrame and io.ReadAll gives what the stream holds, and a handler that does not reply gets every control frame inside a message once and in order |
| `EndToEnd.ReceiveTalk` | msutil/reader.go:94-243 | a Reader on any lawful frames: every message glued from its fragments, every control frame inside one handled, and the source right after the last frame |
| `EndToEnd.ItemsAreReceived` | msutil/reader.go:166-243 | the same of the stream alone: control frames between messages are messages of their own, and those inside are not part of the data |
| `EndToEnd.TalkInItems` | check.go:80-120 | every sequence that the grammar of section 5.4 of RFC 6455 allows falls into such messages |
| `EndToEnd.ReadLawfulData` | msutil/helper.go:247-278 | readData on lawful frames without a close returns the first wanted message, leaves the stream just after it, and has written exactly one lawful pong with the same payload for each ping before its end, in order of arrival |
| `EndToEnd.FrameArrives` | read.go:99-113 | a frame on the wire gives back its header, its unmasked payload and the stream behind it |
| `Sending.RunIsConsistent` | msutil/writer.go:286-537 | every run keeps this: the frames sent are whole messages and at most one open one with the Writer's opcode, sent and buffered bytes are the accepted bytes, and the fragment number and dirty flag say what is open |
| `Sending.EachFrameHasItsMask` | msutil/writer.go:505-515 | in any run of a client the k-th frame carries the k-th mask drawn, and no mask is drawn for anything else; a server draws none and masks nothing |
| `Sending.WriteInFull` | msutil/writer.go:286-326 | what a Write does that does not fit: an empty buffer is bypassed, another one is filled and sent, and the rest is buffered or sent |
| `Sending.ReadFromFillsFragments` | msutil/writer.go:423-467 | all that ReadFrom sends are fragments that fill the buffer, and its last bytes stay buffered unless they fill it |
| `Sending.OneMessageIsAccepted` | msutil/writer.go:286-467 | however a message is split into calls, with no WriteThrough refused, the bytes accepted for it are all that was given |
| `Sending.EmitGlues` | msutil/writer.go:496-530 | what one more frame does to the messages on the wire |
| `Sending.FillIsConsistent` | msutil/writer.go:286-326 | the loop of Write accepts all of p, whichever way its parts go |
| `Sending.ReadFromIsConsistent` | msutil/writer.go:423-467 | ReadFrom accepts all that the source delivers |
| `Sending.FlushIsConsistent` | msutil/writer.go:469-481 | Flush closes the message with exactly the accepted bytes |
| `Sending.WriteThroughIsConsistent` | msutil/writer.go:379-420 | WriteThrough accepts p as a fragment of its own, or nothing when bytes are buffered |
| `Sending.ReadFromInChunks` | msutil/writer.go:423-467 | the chunks of the source of ReadFrom make no difference to what is sent |
| `Sending.NoFlushSendsOneFrame` | msutil/writer.go:260-262 | with flushing disabled, any Writes, ReadFroms and Grows and then Flush send exactly one final frame that holds everything, or none if nothing was written |
| `Sending.GrownSizeFits` | msutil/writer.go:341-375 | growing never shrinks the buffer or its header gap and leaves room for n more bytes after at most two rounds |
| `Sending.GrownSizeIsLeast` | msutil/writer.go:341-375 | a buffer that has to grow gets the least power of two beyond its old need in which everything fits |
| `Sending.ReserveCoversEveryHeader` | msutil/writer.go:577-599 | the reserved gap holds the header of every payload that fits behind it |
| `Sending.SizedBufferFits` | msutil/writer.go:178-190 | a buffer made for n bytes of payload has room for exactly n, for every positive n |
| `Sending.FillExtends` | msutil/writer.go:286-326 | Write never takes back what has been sent |
| `Sending.ExtendsOnTheWire` | msutil/writer.go:519-527 | what has been sent before is a prefix of what is sent later |
| `Sending.WritesWithinLimit` | msutil/writer.go:75-80 | Writes that fit together are only buffered, and the first that does not fit sends a fragment |
| `Sending.OneControlFrame` | msutil/writer.go:35-84 | a control message written in parts goes out as one frame if and only if all of it fits the limit |
| `Sending.TwoPartsTwoFrames` | msutil/writer.go:73-80 | two parts of 100 bytes, each within the limit, become a fragment of 125 bytes and a final frame of 75 |
| `Writing.Writer.Write` | msutil/writer.go:286-326 | terminates, follows the machine, accepts all of p without changing it unless the destination fails; p may be in the Writer's own header gap |
| `Writing.Writer.WriteThrough` | msutil/writer.go:379-420 | sends p as a frame, or reports ErrNotEmpty or the sticky error and accepts nothing |
| `Writing.Writer.ReadFrom` | msutil/writer.go:423-467 | buffers all that the source delivers, flushing or growing, and marks the message open at the end; after a failure it returns nil if and only if the source ends before the buffer is full, or the buffer may grow |
| `Writing.FailedReadFromIsNil` | msutil/writer.go:423-467 | one byte that a failed Writer takes with a nil error and never sends |
| `Writing.Writer.Flush` | msutil/writer.go:469-481 | follows the machine; after a failure it sends nothing and returns that failure |
| `Writing.Writer.FlushFragment` | msutil/writer.go:484-494 | the same for fragments; the buffer is empty afterwards |
| `Writing.Writer.SendBuffer` | msutil/writer.go:496-530 | one frame with the buffered payload reaches the destination, or a prefix of it |
| `Writing.Writer.Grow` | msutil/writer.go:341-375 | keeps the buffered payload across the move and leaves room for m more bytes |
| `Writing.DumpFrame` | msutil/writer.go:496-530 | masking the payload in place and writing the header into the gap before it gives the bytes of the frame; the gap is always wide enough |
| `Writing.NextSize` | msutil/writer.go:344-363 | the loop of Grow takes at most two rounds and computes the grown size |
| `Writing.NewWriterSize` | msutil/writer.go:178-190 | Size is exactly n for every positive n |
| `Writing.ControlWriter.Write` | msutil/writer.go:75-80 | refuses a single Write beyond the limit without any effect, and otherwise is Writer.Write |
| `Writing.WriteMessage` | msutil/writer.go:555-575 | one frame that carries p, masked in client state |
| `Reading.Reader.Read` | msutil/reader.go:94-140 | whatever the chunks and the buffer, it takes what it delivers off the rest of the message, runs the handler once for each control frame it passes, and ends in io.EOF or an error exactly as the rest of the message does |
| `Reading.Reader.ReadFrame` | msutil/reader.go:111-139 | a frame ends at its last byte; io.EOF only for complete, final and valid ones, ErrUnexpectedEOF exactly when the stream is short |
| `Reading.Reader.NextFrame` | msutil/reader.go:166-243 | reads and checks one header and moves the fragment bit; a control frame inside a message is handled, and its payload passed over however much of it the handler took |
| `Refusing.HeaderIsChecked` | msutil/reader.go:166-183 | of all well-formed headers exactly those pass that may come next by sections 5.1 to 5.5 of RFC 6455, and just the header is consumed |
| `Refusing.NextFrameChecks` | msutil/reader.go:166-243 | the same of NextFrame on the object: a refused header changes nothing but the position of the source |
| `Refusing.ReadUntilOffender` | msutil/reader.go:94-140 | reading a message ends in a protocol error at the first frame that must not come, with all of its data so far and every control frame before it handled |
| `Refusing.DiscardUntilOffender` | msutil/reader.go:144-159 | discarding it ends there too |
| `Refusing.ReadEverything` | msutil/reader.go:94-243 | reading a whole stream of intact frames reaches its end without an error if and only if they are lawful and a conversation by section 5.4 of RFC 6455 |
| `Reading.Reader.Discard` | msutil/reader.go:144-159 | handles the same control frames and leaves the same stream position as reading the message to its end |
| `Reading.HandlePing` | msutil/handler.go:70-110 | drains the payload in any chunks and writes the one answer |
| `Reading.HandleClose` | msutil/handler.go:132-208 | reads the body and writes the one answer, from the buffer the body was read into |
| `Reading.CloseWithProtocolError` | msutil/handler.go:210-218 | the bytes it sends in either state |
| `Reading.Handle` | msutil/handler.go:56-66 | the answer and the error for every checked header and source, cut ones included |
| `Reading.HandleMasked` | msutil/handler.go:99-107 | in server state a handler that reads the wire itself answers the unmasked payload |
| `Octets.PingIsAnswered` | msutil/handler.go:70-110 | 0x89 with any payload of at most 125 bytes gets 0x8a with the same payload, masked by a client, octet by octet |
| `Octets.PongIsTaken` | msutil/handler.go:113-128 | 0x8a gets nothing, and its payload is consumed |
| `Octets.CloseIsReturned` | msutil/handler.go:132-218 | 0x88 gets 0x88 with the code received, or with 3 and 234 for an unlawful body in server state; code and reason, or 1005, are returned |
| `Octets.MessageIsDelivered` | msutil/reader.go:94-243 | 0x81 is delivered as checked text, 0x82 unchecked |
| `Octets.SingleHello` | write.go:94-101 | the unfragmented examples of section 5.7 of RFC 6455, octet by octet |
| `Octets.FragmentedHello` | msutil/writer.go:286-530 | its fragmented example, as a Writer sends it |
| `Reading.Reader.Intermediate` | msutil/reader.go:209-218 | the handler gets the checked header and the unmasked payload once; one that replies has then written exactly its answer, one that collects has it, and a failing one has read the payload |
| `Receiving.CurrentTailAfter` | msutil/reader.go:111-131 | reading a part of a frame takes that part off the rest of the message |
| `Receiving.SkipNext` | msutil/reader.go:145-156 | discarding from one frame to the next skips just what reading them would consume |
| `Answering.PingGetsOnePong` | msutil/handler.go:70-110 | a ping gets exactly one lawful final pong with the same payload, under the mask drawn for it exactly in client state |
| `Answering.OnePongPerPing` | msutil/helper.go:236-245 | all that is written for pings and pongs is one pong for each ping, in order of arrival, each under a mask of its own |
| `Answering.CloseIsEchoed` | msutil/handler.go:132-208 | a lawful close gets one lawful close with the code received, and the code and reason are returned |
| `Answering.CloseIsAnswered` | msutil/handler.go:132-208 | every complete close, by the bytes of its body, gets exactly one close frame, and its code and reason, 1005, or the protocol error is returned |
| `Answering.UnlawfulCloseIsRefused` | msutil/handler.go:172-218 | an unlawful close gets one close of at most 125 bytes with code 1002; the peer may accept it if and only if it comes from a server |
| `Answering.MaskedCloseIsRefused` | msutil/handler.go:210-218 | a close with code 0 that a client cannot answer lawfully |
| `Helper.ReadAll` | msutil/reader.go:94-140 | io.ReadAll of a message delivers all of it and its error; with CheckUTF8 it ends in ErrInvalidUTF8 exactly if the glued text is not well-formed or can no longer become so, and delivers a prefix of some well-formed text |
| `Helper.ReadFullMessage` | msutil/helper.go:45-51 | io.ReadFull of a single frame: all of it, or ErrInvalidUTF8, or ErrUnexpectedEOF, each exactly when it applies |
| `Helper.ReadMessage` | msutil/helper.go:26-62 | appends the control messages inside the message and then the glued message; nil exactly for a complete and valid one |
| `Helper.ReadData` | msutil/helper.go:247-278 | returns what the pure account of the stream says, and has written exactly the answers to the control frames passed, in order |
| `Refusing.ReadDataUntilClose` | msutil/helper.go:247-278 | at a close, between messages or inside a wanted or unwanted one, readData has answered every ping before it and then the close with one frame each, consumed just the close, and returns its code and reason, 1005, or the protocol error, with what it has of a wanted message |
| `Refusing.ReadDataUntilOffender` | msutil/helper.go:247-278 | at the first frame that must not come, between messages or inside one, readData returns a protocol error after one pong for each ping before it |
| `Helper.WantedKinds` | msutil/helper.go:86-119 | the bits of want select text, binary or both |
| `Helper.TextSoFar` | msutil/reader.go:128-132 | fragment boundaries do not matter to the text check |
| `Helper.EndsInEOF` | msutil/handler.go:168-170 | a message ends in io.EOF if and only if it is complete, or its last control frame is a close without its body |
| `Helper.MissingRestIsEOF` | msutil/handler.go:168-170 | an incomplete message that ends in io.EOF |
| `Cutting.RestIsCut` | msutil/reader.go:94-159 | lawful frames that finish a message, cut at any byte: reading ends in ErrUnexpectedEOF, and Discard returns nil if and only if the header of the final frame is still there |
| `Cutting.MessageIsCut` | msutil/reader.go:94-159 | the same for a whole message of which the first header is there |
| `Cutting.DiscardCut` | msutil/reader.go:144-159 | the same of Discard on a Reader inside a message |
| `Helper.NilMeansComplete` | msutil/helper.go:247-278 | when readData returns no error, its message is complete, unless the last control frame is a close without its body, and then it is not |
| `Helper.CutIsDiscarded` | msutil/reader.go:146-152 | a cut final frame that Discard does not report |
| `Check.FoldAcceptsTheGrammar` | check.go:80-120 | checking header after header with the fragment bit accepts exactly the sequences of section 5.4 of RFC 6455 |
| `Check.CheckHeaderMeans` | check.go:80-120 | what the checks demand of one header |
| `Check.ViolationIsReal` | check.go:80-120 | a reported violation is one that the header commits, by the numbers of its fields |
| `Codec.HeaderRoundTrip` | read.go:20-92 | ReadHeader on WriteHeader's bytes with any suffix gives the header back and takes exactly HeaderSize bytes |
| `Codec.SurvivesIffWellFormed` | write.go:53-91 | a header survives the wire if and only if its fields fit and its mask is zero when it is not masked |
| `Codec.ReadHeaderWellFormed` | read.go:20-92 | whatever is accepted is well-formed |
| `Codec.EncodingIsShortest` | write.go:35-91 | no accepted encoding of a header is shorter than WriteHeader's, and no other one is as short |
| `Codec.EncodedLayout` | write.go:53-91 | the bytes of an encoded header one by one: flag bits, opcode, length in 7, 16 or 64 bits with the most significant byte first, and the mask |
| `Codec.DecodedLayout` | read.go:20-92 | the fields of an accepted header from its bytes one by one |
| `Codec.DecodedIff` | read.go:20-92 | on every stream, which error ReadHeader returns |
| `Codec.HeaderEOF` | read.go:68-71 | io.EOF exactly at the end of the stream or right after two bytes of a longer header |
| `Codec.CutHeader` | read.go:20-71 | WriteHeader's bytes cut anywhere give io.ErrUnexpectedEOF, except io.EOF for none or just two of them |
| `Codec.HeaderCutAfterTwo` | read.go:68-71 | two bytes of a longer header that give io.EOF |
| `Wire.ReadHeader` | read.go:20-92 | reads as the decoding function says, in any chunks, and consumes nothing more |
| `Wire.WriteHeader` | write.go:53-91 | sends exactly the encoding, or a prefix of it with an error |
| `Wire.WriteFrame` | write.go:94-101 | sends header and payload, or a prefix of them with an error |
| `Closing.AcceptedCloseCodes` | check.go:129-149 | which codes and reasons of a received close are accepted |
| `Closing.ParseCloseBody` | frame.go:299-319 | a close body that fits parses back into its code and reason |
| `Masking.Cipher` | cipher.go:18-61 | at every offset and length, the fast form in place equals `payload[i] ^ mask[(offset+i)%4]`, and nothing else changes |
| `Masking.DoubledMaskIsAligned` | cipher.go:43-50 | a 64-bit xor with the doubled little-endian mask masks eight bytes at an aligned position |
| `Masking.PartSizes` | cipher.go:24-41 | the left, middle and right parts are the whole payload, and the middle one starts aligned |
| `Masking.MaskedTwice` | cipher.go:18-61 | masking twice is the identity |
| `Bits.XorDigit` | cipher.go:18-61 | a binary digit of an exclusive or is set exactly if it is set in one of the two numbers but not in both |
| `Octets.MaskedHello` | cipher.go:18-61 | the masked example of section 5.7 of RFC 6455, byte by byte |
| `Stream.ReadMaskedStream` | msutil/cipher.go:33-39 | a CipherReader in any chunks yields the whole stream masked once |
| `Stream.CipherReader.Read` | msutil/cipher.go:33-39 | one Read masks at the running position |
| `Stream.CipherWriter.Write` | msutil/cipher.go:62-72 | the destination holds the accepted bytes masked as one stream, short writes included; the caller's bytes are not changed |
| `Stream.WriteResuming` | msutil/cipher.go:62-72 | short writes resumed at the unwritten remainder send the same bytes as one full write |
| `Utf8.AcceptsTheGrammar` | msutil/utf8.go:104-140 | the automaton accepts exactly the byte strings of section 4 of RFC 3629 |
| `Utf8.CharIffEncoding` | msutil/utf8.go:104-140 | the characters of the grammar are exactly the encodings of the scalar values, surrogates excluded |
| `Utf8.CodepIsScalarValue` | msutil/utf8.go:130-140 | at every accept, codep is the scalar value of the character just completed, which is its shortest encoding and no surrogate |
| `Utf8.RejectIsForGood` | msutil/utf8.go:104-140 | rejection is absorbing |
| `Utf8.CompletionAccepts` | msutil/utf8.go:104-140 | every other state can still reach the accepting one |
| `Utf8.RejectsHopeless` | msutil/utf8.go:104-140 | it has rejected exactly when no continuation is well-formed |
| `TextReader.UTF8Reader.Read` | msutil/utf8.go:50-70 | passes on what the source delivers; after a rejection it reports the bytes up to the last accept |
| `TextReader.LastAcceptIsLast` | msutil/utf8.go:50-70 | no prefix longer than what is reported after a rejection is accepted |
| `Bits.CeilPowerOfTwoIsLeast` | msutil/writer.go:328-337 | the bit smearing gives the least power of two strictly greater than its argument, 0 included |

## Left out

- Extensions: a Writer and a Reader have none, so Rsv is 0; CheckHeader is modelled with its extension bit.
- OnContinuation, MaxFrameSize and SkipHeaderCheck of a Reader: fixed to none, 0 and off.
- Reset and ResetOp of a Writer (Reset does not clear the error), and the pools behind GetWriter and pbytes: a fresh buffer with any contents stands for a pooled one.
- Writing.NewControlWriterBuffer: cutting a buffer that is too long is modelled by a fresh buffer of the length that is kept.
- Sources that return no bytes and no error, or an error of the transport other than io.EOF; destinations of a control handler that fail.
- Reading.Handle: a Reader that a handler reads from (readData) is modelled by the reader of its current frame that also reports a payload that is cut; other sources are the frame itself.
- Writing.Writer.Grow: buffered and wanted bytes together stay below 2^61, so that every size the loop computes is an int that can be allocated; the same holds for Write and ReadFrom with flushing disabled.
- EndToEnd.Perform: a run in which the buffer may grow is given less than 2^60 bytes in all, so that every size stays one that can be allocated; other runs are not bounded.
- Reading.Reader.NextFrame: outside of a message it must follow a message that was read or discarded, as its documentation asks; a Reader left with invalid text must be discarded first.
- Reading.Reader.Read: after ErrInvalidUTF8 the contract bounds what was consumed but does not give the exact position, which depends on the chunks.
- State is a record of its four flags instead of a bit set, and mask quality is not modelled.
- Precompiled frames, the side-specific one-line wrappers of frame.go and msutil/helper.go, and HandleControlMessage: they add nothing beyond what they call.
- The HTTP handshake, servers, clients, reconnecting, deadlines, TLS and logging.
