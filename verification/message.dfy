/** Messages as frames carry them: the first frame has the opcode, continuations follow, the last one is final. */
module Messages {
  import opened Bytes
  import opened Frame

  datatype Message = Message(op: OpCode, payload: seq<byte>)

  /** Whole messages, and the one that is still open. */
  datatype Glued = Glued(messages: seq<Message>, open: Option<Message>)

  /** One more data frame; None where a new message starts inside an open one. */
  function GlueFrame(g: Glued, f: Frame): Option<Glued>
  {
    if g.open.Some? && f.header.op != OP_CONTINUATION then None
    else
      var m := if g.open.Some? then Message(g.open.value.op, g.open.value.payload + Unmasked(f))
               else Message(f.header.op, Unmasked(f));
      Some(if f.header.fin then Glued(g.messages + [m], None) else Glued(g.messages, Some(m)))
  }

  function Glue(fs: seq<Frame>): Option<Glued>
  {
    if fs == [] then Some(Glued([], None))
    else
      var g := Glue(fs[..|fs| - 1]);
      if g.None? then None else GlueFrame(g.value, fs[|fs| - 1])
  }
}
