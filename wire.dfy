/** Outbound frames: the byte layout erlxc_write hands to writev. */
module Wire {
  import opened Bytes
  import opened Codec

  /** ERLXC_MSG_SYNC marks replies, ERLXC_MSG_ASYNC (htons(1)) marks pushed events. */
  datatype MsgType = Sync | Async

  /** The two type bytes as they appear on the wire. */
  function TypeBytes(t: MsgType): (r: seq<byte>)
    ensures |r| == 2 && Be16Value(r[0], r[1]) == (if t == Sync then 0 else 1)
  {
    match t
    case Sync => [0, 0]
    case Async => [0, 1]
  }

  /** A frame: the length of type and payload in network order, the type, the payload. */
  function FrameBytes(t: MsgType, payload: seq<byte>): (r: seq<byte>)
    requires |payload| <= MaxPayload
  {
    Be16(2 + |payload|) + TypeBytes(t) + payload
  }

  /** A frame splits back into its length field, its type bytes and its payload. */
  lemma FrameLayout(t: MsgType, payload: seq<byte>)
    requires |payload| <= MaxPayload
    ensures var r := FrameBytes(t, payload);
      |r| == 4 + |payload| && Be16Value(r[0], r[1]) == 2 + |payload| &&
      r[2..4] == TypeBytes(t) && r[4..] == payload
  {
  }

  /** What erlxc_write returns and what it puts on standard output. */
  datatype Emitted = Emitted(code: int, bytes: seq<byte>)

  /**
   * erlxc_write(type, t): -1 and nothing written when the declared length is negative or above
   * UINT16_MAX - 4, when erl_encode stores fewer than 1 byte, or when writev fails; otherwise
   * the whole frame is written and writev's count, 4 + the payload length, is returned.
   */
  function Emit(env: Env, t: MsgType, term: Term): (e: Emitted)
    ensures e.code < 0 ==> e.code == -1 && e.bytes == []
    ensures e.code >= 0 ==> e.code == |e.bytes|
  {
    match env.encode(term)
    case None => Emitted(-1, [])
    case Some(payload) =>
      if |payload| > MaxPayload then Emitted(-1, [])
      else if |payload| < 1 then Emitted(-1, [])
      else if !env.stdoutOpen then Emitted(-1, [])
      else Emitted(4 + |payload|, FrameBytes(t, payload))
  }

  /** Everything a sequence of erlxc_send calls puts on standard output, in order. */
  function Pushed(env: Env, events: seq<Term>): (r: seq<byte>)
  {
    if events == [] then []
    else Pushed(env, events[..|events| - 1]) + Emit(env, Async, events[|events| - 1]).bytes
  }

  /**
   * erlxc_write succeeds exactly when the encoder declares between 1 and UINT16_MAX - 4 bytes
   * and standard output accepts the write; what it writes is then one frame of 4 + n bytes whose
   * length field is 2 + n and whose type bytes are 00 00 for replies and 00 01 for events.
   */
  lemma EmitLayout(env: Env, t: MsgType, term: Term)
    ensures Emit(env, t, term).code >= 0 <==>
              env.encode(term).Some? && 1 <= |env.encode(term).value| <= MaxPayload && env.stdoutOpen
    ensures Emit(env, t, term).code < 0 ==> Emit(env, t, term).code == -1 && Emit(env, t, term).bytes == []
    ensures Emit(env, t, term).code >= 0 ==>
              var p := env.encode(term).value;
              var b := Emit(env, t, term).bytes;
              Emit(env, t, term).code == |b| == 4 + |p| &&
              Be16Value(b[0], b[1]) == 2 + |p| &&
              b[2..4] == (if t == Sync then [0, 0] else [0, 1]) &&
              b[4..] == p
  {
  }

  /** Every frame erlxc_write emits carries a length field above 2, as the reader demands. */
  lemma EmittedLengthAccepted(env: Env, t: MsgType, term: Term)
    requires Emit(env, t, term).code >= 0
    ensures var b := Emit(env, t, term).bytes;
            |b| >= 5 && 2 < Be16Value(b[0], b[1]) <= BufSize && |b| == 2 + Be16Value(b[0], b[1])
  {
  }
}
