/**
 * The framing and dispatch step of erlxc_loop, stated on values: read a 2-byte length, check it,
 * read the body into the buffer at the cursor, take the command, decode the argument, run the
 * handler and write one synchronous reply.
 */
module Session {
  import opened Bytes
  import opened Stream
  import opened Codec
  import opened Wire

  /** How reading one inbound frame ends. */
  datatype FrameRead =
    | ShortHeader(rest: seq<Chunk>)              // the 2-byte length could not be read
    | BadLength(len: nat, rest: seq<Chunk>)      // len <= 2 (len > sizeof(buf) cannot happen)
    | OutOfBuf(len: nat, rest: seq<Chunk>)       // body bytes were stored past the end of buf
    | ShortBody(len: nat, rest: seq<Chunk>)      // the stream ended inside the body
    | Got(len: nat, body: seq<byte>, rest: seq<Chunk>)

  /** Why the process dies inside the loop (erl_err_quit and erl_err_sys). */
  datatype Fault = InvalidMessage | Unrecoverable | WriteFailed

  /**
   * How one iteration ends: on to the next frame, the plain `return` out of the loop, a fatal
   * error, or a read the C program would store past the end of buf (undefined behaviour).
   */
  datatype Outcome = Continue | LoopExit | Fatal(fault: Fault) | Overrun

  /**
   * The state one iteration reads and changes: the unread input, everything written to standard
   * output, the cursor msg as an offset into buf, and the requests handled so far.
   */
  datatype LoopState = LoopState(input: seq<Chunk>, output: seq<byte>, cursor: nat, handled: seq<Request>)

  /** The check `len <= sizeof(cmd) || len > sizeof(buf)` lets the frame through. */
  predicate LengthAccepted(len: nat)
  {
    !(len <= 2 || len > BufSize)
  }

  /**
   * Storing n bytes from the cursor on, with `room` bytes of buf left past it, writes past the
   * end of buf.
   */
  predicate Spills(n: nat, room: int)
  {
    n > 0 && n > room
  }

  /** The smaller of two numbers. */
  function Min(a: int, b: int): int
  {
    if a <= b then a else b
  }

  /**
   * Read one frame: erlxc_read of the 2-byte length, the length check, then erlxc_read of the
   * body at the cursor, which has `room` bytes of buf past it. The body read is made whatever
   * the room; only the bytes that actually arrive are stored, and OutOfBuf records that some
   * of them landed past the end of buf.
   */
  function ReadFrame(s: seq<Chunk>, room: int): (fr: FrameRead)
    ensures |Avail(fr.rest)| <= |Avail(s)|
    ensures fr.Got? ==> LengthAccepted(fr.len) && |fr.body| == fr.len && fr.len <= room &&
                        Avail(s) == Be16(fr.len) + fr.body + Avail(fr.rest)
  {
    var h := Fill(s, 2, 0);
    if h.r != 2 then ShortHeader(h.rest)
    else
      var len := Be16Value(h.bytes[0], h.bytes[1]);
      if !LengthAccepted(len) then BadLength(len, h.rest)
      else
        var b := Fill(h.rest, len, 0);
        if Spills(|b.bytes|, room) then OutOfBuf(len, b.rest)
        else if b.r != len then ShortBody(len, b.rest)
        else
          HeaderThenBody(s, len);
          Got(len, b.bytes, b.rest)
  }

  /** The two reads of a frame take the length bytes and then the body off the stream. */
  lemma HeaderThenBody(s: seq<Chunk>, len: nat)
    requires Fill(s, 2, 0).r == 2
    requires len == Be16Value(Fill(s, 2, 0).bytes[0], Fill(s, 2, 0).bytes[1])
    ensures var b := Fill(Fill(s, 2, 0).rest, len, 0);
      b.r == len ==> Avail(s) == Be16(len) + b.bytes + Avail(b.rest)
  {
    var h := Fill(s, 2, 0);
    HeaderBytes(h.bytes, len);
    var b := Fill(h.rest, len, 0);
    if b.r == len {
      calc {
        Avail(s);
        h.bytes + Avail(h.rest);
        Be16(len) + (b.bytes + Avail(b.rest));
        Be16(len) + b.bytes + Avail(b.rest);
      }
    }
  }

  /** Two length bytes are the big-endian encoding of the length they hold. */
  lemma HeaderBytes(hdr: seq<byte>, len: nat)
    requires |hdr| == 2 && len == Be16Value(hdr[0], hdr[1])
    ensures Be16(len) == hdr
  {
    Be16OfValue(hdr[0], hdr[1]);
    assert hdr == [hdr[0], hdr[1]];
  }

  /**
   * ReadFrame against the bytes the stream holds. With two length bytes there and the length
   * above 2, the body read stores the next n = min(len, bytes left) bytes: past the end of buf
   * exactly when n exceeds the room, otherwise a frame exactly when all len bytes are there.
   * A bad length consumes only the 2-byte prefix.
   */
  lemma {:induction false} ReadFrameMeetsStream(s: seq<Chunk>, room: int)
    ensures var fr := ReadFrame(s, room); var a := Avail(s);
      (fr.ShortHeader? <==> |a| < 2) &&
      (fr.ShortHeader? ==> Avail(fr.rest) == []) &&
      (|a| >= 2 ==>
        var len := Be16Value(a[0], a[1]);
        var n := Min(len, |a| - 2);
        (fr.BadLength? <==> !LengthAccepted(len)) &&
        (fr.OutOfBuf? <==> LengthAccepted(len) && Spills(n, room)) &&
        (fr.ShortBody? <==> LengthAccepted(len) && !Spills(n, room) && |a| < 2 + len) &&
        (fr.Got? <==> LengthAccepted(len) && !Spills(n, room) && |a| >= 2 + len) &&
        (fr.BadLength? ==> fr.len == len && Avail(fr.rest) == a[2..]) &&
        (fr.OutOfBuf? ==> fr.len == len && Avail(fr.rest) == a[2 + n..]) &&
        (fr.ShortBody? ==> fr.len == len && Avail(fr.rest) == []) &&
        (fr.Got? ==> fr.len == len && fr.body == a[2..2 + len] && Avail(fr.rest) == a[2 + len..]))
  {
    FillMeetsAvail(s, 2, 0);
    var h := Fill(s, 2, 0);
    if h.r == 2 {
      var len := Be16Value(h.bytes[0], h.bytes[1]);
      FillMeetsAvail(h.rest, len, 0);
    }
  }

  /**
   * Everything after the frame is read into `body` (st.input is already what follows it):
   * command, decode, handler, events and the reply.
   */
  function Handle(st: LoopState, env: Env, body: seq<byte>): (res: (Outcome, LoopState))
    requires |body| > 2
    ensures res.0 != LoopExit && res.0 != Overrun
  {
    var cmd := Be16Value(body[0], body[1]);
    var st1 := st.(cursor := st.cursor + 2);
    match env.decode(body[2..])
    case None => (Fatal(InvalidMessage), st1)
    case Some(arg) =>
      var d := env.handler(st.handled, cmd, arg);
      var st2 := st1.(handled := st.handled + [Request(cmd, arg)],
                      output := st.output + Pushed(env, d.events));
      match d.reply
      case None => (Fatal(Unrecoverable), st2)
      case Some(reply) =>
        var w := Emit(env, Sync, reply);
        if w.code < 0 then (Fatal(WriteFailed), st2)
        else (Continue, st2.(output := st2.output + w.bytes))
  }

  /** One iteration of erlxc_loop as written, with the cursor where earlier frames left it. */
  function StepSpec(st: LoopState, env: Env): (res: (Outcome, LoopState))
    ensures |Avail(res.1.input)| <= |Avail(st.input)|
    ensures res.0 == Continue ==> |Avail(res.1.input)| < |Avail(st.input)|
  {
    var fr := ReadFrame(st.input, BufSize - st.cursor);
    match fr
    case OutOfBuf(_, rest) => (Overrun, st.(input := rest))
    case Got(_, body, rest) => Handle(st.(input := rest), env, body)
    case _ => (LoopExit, st.(input := fr.rest))
  }

  /** erlxc_loop as written: iterate until an iteration does not continue. */
  function Run(st: LoopState, env: Env): (res: (Outcome, LoopState))
    ensures res.0 != Continue
    decreases |Avail(st.input)|
  {
    var step := StepSpec(st, env);
    if step.0 == Continue then Run(step.1, env) else step
  }

  /** One iteration with the cursor put back at the start of buf, as the loop evidently intends. */
  function StepFixedSpec(st: LoopState, env: Env): (res: (Outcome, LoopState))
    ensures res.0 != Overrun
    ensures |Avail(res.1.input)| <= |Avail(st.input)|
    ensures res.0 == Continue ==> |Avail(res.1.input)| < |Avail(st.input)|
  {
    StepSpec(st.(cursor := 0), env)
  }

  /** The corrected loop: no frame is ever stored past the end of buf. */
  function RunFixed(st: LoopState, env: Env): (res: (Outcome, LoopState))
    ensures res.0 != Continue && res.0 != Overrun
    decreases |Avail(st.input)|
  {
    var step := StepFixedSpec(st, env);
    if step.0 == Continue then RunFixed(step.1, env) else step
  }

  /**
   * A whole frame of acceptable length that fits past the cursor is consumed and nothing more;
   * the first two body bytes, read big-endian, are the command and the len - 2 bytes after them
   * are what the decoder sees. A decode failure or a NULL reply is fatal and writes no reply;
   * otherwise the pushed events are followed by exactly one synchronous reply frame.
   */
  lemma {:induction false} StepOnFrame(st: LoopState, env: Env)
    requires |Avail(st.input)| >= 2
    requires var a := Avail(st.input); var len := Be16Value(a[0], a[1]);
             LengthAccepted(len) && st.cursor + len <= BufSize && |a| >= 2 + len
    ensures var a := Avail(st.input); var len := Be16Value(a[0], a[1]);
      var cmd := Be16Value(a[2], a[3]);
      var res := StepSpec(st, env);
      Avail(res.1.input) == a[2 + len..] && res.1.cursor == st.cursor + 2 &&
      match env.decode(a[4..2 + len])
      case None =>
        res.0 == Fatal(InvalidMessage) && res.1.output == st.output && res.1.handled == st.handled
      case Some(arg) =>
        var d := env.handler(st.handled, cmd, arg);
        res.1.handled == st.handled + [Request(cmd, arg)] &&
        match d.reply
        case None =>
          res.0 == Fatal(Unrecoverable) && res.1.output == st.output + Pushed(env, d.events)
        case Some(reply) =>
          if Emit(env, Sync, reply).code < 0 then
            res.0 == Fatal(WriteFailed) && res.1.output == st.output + Pushed(env, d.events)
          else
            res.0 == Continue &&
            res.1.output == st.output + Pushed(env, d.events) + FrameBytes(Sync, env.encode(reply).value)
  {
    ReadFrameMeetsStream(st.input, BufSize - st.cursor);
    var a := Avail(st.input);
    var len := Be16Value(a[0], a[1]);
    var body := a[2..2 + len];
    assert body[0] == a[2] && body[1] == a[3] && body[2..] == a[4..2 + len];
  }

  /**
   * The loop is left with the plain `return` exactly when no length can be read, the length is
   * 2 or less, or the body is cut short; which of these happened is not recorded, nothing is
   * written, and a bad length consumes only the 2-byte prefix.
   */
  lemma {:induction false} StepLoopExit(st: LoopState, env: Env)
    ensures var a := Avail(st.input);
      StepSpec(st, env).0 == LoopExit <==>
        |a| < 2 ||
        (var len := Be16Value(a[0], a[1]);
         !LengthAccepted(len) ||
         (!Spills(Min(len, |a| - 2), BufSize - st.cursor) && |a| < 2 + len))
    ensures StepSpec(st, env).0 == LoopExit ==>
              StepSpec(st, env).1 == st.(input := StepSpec(st, env).1.input)
    ensures var a := Avail(st.input);
      |a| >= 2 && !LengthAccepted(Be16Value(a[0], a[1])) ==>
        StepSpec(st, env).0 == LoopExit && Avail(StepSpec(st, env).1.input) == a[2..]
  {
    ReadFrameMeetsStream(st.input, BufSize - st.cursor);
  }

  /**
   * What erlxc_write emits, at the head of the stream, is read back by the loop as one frame whose
   * body is the type bytes followed by the payload, whatever bytes come after it.
   */
  lemma {:induction false} WrittenFrameIsRead(env: Env, t: MsgType, term: Term, s: seq<Chunk>)
    requires Emit(env, t, term).code >= 0
    requires |Emit(env, t, term).bytes| <= |Avail(s)|
    requires Avail(s)[..|Emit(env, t, term).bytes|] == Emit(env, t, term).bytes
    ensures var fr := ReadFrame(s, BufSize); var e := Emit(env, t, term);
      fr.Got? && fr.len == |e.bytes| - 2 && fr.body == TypeBytes(t) + env.encode(term).value &&
      Avail(fr.rest) == Avail(s)[|e.bytes|..]
  {
    var p := env.encode(term).value;
    assert 1 <= |p| <= MaxPayload && Emit(env, t, term).bytes == FrameBytes(t, p);
    FrameBytesRead(t, p, s);
  }

  /** The bytes of one frame at the head of the stream are read back as that frame. */
  lemma FrameBytesRead(t: MsgType, p: seq<byte>, s: seq<Chunk>)
    requires 1 <= |p| <= MaxPayload
    requires 4 + |p| <= |Avail(s)| && Avail(s)[..4 + |p|] == FrameBytes(t, p)
    ensures var fr := ReadFrame(s, BufSize);
      fr.Got? && fr.len == 2 + |p| && fr.body == TypeBytes(t) + p &&
      Avail(fr.rest) == Avail(s)[4 + |p|..]
  {
    var a := Avail(s);
    var e := FrameBytes(t, p);
    FrameLayout(t, p);
    assert a[0] == e[0] && a[1] == e[1];
    FrameTaken(s, BufSize);
    assert a[2..4 + |p|] == e[2..] == e[2..4] + e[4..];
  }

  /** A complete frame of acceptable length that fits is taken whole, and nothing after it. */
  lemma FrameTaken(s: seq<Chunk>, room: int)
    requires |Avail(s)| >= 2
    requires LengthAccepted(Be16Value(Avail(s)[0], Avail(s)[1]))
    requires Be16Value(Avail(s)[0], Avail(s)[1]) <= room
    requires |Avail(s)| >= 2 + Be16Value(Avail(s)[0], Avail(s)[1])
    ensures var fr := ReadFrame(s, room); var a := Avail(s); var len := Be16Value(a[0], a[1]);
      fr == Got(len, a[2..2 + len], fr.rest) && Avail(fr.rest) == a[2 + len..]
  {
    ReadFrameMeetsStream(s, room);
  }

  /**
   * Writing a frame the loop has read, with the type it carries, gives back the same bytes. The
   * writer's limit is 4 bytes below the reader's, so this holds for lengths up to 65533.
   */
  lemma {:induction false} ReadThenRewrite(s: seq<Chunk>, room: int, t: MsgType)
    requires ReadFrame(s, room).Got?
    requires ReadFrame(s, room).len <= MaxPayload + 2
    requires ReadFrame(s, room).body[..2] == TypeBytes(t)
    ensures var fr := ReadFrame(s, room);
      FrameBytes(t, fr.body[2..]) == Avail(s)[..2 + fr.len]
  {
    var fr := ReadFrame(s, room);
    assert fr.body == fr.body[..2] + fr.body[2..];
    assert Avail(s)[..2 + fr.len] == Be16(fr.len) + fr.body;
  }

  /**
   * As written, msg moves on by 2 with every frame and is never reset, but the length is still
   * checked against all of buf: once a frame has been handled, the length FF FF passes the check,
   * and the body read stores bytes past the end of buf exactly when more than the room left
   * past the cursor arrive; with fewer, the read runs out and the loop returns.
   */
  lemma {:induction false} DriftedCursorOverruns(st: LoopState, env: Env)
    requires 0 < st.cursor <= BufSize
    requires |Avail(st.input)| >= 2 && Avail(st.input)[0] == 255 && Avail(st.input)[1] == 255
    ensures LengthAccepted(65535) && st.cursor + 65535 > BufSize
    ensures StepSpec(st, env).0 == Overrun <==> |Avail(st.input)| > 2 + BufSize - st.cursor
    ensures StepSpec(st, env).0 != Overrun ==> StepSpec(st, env).0 == LoopExit
  {
    ReadFrameMeetsStream(st.input, BufSize - st.cursor);
  }

  /** A port that answers every request with a one-byte term. */
  const EchoEnv: Env := Env(
    (b: seq<byte>) => Some(Term(0)),
    (t: Term) => Some([131]),
    (h: seq<Request>, c: nat, t: Term) => Dispatch([], Some(t)),
    true)

  /** A 3-byte frame (command 0, argument byte 7), then the length bytes FF FF. */
  const WitnessPrefix: seq<byte> := [0, 3, 0, 0, 7, 255, 255]

  /**
   * An input that shows the overrun: WitnessPrefix followed by d. The first frame moves the
   * cursor to 2, so the second body has 65533 bytes of buf left; the loop as written stores past
   * the end of buf exactly when 65534 bytes follow FF FF. The corrected loop reads the second
   * header at the start of buf and stops at the short body instead.
   */
  lemma OverrunWitness(d: seq<byte>)
    requires |d| <= 65534
    ensures var st := LoopState([Data(WitnessPrefix + d)], [], 0, []);
      StepSpec(st, EchoEnv).0 == Continue && StepSpec(st, EchoEnv).1.cursor == 2 &&
      (Run(st, EchoEnv).0 == Overrun <==> |d| == 65534) &&
      (Run(st, EchoEnv).0 != Overrun ==> Run(st, EchoEnv).0 == LoopExit) &&
      RunFixed(st, EchoEnv).0 == LoopExit
  {
    var st := LoopState([Data(WitnessPrefix + d)], [], 0, []);
    WitnessFirstFrame(d);
    var step := StepSpec(st, EchoEnv);
    DriftedCursorOverruns(step.1, EchoEnv);
    assert Run(st, EchoEnv) == Run(step.1, EchoEnv) == StepSpec(step.1, EchoEnv);
    WitnessFixedStops(d);
  }

  /** The corrected loop on the overrun input handles the first frame, then stops at the short body. */
  lemma WitnessFixedStops(d: seq<byte>)
    requires |d| <= 65534
    ensures RunFixed(LoopState([Data(WitnessPrefix + d)], [], 0, []), EchoEnv).0 == LoopExit
  {
    var st := LoopState([Data(WitnessPrefix + d)], [], 0, []);
    WitnessFirstFrame(d);
    var step := StepSpec(st, EchoEnv);
    ReadFrameMeetsStream(step.1.input, BufSize);
    var fixed := StepFixedSpec(step.1, EchoEnv);
    assert fixed.0 == LoopExit;
    assert StepFixedSpec(st, EchoEnv) == step;
    assert RunFixed(st, EchoEnv) == RunFixed(step.1, EchoEnv) == fixed;
  }

  /** The first frame of the overrun input is handled and leaves FF FF and d unread. */
  lemma WitnessFirstFrame(d: seq<byte>)
    ensures var st := LoopState([Data(WitnessPrefix + d)], [], 0, []);
      StepSpec(st, EchoEnv).0 == Continue && StepSpec(st, EchoEnv).1.cursor == 2 &&
      Avail(StepSpec(st, EchoEnv).1.input) == [255, 255] + d
  {
    var st := LoopState([Data(WitnessPrefix + d)], [], 0, []);
    assert Avail(st.input) == WitnessPrefix + d;
    StepOnFrame(st, EchoEnv);
    assert (WitnessPrefix + d)[5..] == [255, 255] + d;
  }

  /** A larger room never changes a frame that was not refused for want of room. */
  lemma ReadFrameMoreRoom(s: seq<Chunk>, room: int, room': int)
    requires room <= room'
    requires !ReadFrame(s, room).OutOfBuf?
    ensures ReadFrame(s, room') == ReadFrame(s, room)
  {
  }

  /** The cursor only moves on by 2 while the frame is handled; it is never read there. */
  lemma HandleIgnoresCursor(st: LoopState, env: Env, body: seq<byte>, c: nat)
    requires |body| > 2
    ensures Handle(st.(cursor := c), env, body).0 == Handle(st, env, body).0
    ensures Handle(st.(cursor := c), env, body).1 == Handle(st, env, body).1.(cursor := c + 2)
  {
  }

  /** One iteration that does not overrun ends as the corrected iteration does, up to the cursor. */
  lemma StepDriftAgrees(st: LoopState, env: Env)
    requires StepSpec(st, env).0 != Overrun
    ensures StepFixedSpec(st, env).0 == StepSpec(st, env).0
    ensures StepFixedSpec(st, env).1.(cursor := 0) == StepSpec(st, env).1.(cursor := 0)
  {
    ReadFrameMoreRoom(st.input, BufSize - st.cursor, BufSize);
    if ReadFrame(st.input, BufSize - st.cursor).Got? {
      StepDriftGot(st, env);
    }
  }

  /** The frame-handling case of StepDriftAgrees. */
  lemma StepDriftGot(st: LoopState, env: Env)
    requires ReadFrame(st.input, BufSize - st.cursor).Got?
    requires ReadFrame(st.input, BufSize) == ReadFrame(st.input, BufSize - st.cursor)
    ensures StepFixedSpec(st, env).0 == StepSpec(st, env).0
    ensures StepFixedSpec(st, env).1.(cursor := 0) == StepSpec(st, env).1.(cursor := 0)
  {
    var fr := ReadFrame(st.input, BufSize);
    var at := st.(input := fr.rest);
    HandleIgnoresCursor(at, env, fr.body, 0);
  }

  /**
   * The drifting cursor changes nothing but the cursor until it overruns: whenever the loop as
   * written does not overrun, the corrected loop ends the same way with the same input, output
   * and handled requests.
   */
  lemma {:induction false} DriftOnlyOverruns(st: LoopState, env: Env)
    requires Run(st, env).0 != Overrun
    ensures RunFixed(st, env).0 == Run(st, env).0
    ensures RunFixed(st, env).1.(cursor := 0) == Run(st, env).1.(cursor := 0)
    decreases |Avail(st.input)|
  {
    var step := StepSpec(st, env);
    var fixed := StepFixedSpec(st, env);
    StepDriftAgrees(st, env);
    if step.0 == Continue {
      DriftOnlyOverruns(step.1, env);
      assert fixed.1.(cursor := 0) == step.1.(cursor := 0);
      assert StepFixedSpec(fixed.1, env) == StepFixedSpec(step.1, env);
    }
  }
}
