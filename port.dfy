/**
 * The port program's side of the channel as it runs: standard input and output, the frame
 * buffer buf[UINT16_MAX] with its cursor msg, and the loop that drives them.
 */
module PortLoop {
  import opened Bytes
  import opened Stream
  import opened Codec
  import opened Wire
  import opened Session

  /** A result of erlxc_read whose stored bytes are preceded by bytes stored earlier. */
  function Join(prefix: seq<byte>, f: Filled): Filled
  {
    Filled(f.r, prefix + f.bytes, f.rest)
  }

  /** The contents of an array after `bytes` are stored from index `at` on. */
  function Stored(prior: seq<byte>, at: nat, bytes: seq<byte>): (r: seq<byte>)
    requires at + |bytes| <= |prior|
    ensures |r| == |prior|
  {
    prior[..at] + bytes + prior[at + |bytes|..]
  }

  /** Storing two runs of bytes one after the other stores their concatenation. */
  lemma StoredTwice(a: seq<byte>, at: nat, x: seq<byte>, y: seq<byte>)
    requires at + |x| + |y| <= |a|
    ensures Stored(Stored(a, at, x), at + |x|, y) == Stored(a, at, x + y)
  {
    var b := Stored(a, at, x);
    assert b[..at + |x|] == a[..at] + x;
    assert b[at + |x| + |y|..] == a[at + |x| + |y|..];
  }

  /**
   * After `got` bytes `acc` are stored and `s` is the stream left, the rest of erlxc_read still
   * ends with the overall result `total`.
   */
  ghost predicate Resumes(total: Filled, acc: seq<byte>, s: seq<Chunk>, len: nat, got: nat)
  {
    got <= len &&
    (got < len ==> total == Join(acc, Fill(s, len, got))) &&
    (got == len ==> total == Filled(len, acc, s))
  }

  /** One more round of erlxc_read: a positive read of the missing bytes keeps Resumes. */
  lemma FillRound(total: Filled, acc: seq<byte>, s: seq<Chunk>, len: nat, got: nat)
    requires got < len && Resumes(total, acc, s, len, got)
    requires SysRead(s, len - got).count > 0
    ensures var rd := SysRead(s, len - got);
      Resumes(total, acc + rd.bytes, rd.rest, len, got + rd.count)
  {
  }

  /** A read that returns 0 or less ends erlxc_read with that value and the bytes stored so far. */
  lemma FillStops(total: Filled, acc: seq<byte>, s: seq<Chunk>, len: nat, got: nat)
    requires got < len && Resumes(total, acc, s, len, got)
    requires SysRead(s, len - got).count <= 0
    ensures total == Filled(SysRead(s, len - got).count, acc, s)
  {
  }

  class Port {
    var input: seq<Chunk>       // standard input, still unread
    var output: seq<byte>       // everything written to standard output
    var cursor: nat             // msg - buf
    var handled: seq<Request>   // requests handed to erlxc_cmd so far
    const buf: array<byte>      // buf[UINT16_MAX] of erlxc_loop
    const lenBuf: array<byte>   // the two bytes of the u_int16_t len

    ghost predicate Valid()
      reads this
    {
      buf.Length == BufSize && lenBuf.Length == 2 && buf != lenBuf
    }

    /** The state of the loop as a value. */
    function State(): LoopState
      reads this
    {
      LoopState(input, output, cursor, handled)
    }

    /** Entering erlxc_loop: buf zeroed, msg = buf, nothing read or written yet. */
    constructor (stdin: seq<Chunk>)
      ensures Valid() && fresh(buf) && fresh(lenBuf)
      ensures State() == LoopState(stdin, [], 0, [])
      ensures forall k :: 0 <= k < buf.Length ==> buf[k] == 0
    {
      input, output, cursor, handled := stdin, [], 0, [];
      buf := new byte[BufSize](_ => 0);
      lenBuf := new byte[2](_ => 0);
    }

    /** read(STDIN_FILENO, dst + at, n): only the bytes it returns are stored. */
    method Read(dst: array<byte>, at: nat, n: nat) returns (i: int)
      requires at + n <= dst.Length
      modifies this`input, dst
      ensures i == SysRead(old(input), n).count && input == SysRead(old(input), n).rest
      ensures dst[..] == Stored(old(dst[..]), at, SysRead(old(input), n).bytes)
    {
      var rd := SysRead(input, n);
      i := rd.count;
      if i > 0 {
        forall k | 0 <= k < i {
          dst[at + k] := rd.bytes[k];
        }
        input := rd.rest;
      }
      assert dst[..] == Stored(old(dst[..]), at, rd.bytes);
    }

    /**
     * One round of erlxc_read's loop: ask read(2) for the len - got bytes still missing and
     * store them after the `got` bytes `acc` stored so far, on top of the original contents d0.
     */
    method ReadRound(dst: array<byte>, off: nat, len: nat, got: nat,
                     ghost acc: seq<byte>, ghost total: Filled, ghost d0: seq<byte>)
      returns (i: int, ghost acc': seq<byte>)
      requires got < len && off + len <= dst.Length && |d0| == dst.Length && |acc| == got
      requires Resumes(total, acc, input, len, got)
      requires dst[..] == Stored(d0, off, acc)
      modifies this`input, dst
      ensures i <= 0 ==> acc' == acc && total == Filled(i, acc, input)
      ensures i > 0 ==> got + i <= len && |acc'| == got + i && Resumes(total, acc', input, len, got + i)
      ensures dst[..] == Stored(d0, off, acc')
    {
      ghost var s := input;
      ghost var rd := SysRead(s, len - got);
      i := Read(dst, off + got, len - got);
      if i <= 0 {
        FillStops(total, acc, s, len, got);
        acc' := acc;
      } else {
        FillRound(total, acc, s, len, got);
        StoredTwice(d0, off, acc, rd.bytes);
        acc' := acc + rd.bytes;
      }
    }

    /**
     * erlxc_read(dst + off, len): read until len bytes are stored, returning len, or return the
     * first read that gives 0 or less. Only dst[off..off + len] is ever written; `stored` is
     * how many bytes were put in place, which the C caller does not see but which decides
     * where in memory they went.
     */
    method ReadFull(dst: array<byte>, off: nat, len: nat) returns (r: int, stored: nat)
      requires off + len <= dst.Length
      modifies this`input, dst
      ensures r == Fill(old(input), len, 0).r && input == Fill(old(input), len, 0).rest
      ensures stored == |Fill(old(input), len, 0).bytes|
      ensures off + |Fill(old(input), len, 0).bytes| <= dst.Length
      ensures dst[..] == Stored(old(dst[..]), off, Fill(old(input), len, 0).bytes)
    {
      // The do-while of the source; when len is 0 its one read asks for 0 bytes and returns
      // 0 == len, which is what skipping the loop gives.
      var got: nat := 0;
      ghost var acc: seq<byte> := [];
      ghost var total := Fill(input, len, 0);
      assert Resumes(total, acc, input, len, got) by {
        assert acc + total.bytes == total.bytes;
      }
      assert dst[..] == Stored(old(dst[..]), off, acc);
      while got < len
        invariant off + got <= dst.Length && |acc| == got
        invariant Resumes(total, acc, input, len, got)
        invariant dst[..] == Stored(old(dst[..]), off, acc)
        decreases len - got
      {
        var i;
        i, acc := ReadRound(dst, off, len, got, acc, total, old(dst[..]));
        if i <= 0 {
          return i, got;
        }
        got := got + i;
      }
      return len, got;
    }

    /**
     * erlxc_write(type, t): erl_term_len, the size check, erl_encode, then one writev of the
     * length, the type and the encoded term.
     */
    method Write(env: Env, t: MsgType, term: Term) returns (r: int)
      modifies this`output
      ensures r == Emit(env, t, term).code
      ensures output == old(output) + Emit(env, t, term).bytes
    {
      var encoded := env.encode(term);
      if encoded.None? || |encoded.value| > MaxPayload {
        return -1;
      }
      var payload := encoded.value;
      if |payload| < 1 {
        return -1;
      }
      var iov := [Be16(2 + |payload|), TypeBytes(t), payload];
      if !env.stdoutOpen {
        return -1;
      }
      output := output + iov[0] + iov[1] + iov[2];
      r := |iov[0]| + |iov[1]| + |iov[2]|;
    }

    /** erlxc_send(t): push an asynchronous event frame. */
    method Send(env: Env, term: Term) returns (r: int)
      modifies this`output
      ensures r == Emit(env, Async, term).code
      ensures output == old(output) + Emit(env, Async, term).bytes
    {
      r := Write(env, Async, term);
    }

    /**
     * The reading half of one iteration: the 2-byte length into len, the length check, then the
     * body read at msg. A body that fits past msg is read into buf; one that does not is read
     * into `tail`, which stands for the memory from msg on, and OutOfBuf records that bytes
     * were stored past the end of buf.
     */
    method ReadFrameAt() returns (fr: FrameRead)
      requires Valid()
      modifies this`input, buf, lenBuf
      ensures Valid()
      ensures fr == ReadFrame(old(input), BufSize - cursor) && input == fr.rest
      ensures fr.Got? ==> cursor + fr.len <= buf.Length && buf[cursor..cursor + fr.len] == fr.body
    {
      var r, _ := ReadFull(lenBuf, 0, 2);
      ghost var h := Fill(old(input), 2, 0);
      if r != 2 {
        return ShortHeader(input);
      }
      assert lenBuf[..] == h.bytes;
      var len := Be16Value(lenBuf[0], lenBuf[1]);
      if len <= 2 || len > buf.Length {
        return BadLength(len, input);
      }
      ghost var afterHeader := input;
      ghost var b := Fill(afterHeader, len, 0);
      if cursor + len > buf.Length {
        var tail := new byte[len];
        var arrived;
        r, arrived := ReadFull(tail, 0, len);
        if Spills(arrived, BufSize - cursor) {
          return OutOfBuf(len, input);
        }
        return ShortBody(len, input);
      }
      var stored;
      r, stored := ReadFull(buf, cursor, len);
      if r != len {
        return ShortBody(len, input);
      }
      assert buf[cursor..cursor + len] == Stored(old(buf[..]), cursor, b.bytes)[cursor..cursor + len];
      fr := Got(len, buf[cursor..cursor + len], input);
    }

    /**
     * The handling half: command from the first two bytes at msg, msg += 2, decode, erlxc_cmd
     * (with the events it pushes through erlxc_send), then the synchronous reply.
     */
    method Dispatch(env: Env, len: nat, ghost body: seq<byte>) returns (o: Outcome)
      requires Valid() && 2 < len && cursor + len <= buf.Length
      requires |body| == len && buf[cursor..cursor + len] == body
      modifies this`cursor, this`handled, this`output
      ensures Valid()
      ensures (o, State()) == Handle(old(State()), env, body)
    {
      var cmd := Be16Value(buf[cursor], buf[cursor + 1]);
      cursor := cursor + 2;
      var argLen := len - 2;
      assert buf[cursor..cursor + argLen] == body[2..];
      var arg := env.decode(buf[cursor..cursor + argLen]);
      if arg.None? {
        return Fatal(InvalidMessage);
      }
      var d := env.handler(handled, cmd, arg.value);
      handled := handled + [Request(cmd, arg.value)];
      PushEvents(env, d.events);
      if d.reply.None? {
        return Fatal(Unrecoverable);
      }
      ghost var pushed := output;
      var w := Write(env, Sync, d.reply.value);
      if w < 0 {
        assert output == pushed;
        return Fatal(WriteFailed);
      }
      return Continue;
    }

    /** The loop over the handler's events, each sent asynchronously whether or not it is written. */
    method PushEvents(env: Env, events: seq<Term>)
      modifies this`output
      ensures output == old(output) + Pushed(env, events)
    {
      var j := 0;
      while j < |events|
        invariant 0 <= j <= |events|
        invariant output == old(output) + Pushed(env, events[..j])
      {
        var sent := Send(env, events[j]);
        assert events[..j + 1][..j] == events[..j];
        j := j + 1;
      }
      assert events[..j] == events;
    }

    /** One iteration of the `for ( ; ; )` loop of erlxc_loop, msg left where it was. */
    method Step(env: Env) returns (o: Outcome)
      requires Valid()
      modifies this, buf, lenBuf
      ensures Valid()
      ensures (o, State()) == StepSpec(old(State()), env)
    {
      var fr := ReadFrameAt();
      match fr
      case OutOfBuf(_, _) => return Overrun;
      case Got(len, body, _) => o := Dispatch(env, len, body);
      case _ => return LoopExit;
    }

    /** erlxc_loop as written: iterate until an iteration returns, dies or overruns buf. */
    method Loop(env: Env) returns (o: Outcome)
      requires Valid()
      modifies this, buf, lenBuf
      ensures Valid()
      ensures (o, State()) == Run(old(State()), env)
    {
      o := Continue;
      while o == Continue
        invariant Valid()
        invariant o == Continue ==> Run(State(), env) == Run(old(State()), env)
        invariant o != Continue ==> (o, State()) == Run(old(State()), env)
        decreases |Avail(input)|, if o == Continue then 1 else 0
      {
        o := Step(env);
      }
    }

    /** One iteration with msg put back to buf first. */
    method StepFixed(env: Env) returns (o: Outcome)
      requires Valid()
      modifies this, buf, lenBuf
      ensures Valid()
      ensures (o, State()) == StepFixedSpec(old(State()), env)
    {
      cursor := 0;
      o := Step(env);
    }

    /** The corrected erlxc_loop; it never stores a frame past the end of buf. */
    method LoopFixed(env: Env) returns (o: Outcome)
      requires Valid()
      modifies this, buf, lenBuf
      ensures Valid()
      ensures o != Continue && o != Overrun
      ensures (o, State()) == RunFixed(old(State()), env)
    {
      o := Continue;
      while o == Continue
        invariant Valid()
        invariant o == Continue ==> RunFixed(State(), env) == RunFixed(old(State()), env)
        invariant o != Continue ==> (o, State()) == RunFixed(old(State()), env)
        decreases |Avail(input)|, if o == Continue then 1 else 0
      {
        o := StepFixed(env);
      }
    }
  }
}
