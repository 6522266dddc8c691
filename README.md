# erlxc port loop and lifecycle policy in Dafny

erlxc is an Erlang port program for one Linux container. The Erlang side talks to it over
standard input and output in length-prefixed frames. Each inbound frame holds a 16-bit
command tag and an argument in the Erlang external term format. erlxc runs the command
against its container and writes one synchronous reply frame. A command may also push
asynchronous event frames first. When the input ends, `main` stops the container, destroys
it, or does neither, as its lifecycle option says.

The model covers `c_src/erlxc.c`:

- `erlxc_read`: a blocking read that retries until the buffer is full.
- `erlxc_loop`: the frame loop. Its cursor `msg` is kept as state that is never reset, as in the C code.
- `erlxc_write` and `erlxc_send`: the outbound frame layout.
- The getopt loop over the `ep->opt` bitmask and `ep->verbose`.
- The exit policy at the end of `main`, which runs the loop as written.

Modules:

- `Bytes`: bytes, the 64 KiB buffer size and 16-bit big-endian numbers.
- `Stream`: standard input as a sequence of chunks (data, end of file, error). `SysRead` is
  one `read(2)` call. `Fill` is the specification of `erlxc_read`.
- `Codec`: the term codec, the command handler and standard output, as values given to the
  model (`Env`).
- `Wire`: the frame layout and `Emit`, the specification of `erlxc_write`.
- `Session`: the specification of the loop. `ReadFrame` reads one frame, `StepSpec` runs one
  iteration as written and `Run` runs the whole loop. `StepFixedSpec` and `RunFixed` are the
  corrected loop.
- `PortLoop`: class `Port`. It holds `buf` (65535 bytes) and the 2-byte length buffer as
  arrays, plus the cursor, the unread input and the output. Its methods read into the arrays
  step by step and are proved against the `Session` and `Stream` functions.
- `Options`: class `State`, the getopt loop proved against the fold `ParseFlags`, with
  lemmas about the resulting bitmask.
- `Process`: `Execute`, `main` from start to finish with the loop as written, proved against
  `MainSpec`.

Where the code and erlxc's documented behaviour disagree, the model follows the code:

- The default lifecycle is described as `temporary`. The code's default is stop-on-exit
  without destroy-on-exit, the `transient` behaviour (`Options.DefaultOptions`,
  `Process.LoopReturnRunsPolicy`).
- A frame length of 2 or less, and a body cut short mid-frame, are described as protocol
  faults that exit nonzero. The code returns from the loop in both cases. The process then
  runs the exit policy and exits 0, exactly as at a clean end of input
  (`Session.StepLoopExit`, `Process.SameExitForEveryReturn`).
- The reader accepts lengths up to 65535. The writer refuses payloads above 65531 bytes,
  which is a length of 65533. So re-encoding a frame that was read gives the same bytes only
  up to length 65533 (`Session.ReadThenRewrite`).

## Model

| member | source | states |
|---|---|---|
| Bytes.Be16 | c_src/erlxc.c:199 | `htons` of a length up to 65535 gives two bytes whose big-endian value is that length |
| Bytes.Be16OfValue | c_src/erlxc.c:143 | `ntohs` of two bytes, encoded again, gives back the same two bytes |
| Stream.SysRead | c_src/erlxc.c:218 | one `read` returns at most n bytes. It returns 0 or less exactly when n is 0 or nothing is left. A positive read returns the next bytes of the stream; otherwise nothing is consumed and the result is 0 at end of file or -1 after an error |
| Stream.Fill | c_src/erlxc.c:211-224 | `erlxc_read` returns len or the first non-positive read (0 or -1), and in the second case the stream is used up. The bytes it stores followed by what is left are the whole stream, and on success it stored exactly the missing bytes |
| Stream.FillMeetsAvail | c_src/erlxc.c:211-224 | `erlxc_read` returns len exactly when the stream holds the missing bytes. It then stores exactly the next bytes and leaves the rest; otherwise it stores everything and returns 0 or -1 |
| PortLoop.Port.Read | c_src/erlxc.c:218 | the read stores its bytes into the array at the offset, leaves every other cell unchanged and advances the input |
| PortLoop.Port.ReadRound | c_src/erlxc.c:217-221 | one pass of the do-while either stops with the read's result or moves `got` on, keeping the array and the input consistent with `Fill` |
| PortLoop.Port.ReadFull | c_src/erlxc.c:211-224 | the retrying read returns what `Fill` returns, leaves the input `Fill` leaves, reports how many bytes it stored, and changes the array only at `buf + 0 .. buf + len` |
| Wire.TypeBytes | c_src/erlxc.c:18-19 | replies carry type value 0 and events type value 1 (htons(1)) on the wire |
| Wire.FrameLayout | c_src/erlxc.c:199-206 | a frame is the length `2 + n` in big-endian order, the two type bytes and the n payload bytes, 4 + n bytes in all |
| Wire.Emit | c_src/erlxc.c:183-209 | `erlxc_write` returns -1 and writes nothing, or returns exactly the number of bytes it wrote |
| Wire.EmitLayout | c_src/erlxc.c:192-208 | `erlxc_write` succeeds exactly when the declared length is 1..65531 and standard output accepts the write. It then writes `4 + n` bytes with length field `2 + n`, type bytes 00 00 or 00 01 and the payload |
| Wire.EmittedLengthAccepted | c_src/erlxc.c:193-199 | every frame written has a length field in 3..65535 that matches its size, which the reader's check at line 145 accepts |
| PortLoop.Port.Write | c_src/erlxc.c:183-209 | the method appends exactly `Emit`'s bytes to standard output and returns its code |
| PortLoop.Port.Send | c_src/erlxc.c:177-181 | `erlxc_send` is `erlxc_write` with the asynchronous type |
| Session.ReadFrame | c_src/erlxc.c:140-149 | the body read is made for every accepted length, whatever room is left past the cursor. A frame that is taken has an accepted length that fits past the cursor and exactly that many body bytes; length prefix, body and the rest are the stream |
| Session.HeaderThenBody | c_src/erlxc.c:140-149 | the two reads of a frame take the big-endian length and then the body off the stream, in that order |
| Session.ReadFrameMeetsStream | c_src/erlxc.c:140-149 | per case, iff: no frame when fewer than 2 bytes remain; a bad length; with n the body bytes that arrive (len, or all that is left), bytes stored past `buf` exactly when n exceeds the room past the cursor; otherwise a short body, or a frame when all len bytes are there. A bad length consumes only the 2-byte prefix; an overflowing body consumes the n bytes read |
| Session.FrameTaken | c_src/erlxc.c:145-149 | a complete frame of accepted length that fits is taken whole and nothing after it |
| PortLoop.Port.ReadFrameAt | c_src/erlxc.c:140-149 | reading into `len` and then the body at the cursor gives `ReadFrame`'s result, and a frame's body sits in `buf` at the cursor |
| Session.StepSpec | c_src/erlxc.c:139-174 | one iteration never makes more input available, and an iteration that goes on consumes input |
| Session.Run | c_src/erlxc.c:139-174 | the loop as written always ends: by returning, by dying, or by overrunning `buf` |
| Session.StepFixedSpec | c_src/erlxc.c:139-174 | the iteration with the cursor reset never overruns `buf` and consumes input whenever it goes on |
| Session.RunFixed | c_src/erlxc.c:139-174 | the corrected loop always ends by returning or dying, never by overrunning |
| Session.StepOnFrame | c_src/erlxc.c:148-168 | on a whole frame: the command is the first two body bytes and the decoder gets the rest. A decode failure or a NULL reply is fatal with no reply written. Otherwise the pushed events come first, then exactly one synchronous reply frame, or a fatal write error; the cursor moves on by 2 |
| Session.StepLoopExit | c_src/erlxc.c:140-149 | the loop returns exactly when no length can be read, the length is 2 or less, or the body is short and what did arrive fits past the cursor. Only the input changes, and a bad length consumes only its 2 bytes |
| Session.WrittenFrameIsRead | c_src/erlxc.c:183-209 | whatever `erlxc_write` emits is read back, by the reader with the cursor at the start of `buf`, as one frame of the same length whose body is the type bytes and the payload |
| Session.FrameBytesRead | c_src/erlxc.c:140-149 | the bytes of one frame at the head of the input are read as that frame: length 2 + n, body the type bytes and the payload, nothing after it consumed |
| Session.ReadThenRewrite | c_src/erlxc.c:189-199 | re-encoding a frame that was read, with its own type, gives back the bytes read, for lengths up to 65533 |
| Session.DriftedCursorOverruns | c_src/erlxc.c:145-152 | once the cursor has moved, the length 65535 passes the check, and the body read stores past the end of `buf` exactly when more bytes arrive than the room past the cursor; otherwise the loop returns |
| Session.OverrunWitness | c_src/erlxc.c:145-152 | on input `00 03 00 00 07 FF FF` followed by d (at most 65534 bytes) the loop as written handles one frame and then stores past `buf` exactly when d has 65534 bytes, and returns otherwise; the corrected loop returns |
| Session.WitnessFixedStops | c_src/erlxc.c:145-149 | on the same input the corrected loop handles the first frame and returns at the short second body |
| Session.ReadFrameMoreRoom | c_src/erlxc.c:145-149 | more room in `buf` changes nothing for a frame that was not refused for lack of room |
| Session.HandleIgnoresCursor | c_src/erlxc.c:151-168 | handling a frame does not depend on the cursor and moves it on by 2 |
| Session.StepDriftAgrees | c_src/erlxc.c:139-174 | an iteration that does not overrun ends as the corrected one does, up to the cursor |
| Session.DriftOnlyOverruns | c_src/erlxc.c:139-174 | unless it overruns, the loop as written ends as the corrected loop does, with the same input, output and handled commands |
| PortLoop.Port.Dispatch | c_src/erlxc.c:151-166 | command, decode, handler, events and reply on `buf` give exactly what `Handle` gives |
| PortLoop.Port.PushEvents | c_src/erlxc.c:177-181 | the handler's events are written in order, each as `erlxc_send` writes it |
| PortLoop.Port.Step | c_src/erlxc.c:139-174 | one iteration on the arrays gives `StepSpec`'s outcome and new state |
| PortLoop.Port.Loop | c_src/erlxc.c:139-174 | the loop on the arrays, cursor never reset, gives what `Run` gives |
| PortLoop.Port.StepFixed | c_src/erlxc.c:139-174 | one iteration with the cursor reset first gives what `StepFixedSpec` gives |
| PortLoop.Port.LoopFixed | c_src/erlxc.c:139-174 | the corrected loop gives what `RunFixed` gives, and never ends in an overrun |
| PortLoop.Port.constructor | c_src/erlxc.c:132-133 | `buf` is a fresh 65535-byte buffer of zeros, the cursor is at its start, and nothing has been read, written or handled |
| Options.DefaultOptions | c_src/erlxc.c:46-48 | the defaults are stop-on-exit, daemonize and close-all-fds, but not destroy-on-exit |
| Options.State.constructor | c_src/erlxc.c:42-48 | `calloc` and the three `|=` give the default mask, verbosity 0 and no name, path or log |
| Options.State.Apply | c_src/erlxc.c:51-95 | one pass through the switch gives `ApplyFlag`'s result and fails exactly where `usage` is called |
| Options.State.ParseOptions | c_src/erlxc.c:50-96 | the getopt loop gives `ParseFlags`'s result and fails exactly where `usage` is called |
| Options.UsageIff | c_src/erlxc.c:86-94 | option parsing calls `usage` exactly when some flag is `-h`, unknown, or a `-t` with a value other than the three lifecycle names |
| Options.FlagPolicy | c_src/erlxc.c:73-88 | `-t temporary` sets stop and destroy, `transient` sets stop and clears destroy, `permanent` clears both; no other flag touches them |
| Options.PolicyFromLastT | c_src/erlxc.c:73-88 | after parsing, the stop and destroy bits are what the last `-t` chose, or the defaults without one |
| Options.FlagDebugBits | c_src/erlxc.c:52-57 | `-d nodaemonize` and `-d nocloseallfds` each clear only their own bit, any other `-d` value is ignored, and no flag touches bits outside the four options |
| Options.DebugBits | c_src/erlxc.c:52-57 | after parsing, daemonize is set iff it was set and no `-d nodaemonize` was given; likewise close-all-fds; other bits keep their values |
| Options.VerboseCounts | c_src/erlxc.c:89-91 | verbosity is the number of `-v` flags |
| Process.NameSet | c_src/erlxc.c:58-62 | after parsing, a container name is set exactly when some `-n` was given |
| Process.UsageExit | c_src/erlxc.c:98-99 | the process exits with status 1 and writes nothing exactly when a flag calls for `usage` or no `-n` was given |
| Process.ExitPolicyOrder | c_src/erlxc.c:115-124 | stop is called iff stop-on-exit is set, and is followed by the wait for STOPPED; destroy is called iff destroy-on-exit is set, and last |
| Process.ExitCalls | c_src/erlxc.c:115-124 | the two tests of `ep->opt` make exactly the calls `ExitPolicy` lists |
| Process.LoopReturnRunsPolicy | c_src/erlxc.c:113-126 | whenever the loop returns, the process makes the calls the last `-t` chose, then exits 0; with no `-t` it stops and waits without destroying |
| Process.SameExitForEveryReturn | c_src/erlxc.c:113-126 | whatever made the loop return (end of input, read error, bad length, short body), the exit status and container calls are the same |
| Process.FatalSkipsPolicy | c_src/erlxc.c:155-166 | a fatal error in the loop as written ends the process in `erl_err_quit`/`erl_err_sys` before any container call |
| Process.OverrunOnlyDifference | c_src/erlxc.c:113-152 | once the loop runs, `main` goes undefined exactly when the loop as written stores past `buf`; otherwise its output, handled commands and kind of ending are those of the corrected loop |
| Process.Execute | c_src/erlxc.c:31-127 | `main` step by step, with the loop as written, ends as `MainSpec` says: usage, container creation failure, loop death, a store past `buf`, or exit 0 after the exit policy |

## Left out

- The Erlang term codec (`erl_decode`, `erl_encode`, `erl_term_len`) is a parameter of the model. Only the lengths it declares and the bytes it writes matter here.
- `erl_decode` receives no length, so it may read past the frame. The model's decoder sees exactly the frame's argument bytes.
- `erlxc_cmd` and liblxc are not part of this model. The command handler is a parameter that sees the earlier commands, and may push events and return a reply or NULL.
- The events a command pushes through `erlxc_send` are modelled as written before its reply. The model ignores a failed `erlxc_send`, because what `erlxc_cmd` does with that result is not part of this model.
- `lxc_container_new` is a parameter of `Process.Execute` saying whether a container is returned. The stop, wait and destroy calls are recorded in order, not performed. Their results are ignored by the code.
- `erl_err_quit` and `erl_err_sys` print and exit inside the erl_interface library, with a status not shown here. The model ends the process with `Quit` and its reason and runs no exit policy.
- `calloc` and `strdup` failures, `freopen` of the error log, `fflush`, `VERBOSE` logging, `erlxc_stats` and the text printed by `usage` are I/O or allocation outside the framing logic.
- Daemonizing and closing file descriptors only read the bits modelled in `Options`.
- The option bit values come from `erlxc.h`, which is not part of this model. The model uses four distinct bits of an 8-bit mask; the wider bits of `ep->opt` are never touched.
- `writev` is modelled as writing the whole frame or failing with -1. Partial writes are not modelled.
- `read` is modelled on a chunked stream. Signals (`EINTR`) and short reads are covered only as the chunk boundaries allow.
- `PortLoop.Port.ReadFull`: `erlxc_read` is a do-while, and for `len == 0` it would issue one `read` of 0 bytes. The model's loop issues none and returns 0. Both results are 0, so only that extra call is not captured; every call site passes a length of at least 2.
- `Session.Run`: when the loop as written stores body bytes past the end of `buf`, the model stops with the outcome `Overrun` (`Undefined` for the whole process) and does not model the undefined behaviour that follows.
- `PortLoop.Port.ReadFrameAt`: a body that does not fit past the cursor is read into a separate array that stands for the memory from `msg` on, so `buf` itself is left unchanged in that case; which bytes would land inside `buf` is not tracked.
- `Process.Execute`: `erlxc_cmd` receives `ep` and could change `ep->opt` or `ep->verbose`. The handler is assumed to leave them alone, so the exit policy is the one the options parsed.
- `Wire.Emit`: whether standard output accepts a write is one flag for the whole run (`Env.stdoutOpen`). A write that fails after earlier ones succeeded, such as a closed pipe, is not modelled.
- `Wire.Emit`: `erl_term_len` and `erl_encode` are one encoder whose bytes are the declared length's worth. An `erl_encode` failure after a declared length of 1 or more is not a separate case; it is expressed by the encoder returning nothing, which gives the same -1 with nothing written.

## Findings

| source | as written | input that shows it | evidently intended | confidence | as-written member | corrected member |
|---|---|---|---|---|---|---|
| c_src/erlxc.c:145-152 | `msg` starts at `buf` and moves on by 2 for every frame, but is never reset. The length check still compares against the whole of `buf` (65535), so after k frames a body of up to 65535 bytes is read to `buf + 2k`, and it overruns `buf` once more than 65535 - 2k of its bytes arrive | stdin `00 03 00 00 07 FF FF` followed by 65534 more bytes: one frame (command 0, argument byte 7), then a length of 65535 whose body is read to `buf + 2`; 65534 bytes arrive and only 65533 fit | each frame is read to the start of `buf` (or the check uses the room left past `msg`), so no frame is ever stored outside `buf` | not executed | Session.OverrunWitness | Session.RunFixed |
