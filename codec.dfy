/**
 * The collaborators the framing core calls but does not implement: the Erlang term codec of
 * erl_interface and the command handler erlxc_cmd. They are oracles handed to the core.
 */
module Codec {
  import opened Bytes

  datatype Option<T> = None | Some(value: T)

  /** A decoded Erlang term (an ETERM pointer); the core only passes it along. */
  datatype Term = Term(handle: nat)

  /** A request the handler has seen: the 16-bit command and its decoded argument. */
  datatype Request = Request(cmd: nat, arg: Term)

  /**
   * What one erlxc_cmd call does that the core can see: the terms it pushes through
   * erlxc_send while it runs, in order, and the reply it returns (None for NULL).
   */
  datatype Dispatch = Dispatch(events: seq<Term>, reply: Option<Term>)

  /**
   * The environment of the port program.
   * - decode: erl_decode on the argument bytes; None when it returns NULL.
   * - encode: erl_term_len and erl_encode together; None when erl_term_len is negative,
   *   Some(b) when the declared length is |b| and erl_encode stores exactly b.
   * - handler: erlxc_cmd; it sees the requests handled before, which stand in for the
   *   state of the container it works on.
   * - stdoutOpen: whether writev on standard output succeeds.
   */
  datatype Env = Env(
    decode: seq<byte> -> Option<Term>,
    encode: Term -> Option<seq<byte>>,
    handler: (seq<Request>, nat, Term) -> Dispatch,
    stdoutOpen: bool)
}
