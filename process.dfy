/**
 * main: parse the options, create the container, run the port loop, and on the way out apply the
 * container's lifecycle policy.
 */
module Process {
  import opened Bytes
  import opened Codec
  import opened Stream
  import opened Session
  import opened Options
  import opened PortLoop

  /** A call main makes on the container after the loop returns. */
  datatype Action = StopContainer | WaitFor(state: string) | DestroyContainer

  /** Why the process died inside erl_err_quit instead of reaching exit(). */
  datatype Reason = NoContainer | LoopFault(fault: Fault)

  /**
   * exit(code) from main or usage(), after the container calls in order; death in erl_err_quit;
   * or a frame stored past the end of buf, after which nothing the C program does is defined.
   */
  datatype Termination = Exit(code: int, actions: seq<Action>) | Quit(reason: Reason) | Undefined

  /** How the process ends, with everything written to standard output and every command run. */
  datatype Ending = Ending(how: Termination, output: seq<byte>, handled: seq<Request>)

  /** lxc_container_new(name, path): whether it returns a container. */
  type Creator = (string, Option<string>) -> bool

  /** The container calls for a (stop, destroy) pair. */
  function PolicyActions(p: (bool, bool)): seq<Action>
  {
    (if p.0 then [StopContainer, WaitFor("STOPPED")] else []) + (if p.1 then [DestroyContainer] else [])
  }

  /** The container calls main makes after the loop, for a given ep->opt. */
  function ExitPolicy(opt: Mask): seq<Action>
  {
    PolicyActions((Has(opt, StopOnExit), Has(opt, DestroyOnExit)))
  }

  /** main from start to end, with erlxc_loop as written. */
  function MainSpec(flags: seq<Flag>, create: Creator, env: Env, stdin: seq<Chunk>): Ending
  {
    match ParseFlags(Initial, flags)
    case None => Ending(Exit(1, []), [], [])
    case Some(c) =>
      if c.name.None? then Ending(Exit(1, []), [], [])
      else if !create(c.name.value, c.path) then Ending(Quit(NoContainer), [], [])
      else
        var r := Run(LoopState(stdin, [], 0, []), env);
        if r.0.Overrun? then Ending(Undefined, r.1.output, r.1.handled)
        else if r.0.Fatal? then Ending(Quit(LoopFault(r.0.fault)), r.1.output, r.1.handled)
        else Ending(Exit(0, ExitPolicy(c.opt)), r.1.output, r.1.handled)
  }

  /** After a successful parse, a name is set exactly when one was before or some -n was given. */
  lemma {:induction false} NameSet(c: Config, flags: seq<Flag>)
    requires ParseFlags(c, flags).Some?
    ensures ParseFlags(c, flags).value.name.Some? <==>
      c.name.Some? || exists i :: 0 <= i < |flags| && flags[i].N?
    decreases |flags|
  {
    if flags != [] {
      ParseStep(c, flags);
      NameSet(ApplyFlag(c, flags[0]).value, flags[1..]);
      if exists i :: 0 <= i < |flags| && flags[i].N? {
        var i :| 0 <= i < |flags| && flags[i].N?;
        if i > 0 {
          assert flags[1..][i - 1] == flags[i];
        }
      }
      forall i | 0 <= i < |flags| - 1 && flags[1..][i].N?
        ensures exists j :: 0 <= j < |flags| && flags[j].N?
      {
        assert flags[i + 1] == flags[1..][i];
      }
    }
  }

  /**
   * usage() is reached, and the process exits with status 1 having written nothing, exactly when
   * some flag calls for it or no -n was given.
   */
  lemma UsageExit(flags: seq<Flag>, create: Creator, env: Env, stdin: seq<Chunk>)
    ensures MainSpec(flags, create, env, stdin) == Ending(Exit(1, []), [], []) <==>
      (exists i :: 0 <= i < |flags| && CallsUsage(flags[i])) ||
      (forall i :: 0 <= i < |flags| ==> !flags[i].N?)
  {
    UsageIff(Initial, flags);
    if ParseFlags(Initial, flags).Some? {
      NameSet(Initial, flags);
    }
  }

  /** The exit calls: stop is always followed by the wait for STOPPED, and destroy comes last. */
  lemma ExitPolicyOrder(opt: Mask)
    ensures var acts := ExitPolicy(opt);
      (StopContainer in acts <==> Has(opt, StopOnExit)) &&
      (DestroyContainer in acts <==> Has(opt, DestroyOnExit)) &&
      (forall i :: 0 <= i < |acts| && acts[i] == StopContainer ==>
         i + 1 < |acts| && acts[i + 1] == WaitFor("STOPPED")) &&
      (forall i :: 0 <= i < |acts| && acts[i] == DestroyContainer ==> i == |acts| - 1)
  {
  }

  /**
   * When the loop returns, main exits with status 0 and the container calls that the last -t
   * flag chose; with no -t flag that is stop and wait but no destroy, the transient policy.
   */
  lemma {:induction false} LoopReturnRunsPolicy(flags: seq<Flag>, create: Creator, env: Env, stdin: seq<Chunk>)
    requires MainSpec(flags, create, env, stdin).how.Exit?
    requires MainSpec(flags, create, env, stdin).how.code != 1
    ensures MainSpec(flags, create, env, stdin).how ==
      Exit(0, PolicyActions(LastPolicy(flags, true, false)))
    ensures (forall i :: 0 <= i < |flags| ==> !flags[i].T?) ==>
      MainSpec(flags, create, env, stdin).how == Exit(0, [StopContainer, WaitFor("STOPPED")])
  {
    PolicyFromLastT(Initial, flags);
    NoTKeeps(flags, true, false);
  }

  /** Without -t flags the (stop, destroy) pair stays what it was. */
  lemma {:induction false} NoTKeeps(flags: seq<Flag>, stop: bool, destroy: bool)
    ensures (forall i :: 0 <= i < |flags| ==> !flags[i].T?) ==> LastPolicy(flags, stop, destroy) == (stop, destroy)
  {
    if flags != [] && forall i :: 0 <= i < |flags| ==> !flags[i].T? {
      assert !flags[0].T?;
      forall i | 0 <= i < |flags| - 1
        ensures !flags[1..][i].T?
      {
        assert flags[1..][i] == flags[i + 1];
      }
      NoTKeeps(flags[1..], stop, destroy);
    }
  }

  /**
   * How the loop returned does not matter: an end of input, a read error and a bad frame length
   * all lead to the same exit and the same container calls.
   */
  lemma SameExitForEveryReturn(flags: seq<Flag>, create: Creator, env: Env, s1: seq<Chunk>, s2: seq<Chunk>)
    requires MainSpec(flags, create, env, s1).how.Exit? && MainSpec(flags, create, env, s2).how.Exit?
    ensures MainSpec(flags, create, env, s1).how == MainSpec(flags, create, env, s2).how
  {
  }

  /** A fatal error in the loop ends the process in erl_err_quit, before any container call. */
  lemma FatalSkipsPolicy(flags: seq<Flag>, create: Creator, env: Env, stdin: seq<Chunk>)
    requires ParseFlags(Initial, flags).Some?
    requires ParseFlags(Initial, flags).value.name.Some?
    requires create(ParseFlags(Initial, flags).value.name.value, ParseFlags(Initial, flags).value.path)
    requires Run(LoopState(stdin, [], 0, []), env).0.Fatal?
    ensures MainSpec(flags, create, env, stdin).how ==
      Quit(LoopFault(Run(LoopState(stdin, [], 0, []), env).0.fault))
  {
  }

  /**
   * Once the loop runs, the drifting cursor is the only difference from the corrected loop: main
   * goes undefined exactly when the loop as written overruns buf, and otherwise it ends with the
   * output, the handled requests and the kind of ending that the corrected loop gives.
   */
  lemma {:induction false} OverrunOnlyDifference(flags: seq<Flag>, create: Creator, env: Env, stdin: seq<Chunk>)
    requires ParseFlags(Initial, flags).Some?
    requires ParseFlags(Initial, flags).value.name.Some?
    requires create(ParseFlags(Initial, flags).value.name.value, ParseFlags(Initial, flags).value.path)
    ensures var m := MainSpec(flags, create, env, stdin); var st := LoopState(stdin, [], 0, []);
      (m.how == Undefined <==> Run(st, env).0 == Overrun) &&
      (m.how != Undefined ==>
         m.output == RunFixed(st, env).1.output && m.handled == RunFixed(st, env).1.handled &&
         (m.how.Quit? <==> RunFixed(st, env).0.Fatal?))
  {
    var st := LoopState(stdin, [], 0, []);
    if Run(st, env).0 != Overrun {
      DriftOnlyOverruns(st, env);
    }
  }

  /** main itself, step by step, ending where the C program calls exit() or dies. */
  method Execute(flags: seq<Flag>, create: Creator, env: Env, stdin: seq<Chunk>) returns (e: Ending)
    ensures e == MainSpec(flags, create, env, stdin)
  {
    var ep := new State();
    var ok := ep.ParseOptions(flags);
    ghost var parsed := ParseFlags(Initial, flags);
    if !ok {
      return Ending(Exit(1, []), [], []);
    }
    if ep.name.None? {
      return Ending(Exit(1, []), [], []);
    }
    if !create(ep.name.value, ep.path) {
      return Ending(Quit(NoContainer), [], []);
    }
    assert parsed == Some(ep.Cfg());
    var port := new Port(stdin);
    var o := port.Loop(env);
    if o.Overrun? {
      return Ending(Undefined, port.output, port.handled);
    }
    if o.Fatal? {
      return Ending(Quit(LoopFault(o.fault)), port.output, port.handled);
    }
    var acts := ExitCalls(ep.opt);
    return Ending(Exit(0, acts), port.output, port.handled);
  }

  /** The two tests of ep->opt after erlxc_loop returns, and the container calls they make. */
  method ExitCalls(opt: Mask) returns (acts: seq<Action>)
    ensures acts == ExitPolicy(opt)
  {
    acts := [];
    if opt & StopOnExit != 0 {
      acts := acts + [StopContainer, WaitFor("STOPPED")];
    }
    if opt & DestroyOnExit != 0 {
      acts := acts + [DestroyContainer];
    }
  }
}
