/**
 * The startup options of main: the ep->opt bitmask and the ep->verbose counter, set step by step
 * by the getopt loop.
 */
module Options {
  import opened Codec

  /**
   * The low byte of ep->opt. The bit values are defined in erlxc.h; any four distinct bits behave
   * the same, and main never touches the bits above them.
   */
  type Mask = bv8

  const Daemonize: Mask := 1
  const CloseAllFds: Mask := 2
  const StopOnExit: Mask := 4
  const DestroyOnExit: Mask := 8

  /** The four bits main sets or clears. */
  const Known: Mask := Daemonize | CloseAllFds | StopOnExit | DestroyOnExit

  /** ep->opt after calloc and the three `|=` before the getopt loop. */
  const Default: Mask := StopOnExit | Daemonize | CloseAllFds

  /** One option as getopt returns it for "d:hn:o:P:t:v"; Other is '?' and anything else. */
  datatype Flag = D(arg: string) | N(arg: string) | O(arg: string) | P(arg: string)
                | T(arg: string) | V | H | Other

  /** The fields of erlxc_state_t and main's locals that the getopt loop sets. */
  datatype Config = Config(opt: Mask, verbose: nat, name: Option<string>, path: Option<string>,
                           errlog: Option<string>)

  /** The state main starts the getopt loop with. */
  const Initial: Config := Config(Default, 0, None, None, None)

  /** `opt |= bit` */
  function Set(opt: Mask, bit: Mask): Mask
  {
    opt | bit
  }

  /** `opt &= ~bit` */
  function Clear(opt: Mask, bit: Mask): Mask
  {
    opt & !bit
  }

  predicate Has(opt: Mask, bit: Mask)
  {
    opt & bit != 0
  }

  /** One pass through the switch of the getopt loop; None when it calls usage(). */
  function ApplyFlag(c: Config, f: Flag): Option<Config>
  {
    match f
    case D(a) =>
      if a == "nodaemonize" then Some(c.(opt := Clear(c.opt, Daemonize)))
      else if a == "nocloseallfds" then Some(c.(opt := Clear(c.opt, CloseAllFds)))
      else Some(c)
    case N(a) => Some(c.(name := Some(a)))
    case O(a) => Some(c.(errlog := Some(a)))
    case P(a) => Some(c.(path := Some(a)))
    case T(a) =>
      if a == "temporary" then Some(c.(opt := Set(Set(c.opt, StopOnExit), DestroyOnExit)))
      else if a == "transient" then Some(c.(opt := Clear(Set(c.opt, StopOnExit), DestroyOnExit)))
      else if a == "permanent" then Some(c.(opt := Clear(Clear(c.opt, StopOnExit), DestroyOnExit)))
      else None
    case V => Some(c.(verbose := c.verbose + 1))
    case H => None
    case Other => None
  }

  /** The whole getopt loop: the flags in order, stopping at the first call of usage(). */
  function ParseFlags(c: Config, flags: seq<Flag>): Option<Config>
    decreases |flags|
  {
    if flags == [] then Some(c)
    else match ApplyFlag(c, flags[0])
      case None => None
      case Some(c') => ParseFlags(c', flags[1..])
  }

  /** A flag on which the getopt loop calls usage(). */
  predicate CallsUsage(f: Flag)
  {
    f.H? || f.Other? || (f.T? && f.arg != "temporary" && f.arg != "transient" && f.arg != "permanent")
  }

  /** The lifecycle policy a -t argument names, as the pair (stop, destroy). */
  function PolicyBits(a: string, stop: bool, destroy: bool): (bool, bool)
  {
    if a == "temporary" then (true, true)
    else if a == "transient" then (true, false)
    else if a == "permanent" then (false, false)
    else (stop, destroy)
  }

  /** The (stop, destroy) pair left after the -t flags in order, starting from the given pair. */
  function LastPolicy(flags: seq<Flag>, stop: bool, destroy: bool): (bool, bool)
  {
    if flags == [] then (stop, destroy)
    else if flags[0].T? then
      var p := PolicyBits(flags[0].arg, stop, destroy);
      LastPolicy(flags[1..], p.0, p.1)
    else LastPolicy(flags[1..], stop, destroy)
  }

  /** The number of -v flags. */
  function CountV(flags: seq<Flag>): nat
  {
    if flags == [] then 0 else (if flags[0].V? then 1 else 0) + CountV(flags[1..])
  }

  /** The default is stop-on-exit, daemonize and close-all-fds, without destroy-on-exit. */
  lemma DefaultOptions()
    ensures Has(Default, StopOnExit) && Has(Default, Daemonize) && Has(Default, CloseAllFds)
    ensures !Has(Default, DestroyOnExit)
  {
  }

  /** The getopt loop calls usage() exactly when some flag calls for it. */
  lemma {:induction false} UsageIff(c: Config, flags: seq<Flag>)
    ensures ParseFlags(c, flags).None? <==> exists i :: 0 <= i < |flags| && CallsUsage(flags[i])
    decreases |flags|
  {
    if flags != [] {
      if !CallsUsage(flags[0]) {
        var c' := ApplyFlag(c, flags[0]).value;
        UsageIff(c', flags[1..]);
        if exists i :: 0 <= i < |flags| && CallsUsage(flags[i]) {
          var i :| 0 <= i < |flags| && CallsUsage(flags[i]);
          assert flags[1..][i - 1] == flags[i];
        }
        forall i | 0 <= i < |flags| - 1 && CallsUsage(flags[1..][i])
          ensures exists j :: 0 <= j < |flags| && CallsUsage(flags[j])
        {
          assert flags[i + 1] == flags[1..][i];
        }
      }
    }
  }

  /** ParseFlags takes one step past a flag that does not call usage(). */
  lemma ParseStep(c: Config, flags: seq<Flag>)
    requires flags != [] && ApplyFlag(c, flags[0]).Some?
    ensures ParseFlags(c, flags) == ParseFlags(ApplyFlag(c, flags[0]).value, flags[1..])
  {
  }

  /** One flag moves the (stop, destroy) pair as PolicyBits says when it is -t, and not otherwise. */
  lemma FlagPolicy(c: Config, f: Flag)
    requires ApplyFlag(c, f).Some?
    ensures var r := ApplyFlag(c, f).value;
      (Has(r.opt, StopOnExit), Has(r.opt, DestroyOnExit)) ==
        if f.T? then PolicyBits(f.arg, Has(c.opt, StopOnExit), Has(c.opt, DestroyOnExit))
        else (Has(c.opt, StopOnExit), Has(c.opt, DestroyOnExit))
  {
  }

  /** One flag clears daemonize only when it is -d nodaemonize, close-all-fds only when it is
      -d nocloseallfds, and touches no other bit. */
  lemma FlagDebugBits(c: Config, f: Flag)
    requires ApplyFlag(c, f).Some?
    ensures var r := ApplyFlag(c, f).value;
      (Has(r.opt, Daemonize) <==> Has(c.opt, Daemonize) && f != D("nodaemonize")) &&
      (Has(r.opt, CloseAllFds) <==> Has(c.opt, CloseAllFds) && f != D("nocloseallfds")) &&
      r.opt & !Known == c.opt & !Known
  {
    match f
    case D(a) =>
      assert a == "nodaemonize" <==> f == D("nodaemonize");
      assert a == "nocloseallfds" <==> f == D("nocloseallfds");
    case T(a) =>
      if a == "temporary" {
      } else if a == "transient" {
      } else {
        assert a == "permanent";
      }
    case _ =>
  }

  /**
   * After a successful parse, stop-on-exit and destroy-on-exit are what the last -t flag set,
   * or what they were before if there was none.
   */
  lemma {:induction false} PolicyFromLastT(c: Config, flags: seq<Flag>)
    requires ParseFlags(c, flags).Some?
    ensures var r := ParseFlags(c, flags).value;
      (Has(r.opt, StopOnExit), Has(r.opt, DestroyOnExit)) ==
        LastPolicy(flags, Has(c.opt, StopOnExit), Has(c.opt, DestroyOnExit))
    decreases |flags|
  {
    if flags != [] {
      var c' := ApplyFlag(c, flags[0]).value;
      ParseStep(c, flags);
      FlagPolicy(c, flags[0]);
      PolicyFromLastT(c', flags[1..]);
    }
  }

  /**
   * -d nodaemonize and -d nocloseallfds each clear only their own bit: after a successful parse
   * the daemonize bit is set exactly when it was set before and no -d nodaemonize was given,
   * and likewise for close-all-fds. No bit other than the four is touched.
   */
  lemma {:induction false} DebugBits(c: Config, flags: seq<Flag>)
    requires ParseFlags(c, flags).Some?
    ensures var r := ParseFlags(c, flags).value;
      (Has(r.opt, Daemonize) <==> Has(c.opt, Daemonize) && D("nodaemonize") !in flags) &&
      (Has(r.opt, CloseAllFds) <==> Has(c.opt, CloseAllFds) && D("nocloseallfds") !in flags) &&
      r.opt & !Known == c.opt & !Known
    decreases |flags|
  {
    if flags != [] {
      var c' := ApplyFlag(c, flags[0]).value;
      ParseStep(c, flags);
      FlagDebugBits(c, flags[0]);
      DebugBits(c', flags[1..]);
      assert flags == [flags[0]] + flags[1..];
    }
  }

  /** Each -v adds one to ep->verbose; nothing else changes it. */
  lemma {:induction false} VerboseCounts(c: Config, flags: seq<Flag>)
    requires ParseFlags(c, flags).Some?
    ensures ParseFlags(c, flags).value.verbose == c.verbose + CountV(flags)
    decreases |flags|
  {
    if flags != [] {
      ParseStep(c, flags);
      VerboseCounts(ApplyFlag(c, flags[0]).value, flags[1..]);
    }
  }

  /** The state erlxc_state_t and the locals of main hold while options are parsed. */
  class State {
    var opt: Mask
    var verbose: nat
    var name: Option<string>
    var path: Option<string>
    var errlog: Option<string>

    function Cfg(): Config
      reads this
    {
      Config(opt, verbose, name, path, errlog)
    }

    /** calloc of ep, then stop-on-exit, daemonize and close-all-fds switched on. */
    constructor ()
      ensures Cfg() == Initial
    {
      opt := 0;
      verbose := 0;
      name, path, errlog := None, None, None;
      new;
      opt := Set(opt, StopOnExit);
      opt := Set(opt, Daemonize);
      opt := Set(opt, CloseAllFds);
    }

    /** One pass through the switch of the getopt loop; false where it calls usage(). */
    method Apply(f: Flag) returns (ok: bool)
      modifies this
      ensures ok == ApplyFlag(old(Cfg()), f).Some?
      ensures ok ==> Cfg() == ApplyFlag(old(Cfg()), f).value
    {
      match f {
      case D(a) =>
        if a == "nodaemonize" {
          opt := Clear(opt, Daemonize);
        } else if a == "nocloseallfds" {
          opt := Clear(opt, CloseAllFds);
        }
      case N(a) => name := Some(a);
      case O(a) => errlog := Some(a);
      case P(a) => path := Some(a);
      case T(a) =>
        if a == "temporary" {
          opt := Set(opt, StopOnExit);
          opt := Set(opt, DestroyOnExit);
        } else if a == "transient" {
          opt := Set(opt, StopOnExit);
          opt := Clear(opt, DestroyOnExit);
        } else if a == "permanent" {
          opt := Clear(opt, StopOnExit);
          opt := Clear(opt, DestroyOnExit);
        } else {
          return false;
        }
      case V => verbose := verbose + 1;
      case H => return false;
      case Other => return false;
      }
      return true;
    }

    /**
     * The getopt loop of main. It returns false where the C program calls usage(), which prints
     * and exits; otherwise the fields hold what the flags set.
     */
    method ParseOptions(flags: seq<Flag>) returns (ok: bool)
      modifies this
      ensures ok == ParseFlags(old(Cfg()), flags).Some?
      ensures ok ==> Cfg() == ParseFlags(old(Cfg()), flags).value
    {
      var i := 0;
      while i < |flags|
        invariant 0 <= i <= |flags|
        invariant ParseFlags(old(Cfg()), flags) == ParseFlags(Cfg(), flags[i..])
      {
        assert flags[i..][1..] == flags[i + 1..];
        ok := Apply(flags[i]);
        if !ok {
          return false;
        }
        i := i + 1;
      }
      return true;
    }
  }
}
