/** The hub's registry of child processes and its exit bookkeeping (main.go).

    The hub keeps its children in a map from id to child. Ids are the integers 0..19: a new
    child takes the smallest one not in use, and at most 20 children are registered. A child
    leaves the map when the operator kills it and again, by id, when its exit is delivered.

    Processes are abstract. Whether exec could start the program is a parameter of StartChild,
    the error that waiting on the process gives is a parameter of Wait, and what the process
    writes to its standard error is Child.WriteStderr. Each goroutine step (a process exiting, the
    consumer taking an exit off the channel, one command of the command loop) is one atomic
    method call, so any interleaving of them is a sequence of these calls. */
module Registry {
  import opened Wrappers
  import Text
  import Format
  import opened Commands

  /** The number of ids the hub hands out, and so the most children it holds. */
  const MaxChildren: int := 20

  const ChildLimitError: string := "Child limit (20) reached"

  /** The text of fmt.Errorf("exec failed: %w", err). */
  function ExecFailed(cause: string): string {
    "exec failed: " + cause
  }

  /** What Wait sends on the exit channel: the child's id at that moment and its error. */
  datatype ChildExit = ChildExit(id: int, err: Option<string>)

  /** What the exit consumer prints for an exit. */
  datatype Report = ExitedNormally(id: int) | ExitedAbnormally(id: int, detail: string)

  /** What one command of the command loop prints or does. */
  datatype Response =
    | Continue                       // an unrecognised command: prompt again
    | WrongNumberOfArguments
    | OutsideValidRange              // "example" naming an id that is not registered
    | ExampleSent
    | MustProvideBinary
    | StartOutcome(err: Option<string>)
    | KillRequested
    | Listing(ids: set<int>)
    | Exiting

  /* ---------------- the command loop on the registered ids ---------------- */

  /** The response to one command with the ids `keys` registered. */
  function ResponseTo(keys: set<int>, cmd: Command, startErr: Option<string>): (resp: Response)
    ensures resp == Exiting <==> cmd.Exit?
    ensures cmd.Create? ==> resp.StartOutcome? && (resp.err.None? <==> |keys| < MaxChildren && startErr.None?)
    ensures cmd.Example? ==> (resp == ExampleSent <==> cmd.from in keys && cmd.to in keys)
  {
    match cmd
    case Example(from, to) => if from in keys && to in keys then ExampleSent else OutsideValidRange
    case Create(_, _) => StartOutcome(Hub.StartError(|keys|, startErr))
    case Kill(_) => KillRequested
    case List => Listing(keys)
    case Exit => Exiting
    case WrongArgumentCount => WrongNumberOfArguments
    case MissingBinary => MustProvideBinary
    case Unrecognised => Continue
  }

  /** The ids registered after one command: a successful create adds the smallest free id, a kill
      removes its id, and nothing else changes the registry. */
  function KeysAfter(keys: set<int>, cmd: Command, startErr: Option<string>): (after: set<int>)
    ensures (forall k | k in keys :: 0 <= k < MaxChildren) ==> forall k | k in after :: 0 <= k < MaxChildren
    ensures cmd.Kill? ==> cmd.id !in after && after <= keys
    ensures cmd.Create? ==> keys <= after && |after| <= |keys| + 1
    ensures !cmd.Create? && !cmd.Kill? ==> after == keys
  {
    match cmd
    case Create(_, _) =>
      if Hub.StartError(|keys|, startErr).None? && SmallestFree(keys).Some? then
        keys + {SmallestFree(keys).value}
      else keys
    case Kill(id) => keys - {id}
    case _ => keys
  }

  /** The responses to `cmds` run in turn from the ids `keys`, and the ids registered after them. */
  function Run(keys: set<int>, cmds: seq<Command>, errs: seq<Option<string>>): (r: (seq<Response>, set<int>))
    requires |errs| == |cmds|
    ensures |r.0| == |cmds|
    ensures forall i | 0 <= i < |cmds| :: (r.0[i] == Exiting <==> cmds[i].Exit?)
    decreases |cmds|
  {
    if cmds == [] then ([], keys)
    else
      var n := |cmds| - 1;
      var before := Run(keys, cmds[..n], errs[..n]);
      (before.0 + [ResponseTo(before.1, cmds[n], errs[n])], KeysAfter(before.1, cmds[n], errs[n]))
  }

  /** Running one more command extends the responses by its response from the ids before it. */
  lemma RunStep(keys: set<int>, cmds: seq<Command>, errs: seq<Option<string>>, i: nat)
    requires |errs| == |cmds| && i < |cmds|
    ensures var before := Run(keys, cmds[..i], errs[..i]);
            Run(keys, cmds[..i + 1], errs[..i + 1]) ==
              (before.0 + [ResponseTo(before.1, cmds[i], errs[i])], KeysAfter(before.1, cmds[i], errs[i]))
  {
    assert cmds[..i + 1][..i] == cmds[..i] && errs[..i + 1][..i] == errs[..i];
  }

  /** Whatever the commands, the registry never holds an id outside [0, 20), and so never more
      than 20 children. */
  lemma {:induction false} RunBounded(keys: set<int>, cmds: seq<Command>, errs: seq<Option<string>>)
    requires |errs| == |cmds|
    requires forall k | k in keys :: 0 <= k < MaxChildren
    ensures forall k | k in Run(keys, cmds, errs).1 :: 0 <= k < MaxChildren
    ensures |Run(keys, cmds, errs).1| <= MaxChildren
    decreases |cmds|
  {
    var after := Run(keys, cmds, errs).1;
    if cmds != [] {
      var n := |cmds| - 1;
      RunBounded(keys, cmds[..n], errs[..n]);
    }
    RegistryBound(after);
  }

  /* ---------------- id allocation ---------------- */

  /** The smallest id in [from, MaxChildren) that is not a key, if any. */
  function FirstFreeFrom(keys: set<int>, from: nat): (r: Option<int>)
    requires from <= MaxChildren
    ensures r.Some? ==> from <= r.value < MaxChildren && r.value !in keys &&
                        forall j | from <= j < r.value :: j in keys
    ensures r.None? ==> forall j | from <= j < MaxChildren :: j in keys
    decreases MaxChildren - from
  {
    if from == MaxChildren then None
    else if from !in keys then Some(from)
    else FirstFreeFrom(keys, from + 1)
  }

  /** The id AddChild hands out: the least integer of [0, 20) that is not in use. */
  function SmallestFree(keys: set<int>): (r: Option<int>)
    ensures r.Some? ==> 0 <= r.value < MaxChildren && r.value !in keys &&
                        forall j | 0 <= j < r.value :: j in keys
    ensures r.None? ==> forall j | 0 <= j < MaxChildren :: j in keys
  {
    FirstFreeFrom(keys, 0)
  }

  /** A set of ids below n has at most n elements. */
  lemma {:induction false} BoundedIds(keys: set<int>, n: nat)
    requires forall k | k in keys :: 0 <= k < n
    ensures |keys| <= n
  {
    if n == 0 {
      assert forall k :: k !in keys;
      assert keys == {};
    } else {
      var rest := keys - {n - 1};
      BoundedIds(rest, n - 1);
      if n - 1 !in keys {
        assert rest == keys;
      }
    }
  }

  /** A set holding every id below n has at least n elements. */
  lemma {:induction false} CoveringIds(keys: set<int>, n: nat)
    requires forall j | 0 <= j < n :: j in keys
    ensures |keys| >= n
  {
    if n > 0 {
      CoveringIds(keys - {n - 1}, n - 1);
    }
  }

  /** Keys drawn from [0, 20) are at most 20. */
  lemma RegistryBound(keys: set<int>)
    requires forall k | k in keys :: 0 <= k < MaxChildren
    ensures |keys| <= MaxChildren
  {
    BoundedIds(keys, MaxChildren);
  }

  /** With fewer than 20 ids in use, a free one exists: the allocation loop always succeeds
      once StartChild's cap check has passed. */
  lemma FreeIdExists(keys: set<int>)
    requires |keys| < MaxChildren
    ensures SmallestFree(keys).Some?
  {
    if SmallestFree(keys).None? {
      CoveringIds(keys, MaxChildren);
    }
  }

  /** The free id is determined by the keys: an id that is free while every smaller one is taken
      is the one handed out. */
  lemma SmallestFreeIsLeast(keys: set<int>, k: int)
    requires 0 <= k < MaxChildren && k !in keys
    requires forall j | 0 <= j < k :: j in keys
    ensures SmallestFree(keys) == Some(k)
  {
  }

  /** Id reuse: once id k is deleted, and every smaller id is still in use, k is handed out again. */
  lemma IdReuse(keys: set<int>, k: int)
    requires 0 <= k < MaxChildren
    requires forall j | 0 <= j < k :: j in keys
    ensures SmallestFree(keys - {k}) == Some(k)
  {
    SmallestFreeIsLeast(keys - {k}, k);
  }

  /* ---------------- the exit outcome (Wait) and its report ---------------- */

  /** The error Wait puts in the ChildExit: nil when the hub killed the child; otherwise, when the
      process failed and wrote to stderr, fmt.Errorf applied to that text; otherwise the error of
      cmd.Wait itself. */
  function ExitError(killedByParent: bool, waitErr: Option<string>, stderr: string): (err: Option<string>)
    ensures err.None? <==> killedByParent || waitErr.None?
    ensures !killedByParent && stderr == [] ==> err == waitErr
    ensures !killedByParent && waitErr.Some? && stderr != [] && '%' !in stderr ==> err == Some(stderr)
  {
    if killedByParent then None
    else if waitErr.Some? && stderr != [] then Some(Format.Errorf(stderr))
    else waitErr
  }

  /** What the exit consumer prints for an exit. */
  function ReportOf(exit: ChildExit): (report: Report)
    ensures report.id == exit.id
    ensures report.ExitedNormally? <==> exit.err.None?
    ensures report.ExitedAbnormally? ==> report.detail == exit.err.value
  {
    match exit.err
    case None => ExitedNormally(exit.id)
    case Some(text) => ExitedAbnormally(exit.id, text)
  }

  /** A child the hub killed is always reported as having exited normally. */
  lemma ParentKilledReportedNormal(id: int, waitErr: Option<string>, stderr: string)
    ensures ReportOf(ChildExit(id, ExitError(true, waitErr, stderr))) == ExitedNormally(id)
  {
  }

  /** An exit is reported abnormal exactly when the hub did not kill the child and waiting on the
      process gave an error; its detail is the stderr text when that has no '%' in it and is
      non-empty, and the wait error when stderr is empty. */
  lemma AbnormalIff(id: int, killed: bool, waitErr: Option<string>, stderr: string)
    ensures var report := ReportOf(ChildExit(id, ExitError(killed, waitErr, stderr)));
            (report.ExitedAbnormally? <==> !killed && waitErr.Some?) &&
            (report.ExitedAbnormally? && stderr == [] ==> report.detail == waitErr.value) &&
            (report.ExitedAbnormally? && stderr != [] && '%' !in stderr ==> report.detail == stderr)
  {
  }

  /** The evidently intended error: the stderr text verbatim (errors.New), not a format. */
  function IntendedExitError(killedByParent: bool, waitErr: Option<string>, stderr: string): (err: Option<string>)
    ensures err.None? <==> killedByParent || waitErr.None?
    ensures !killedByParent && waitErr.Some? ==> err.value == if stderr == [] then waitErr.value else stderr
  {
    if killedByParent then None
    else if waitErr.Some? && stderr != [] then Some(stderr)
    else waitErr
  }

  /** Without a '%' in stderr the two agree. */
  lemma ExitErrorAgreesWithIntended(killed: bool, waitErr: Option<string>, stderr: string)
    requires '%' !in stderr
    ensures ExitError(killed, waitErr, stderr) == IntendedExitError(killed, waitErr, stderr)
  {
  }

  /** As written, a '%' followed by flags and a letter in the child's stderr is read as a
      formatting verb with no operand: the flags and the letter are replaced by a diagnostic, so
      the reported error is not the stderr text. For "100% full" (plain "100", flag ' ', verb 'f',
      tail "ull") the detail is "100%!f(MISSING)ull". */
  lemma StderrMangled(plain: string, flags: string, verb: char, tail: string, waitErr: string)
    requires '%' !in plain && '%' !in tail
    requires forall i | 0 <= i < |flags| :: Format.IsFlag(flags[i])
    requires 'a' <= verb <= 'z' || 'A' <= verb <= 'Z'
    ensures var stderr := plain + ("%" + (flags + ([verb] + tail)));
            ExitError(false, Some(waitErr), stderr) ==
              Some(plain + (Format.Missing(verb) + tail)) &&
            ExitError(false, Some(waitErr), stderr) != IntendedExitError(false, Some(waitErr), stderr)
  {
    var directive := "%" + (flags + ([verb] + tail));
    var stderr := plain + directive;
    var diagnostic := Format.Missing(verb) + tail;
    Format.ErrorfMissingOperand(flags, verb, tail);
    Format.ErrorfAppendPlain(plain, directive);
    assert stderr[|plain|] == '%';
    DiagnosticDiffers(plain, flags, verb, tail);
  }

  /** The diagnostic differs from the directive it replaces in the character after the '%'. */
  lemma DiagnosticDiffers(plain: string, flags: string, verb: char, tail: string)
    requires forall i | 0 <= i < |flags| :: Format.IsFlag(flags[i])
    requires 'a' <= verb <= 'z' || 'A' <= verb <= 'Z'
    ensures plain + (Format.Missing(verb) + tail) != plain + ("%" + (flags + ([verb] + tail)))
  {
    var diagnostic := Format.Missing(verb) + tail;
    var directive := "%" + (flags + ([verb] + tail));
    assert diagnostic[1] == '!';
    assert directive[1] == if flags != [] then flags[0] else verb;
    assert (plain + diagnostic)[|plain| + 1] == diagnostic[1];
    assert (plain + directive)[|plain| + 1] == directive[1];
  }

  /* ---------------- the entities ---------------- */

  /** A started child process: its command line, the text the hub has written to its stdin, the
      text it has written to its stderr buffer, and whether the hub killed it. */
  class Child {
    var id: int
    const program: string
    const args: seq<string>
    /** Whether cmd.Process is set, i.e. the process was started. */
    const hasProcess: bool
    var stdin: string
    var stderr: string
    var killedByParent: bool
    /** Whether Process.Kill has been sent to the process. */
    var signalled: bool

    constructor (program: string, args: seq<string>, hasProcess: bool)
      ensures id == -1 && this.program == program && this.args == args
      ensures this.hasProcess == hasProcess
      ensures stdin == [] && stderr == [] && !killedByParent && !signalled
    {
      id := -1;
      this.program := program;
      this.args := args;
      this.hasProcess := hasProcess;
      stdin := [];
      stderr := [];
      killedByParent := false;
      signalled := false;
    }

    /** Process.Kill. */
    method KillProcess()
      requires hasProcess
      modifies this`signalled
      ensures signalled
    {
      signalled := true;
    }

    /** Child.Kill: nothing for a child without a process; otherwise mark it as killed by the hub
        and send the kill. */
    method Kill()
      modifies this`killedByParent, this`signalled
      ensures killedByParent == (old(killedByParent) || hasProcess)
      ensures signalled == (old(signalled) || hasProcess)
    {
      if !hasProcess {
        return;
      }
      killedByParent := true;
      KillProcess();
    }

    /** A write to the child's stdin pipe. */
    method WriteStdin(text: string)
      modifies this`stdin
      ensures stdin == old(stdin) + text
    {
      stdin := stdin + text;
    }

    /** The process writing to its stderr, which the hub captures in a buffer. */
    method WriteStderr(text: string)
      modifies this`stderr
      ensures stderr == old(stderr) + text
    {
      stderr := stderr + text;
    }
  }

  /** The line the "example" command writes to the sending child. */
  function ExampleLine(to: int): string {
    "ExampleRPC to " + Text.Itoa(to) + "\n"
  }

  class Hub {
    var children: map<int, Child>

    /** Every key is an id in [0, 20), names the child registered under it, and that child has a
        process. */
    ghost predicate Valid()
      reads this, children.Values
    {
      forall k | k in children :: 0 <= k < MaxChildren && children[k].id == k && children[k].hasProcess
    }

    /** HubInit. */
    constructor ()
      ensures Valid() && children == map[]
    {
      children := map[];
    }

    /** Exactly membership in the map; a registered id lies in [0, 20) and names its child. */
    function IsValidChildID(id: int): (valid: bool)
      reads this, children.Values
      ensures valid <==> id in children.Keys
      ensures valid && Valid() ==> 0 <= id < MaxChildren && children[id].id == id
    {
      id in children
    }

    /** The registry never holds more than 20 children. */
    lemma Bounded()
      requires Valid()
      ensures |children.Keys| <= MaxChildren
    {
      RegistryBound(children.Keys);
    }

    /** Stores c under the smallest free id and sets its id; with all 20 ids in use it does nothing. */
    method AddChild(c: Child)
      requires Valid() && c.hasProcess && c !in children.Values
      modifies this`children, c`id
      ensures Valid()
      ensures match SmallestFree(old(children).Keys)
              case Some(i) => children == old(children)[i := c] && c.id == i
              case None => children == old(children) && c.id == old(c.id)
    {
      for i := 0 to MaxChildren
        invariant forall j | 0 <= j < i :: j in children
        invariant children == old(children) && c.id == old(c.id)
      {
        if i !in children {
          SmallestFreeIsLeast(children.Keys, i);
          c.id := i;
          children := children[i := c];
          return;
        }
      }
    }

    /** The error StartChild returns with `count` children registered and `startErr` from cmd.Start:
        the cap comes first, then the launch failure; no error exactly when both pass. */
    static function StartError(count: int, startErr: Option<string>): (err: Option<string>)
      ensures count >= MaxChildren ==> err == Some(ChildLimitError)
      ensures count < MaxChildren && startErr.Some? ==> err == Some(ExecFailed(startErr.value))
      ensures err.None? <==> count < MaxChildren && startErr.None?
    {
      if count >= MaxChildren then Some(ChildLimitError)
      else if startErr.Some? then Some(ExecFailed(startErr.value))
      else None
    }

    /** Refuses at 20 children and when the program cannot be started (startErr is the error of
        cmd.Start); otherwise registers a new child under the smallest free id. */
    method StartChild(program: string, args: seq<string>, startErr: Option<string>)
      returns (err: Option<string>)
      requires Valid()
      modifies this`children
      ensures Valid()
      ensures err == StartError(|old(children)|, startErr)
      ensures err.Some? ==> children == old(children)
      ensures err.None? ==>
                SmallestFree(old(children).Keys).Some? &&
                var i := SmallestFree(old(children).Keys).value;
                i !in old(children) && i in children &&
                children == old(children)[i := children[i]] &&
                fresh(children[i]) && children[i].program == program && children[i].args == args &&
                children[i].stdin == [] && children[i].stderr == [] &&
                !children[i].killedByParent && !children[i].signalled
    {
      if |children| >= MaxChildren {
        return Some(ChildLimitError);
      }
      if startErr.Some? {
        return Some(ExecFailed(startErr.value));
      }
      assert |children.Keys| == |children|;
      FreeIdExists(children.Keys);
      var c := new Child(program, args, true);
      AddChild(c);
      err := None;
    }

    /** Kills and unregisters the child with the given id at once; an unknown id changes nothing.
        Either way there is no error. */
    method RemoveChild(childID: int) returns (err: Option<string>)
      requires Valid()
      modifies this`children
      modifies (if childID in children then {children[childID]} else {})`killedByParent
      modifies (if childID in children then {children[childID]} else {})`signalled
      ensures Valid() && err == None
      ensures childID !in old(children) ==> children == old(children)
      ensures childID in old(children) ==>
                children == old(children) - {childID} &&
                old(children)[childID].killedByParent && old(children)[childID].signalled
    {
      if childID !in children {
        return None;
      }
      var c := children[childID];
      c.Kill();
      children := children - {childID};
      err := None;
    }

    /** The exit of child c once waiting on its process returned waitErr: its current id and the
        error ExitError decides. */
    method Wait(c: Child, waitErr: Option<string>) returns (exit: ChildExit)
      ensures exit.id == c.id
      ensures exit.err == ExitError(c.killedByParent, waitErr, c.stderr)
    {
      var err := waitErr;
      if !c.killedByParent {
        if err.Some? && |c.stderr| > 0 {
          err := Some(Format.Errorf(c.stderr));
        }
      } else {
        err := None;
      }
      exit := ChildExit(c.id, err);
    }

    /** The exit consumer: reports the exit and deletes its id, whatever the outcome. */
    method DeliverExit(exit: ChildExit) returns (report: Report)
      requires Valid()
      modifies this`children
      ensures Valid()
      ensures children == old(children) - {exit.id}
      ensures report == ReportOf(exit)
    {
      if exit.err.Some? {
        report := ExitedAbnormally(exit.id, exit.err.value);
        children := children - {exit.id};
      } else {
        report := ExitedNormally(exit.id);
        children := children - {exit.id};
      }
    }

    /** The corrected consumer: an exit only unregisters the child it came from, so an exit that
        arrives after its id was handed to a new child leaves that child alone. */
    method DeliverOwnExit(exit: ChildExit, from: Child) returns (report: Report)
      requires Valid()
      modifies this`children
      ensures Valid()
      ensures exit.id in old(children) && old(children)[exit.id] == from ==>
                children == old(children) - {exit.id}
      ensures !(exit.id in old(children) && old(children)[exit.id] == from) ==>
                children == old(children)
      ensures report == ReportOf(exit)
    {
      report := ReportOf(exit);
      if exit.id in children && children[exit.id] == from {
        children := children - {exit.id};
      }
    }

    /** Sends a kill to every registered child; the registry and the killedByParent flags stay as
        they were. */
    method ReapChildren()
      requires Valid()
      modifies children.Values`signalled
      ensures Valid() && children == old(children)
      ensures forall k | k in children ::
                children[k].signalled && children[k].killedByParent == old(children[k].killedByParent)
    {
      for i := 0 to MaxChildren
        invariant forall k | k in children && k < i :: children[k].signalled
      {
        if i in children {
          children[i].KillProcess();
        }
      }
    }

    /** The "example" command once it has its two ids: both must be registered, and then the
        line goes to the sending child's stdin. */
    method SendExample(from: int, to: int) returns (resp: Response)
      requires Valid()
      modifies children.Values`stdin
      ensures Valid()
      ensures from in children && to in children ==>
                resp == ExampleSent &&
                children[from].stdin == old(children[from].stdin) + ExampleLine(to) &&
                forall k | k in children && k != from :: children[k].stdin == old(children[k].stdin)
      ensures !(from in children && to in children) ==>
                resp == OutsideValidRange && unchanged(children.Values)
    {
      if !IsValidChildID(from) || !IsValidChildID(to) {
        return OutsideValidRange;
      }
      children[from].WriteStdin(ExampleLine(to));
      resp := ExampleSent;
    }

    /** One command of the command loop, once its line is parsed; startErr is what cmd.Start would
        return for a "create". */
    method Execute(cmd: Command, startErr: Option<string>) returns (resp: Response)
      requires Valid()
      modifies this`children, children.Values`stdin, children.Values`killedByParent, children.Values`signalled
      ensures Valid()
      ensures forall c | c in children.Values :: c in old(children.Values) || fresh(c)
      ensures resp == ResponseTo(old(children).Keys, cmd, startErr)
      ensures children.Keys == KeysAfter(old(children).Keys, cmd, startErr)
      ensures forall k | k in children && k in old(children) :: children[k] == old(children)[k]
    {
      match cmd {
        case Example(from, to) =>
          resp := SendExample(from, to);
        case Create(program, args) =>
          var err := StartChild(program, args, startErr);
          resp := StartOutcome(err);
        case Kill(id) =>
          var _ := RemoveChild(id);
          resp := KillRequested;
        case List =>
          resp := Listing(children.Keys);
        case Exit =>
          ReapChildren();
          resp := Exiting;
        case WrongArgumentCount =>
          resp := WrongNumberOfArguments;
        case MissingBinary =>
          resp := MustProvideBinary;
        case Unrecognised =>
          resp := Continue;
      }
    }

    /** The command loop: commands[i] is the i-th line the operator types, as Commands.Parse reads
        it. The commands are executed in turn until an "exit" (after which no further line is
        read) or the end of the input; startErrs[i] is what cmd.Start would return should command
        i be a "create". The registry stays valid, and so within 20 children, whatever the lines. */
    method CmdLine(commands: seq<Command>, startErrs: seq<Option<string>>) returns (responses: seq<Response>)
      requires Valid() && |startErrs| == |commands|
      modifies this`children, children.Values`stdin, children.Values`killedByParent, children.Values`signalled
      ensures Valid()
      ensures |responses| <= |commands|
      ensures forall i | 0 <= i < |responses| :: (responses[i] == Exiting <==> commands[i].Exit?)
      ensures forall i | 0 <= i < |responses| - 1 :: responses[i] != Exiting
      ensures |responses| < |commands| ==> responses != [] && responses[|responses| - 1] == Exiting
      ensures (responses, children.Keys) ==
              Run(old(children).Keys, commands[..|responses|], startErrs[..|responses|])
    {
      ghost var keys0 := children.Keys;
      responses := [];
      var i := 0;
      while i < |commands|
        invariant 0 <= i <= |commands| && |responses| == i && Valid()
        invariant forall j | 0 <= j < i :: responses[j] != Exiting
        invariant forall c | c in children.Values :: c in old(children.Values) || fresh(c)
        invariant (responses, children.Keys) == Run(keys0, commands[..i], startErrs[..i])
      {
        RunStep(keys0, commands, startErrs, i);
        var resp := Execute(commands[i], startErrs[i]);
        responses := responses + [resp];
        if resp == Exiting {
          return;
        }
        i := i + 1;
      }
    }
  }
}
