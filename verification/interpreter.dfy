/**
  The execution engine (src/interpreter.rs): a parsed command line is split into
  pipeline stages at `|`. A single stage runs a shell command in the shell's own
  process, or a PATH executable or builtin in a child it waits for. Several stages
  get one pipe between each neighbouring pair, a child each, and are waited for
  once all have been started. The system calls are the methods of `Kernel.Os`.
 */
module Execution {
  import opened Seqs
  import opened Wrappers
  import opened Kernel
  import Redirection
  import ShellCommands

  // ---------------------------------------------------------------------------
  // Dispatch.

  datatype Route = InShell | Executable(path: string) | Builtin | NotFound

  /** A single-stage command: shell commands first, then PATH, then builtins. */
  function SingleRoute(cmd: string, shell: set<string>, builtins: set<string>, executables: map<string, string>): (r: Route)
    ensures r == InShell <==> cmd in shell
    ensures r.Executable? <==> cmd !in shell && cmd in executables
    ensures r.Executable? ==> r.path == executables[cmd]
    ensures r == Builtin <==> cmd !in shell && cmd !in executables && cmd in builtins
  {
    if cmd in shell then InShell
    else if cmd in executables then Executable(executables[cmd])
    else if cmd in builtins then Builtin
    else NotFound
  }

  /** A pipeline stage: PATH, then builtins; the shell's own commands are not looked up. */
  function StageRoute(cmd: string, builtins: set<string>, executables: map<string, string>): (r: Route)
    ensures r != InShell
    ensures r.Executable? <==> cmd in executables
    ensures r.Executable? ==> r.path == executables[cmd]
    ensures r == Builtin <==> cmd !in executables && cmd in builtins
  {
    if cmd in executables then Executable(executables[cmd])
    else if cmd in builtins then Builtin
    else NotFound
  }

  /** A command that is not a shell command is found the same way in a pipeline and alone. */
  lemma RoutesAgree(cmd: string, shell: set<string>, builtins: set<string>, executables: map<string, string>)
    requires cmd !in shell
    ensures SingleRoute(cmd, shell, builtins, executables) == StageRoute(cmd, builtins, executables)
  {
  }

  /** A stage that can be started: it names an executable or a builtin. */
  predicate Startable(stage: seq<string>, builtins: set<string>, executables: map<string, string>) {
    stage != [] && StageRoute(stage[0], builtins, executables) != NotFound
  }

  /** The first stage that is empty or names nothing that can run, or the number of stages. */
  function FirstStop(stages: seq<seq<string>>, builtins: set<string>, executables: map<string, string>): (n: nat)
    ensures n <= |stages|
    ensures forall i :: 0 <= i < n ==> Startable(stages[i], builtins, executables)
    ensures n < |stages| ==> !Startable(stages[n], builtins, executables)
  {
    if stages == [] || !Startable(stages[0], builtins, executables) then 0
    else
      var rest := FirstStop(stages[1..], builtins, executables);
      assert forall i :: 1 <= i < 1 + rest ==> stages[i] == stages[1..][i - 1];
      1 + rest
  }

  // ---------------------------------------------------------------------------
  // Pipe wiring.

  /** The `pipeline` entries of stage `idx`: stdin from the pipe before it, stdout into the pipe after it. */
  function Wiring(idx: nat, allFds: seq<Pipe>): seq<PipeLine>
    requires idx <= |allFds|
  {
    (if idx > 0 then [PipeLine(STDIN, allFds[idx - 1])] else []) +
    (if idx < |allFds| then [PipeLine(STDOUT, allFds[idx])] else [])
  }

  predicate ReadsFrom(pipeline: seq<PipeLine>, p: Pipe) {
    PipeLine(STDIN, p) in pipeline
  }

  predicate WritesTo(pipeline: seq<PipeLine>, p: Pipe) {
    PipeLine(STDOUT, p) in pipeline
  }

  /**
    With k stages and k - 1 distinct pipes, pipe j is written by stage j alone and
    read by stage j + 1 alone.
   */
  lemma WiringConnects(allFds: seq<Pipe>, i: nat, j: nat)
    requires NoDup(allFds) && i <= |allFds| && j < |allFds|
    ensures WritesTo(Wiring(i, allFds), allFds[j]) <==> i == j
    ensures ReadsFrom(Wiring(i, allFds), allFds[j]) <==> i == j + 1
  {
    var w := Wiring(i, allFds);
    if WritesTo(w, allFds[j]) {
      var k :| 0 <= k < |w| && w[k] == PipeLine(STDOUT, allFds[j]);
      assert i < |allFds| && allFds[i] == allFds[j];
    }
    if ReadsFrom(w, allFds[j]) {
      var k :| 0 <= k < |w| && w[k] == PipeLine(STDIN, allFds[j]);
      assert i > 0 && allFds[i - 1] == allFds[j];
    }
    if i == j {
      assert w[|w| - 1] == PipeLine(STDOUT, allFds[j]);
    }
    if i == j + 1 {
      assert w[0] == PipeLine(STDIN, allFds[j]);
    }
  }

  /** The first stage reads no pipe, the last writes none, and every stage has at most one entry of each kind. */
  lemma WiringEnds(allFds: seq<Pipe>, i: nat)
    requires i <= |allFds|
    ensures |Wiring(i, allFds)| == (if i > 0 then 1 else 0) + (if i < |allFds| then 1 else 0)
    ensures i == 0 ==> forall e :: e in Wiring(i, allFds) ==> e.fdT == STDOUT
    ensures i == |allFds| ==> forall e :: e in Wiring(i, allFds) ==> e.fdT == STDIN
  {
  }

  /** The job stage `idx` of a pipeline is started with. */
  function StageJob(stage: seq<string>, idx: nat, allFds: seq<Pipe>, builtins: set<string>, executables: map<string, string>): Job
    requires Startable(stage, builtins, executables) && idx <= |allFds|
  {
    var r := StageRoute(stage[0], builtins, executables);
    Job(if r.Executable? then r.path else stage[0], stage, Some(Plumbing(Wiring(idx, allFds), allFds)))
  }

  // ---------------------------------------------------------------------------
  // The child's side of `exec_command`, after its pipe ends are in place.

  datatype ChildOutcome =
    | Failed(message: string)
    | Panicked
    | RunBuiltin(name: string, args: seq<string>, fds: map<int, Redirection.Stream>)
    | Exec(path: string, argv: seq<string>, fds: map<int, Redirection.Stream>)

  /** The index of the first NUL of `s`. */
  function NulPosition(s: string): (k: nat)
    requires '\0' in s
    ensures k < |s| && s[k] == '\0' && '\0' !in s[..k]
  {
    if s[0] == '\0' then 0
    else
      var k := 1 + NulPosition(s[1..]);
      assert s[..k] == [s[0]] + s[1..][..k - 1];
      k
  }

  /** How a path with a NUL byte is reported, with the position of its first NUL. */
  function NulMessage(s: string): string
    requires '\0' in s
  {
    "nul byte found in provided data at position: " + ShellCommands.Show(NulPosition(s))
  }

  /**
    What a child does: scan its arguments for redirections (a syntax error is
    returned), apply them (a failed `&>` panics), then run the builtin on the
    arguments after its name, or `execv` the program with the arguments left. A
    NUL byte in the program path is an error and in an argument a panic.
   */
  function ChildPlan(job: Job, builtins: set<string>, fds: map<int, Redirection.Stream>, openable: set<(string, bv32)>): ChildOutcome {
    match Redirection.Scan(job.argv)
    case Err(e) => Failed(e)
    case Ok(s) =>
      match Redirection.Apply(fds, s.redirects, openable)
      case None => Panicked
      case Some(t) =>
        if job.cmd in builtins then
          if s.argv == [] then Panicked else RunBuiltin(job.cmd, s.argv[1..], t)
        else if '\0' in job.cmd then Failed(NulMessage(job.cmd))
        else if exists k :: 0 <= k < |s.argv| && '\0' in s.argv[k] then Panicked
        else Exec(job.cmd, s.argv, t)
  }

  /** The child branch of `exec_command`, from the redirection scan on. */
  method RunChild(job: Job, builtins: set<string>, fds: map<int, Redirection.Stream>, openable: set<(string, bv32)>)
    returns (outcome: ChildOutcome)
    ensures outcome == ChildPlan(job, builtins, fds, openable)
  {
    var scanned := Redirection.ScanRedirections(job.argv);
    if scanned.Err? {
      return Failed(scanned.error);
    }
    var argv := scanned.value.argv;
    var table := Redirection.ApplyRedirections(fds, scanned.value.redirects, openable);
    if table.None? {
      return Panicked;
    }
    if job.cmd in builtins {
      if argv == [] {
        return Panicked;
      }
      return RunBuiltin(job.cmd, argv[1..], table.value);
    }
    if '\0' in job.cmd {
      return Failed(NulMessage(job.cmd));
    }
    for k := 0 to |argv|
      invariant forall m :: 0 <= m < k ==> '\0' !in argv[m]
    {
      if '\0' in argv[k] {
        return Panicked;
      }
    }
    outcome := Exec(job.cmd, argv, table.value);
  }

  /** A program or builtin never sees a redirection operator among its arguments. */
  lemma ChildArgsClean(job: Job, builtins: set<string>, fds: map<int, Redirection.Stream>, openable: set<(string, bv32)>)
    ensures var o := ChildPlan(job, builtins, fds, openable);
      (o.Exec? ==> forall a :: a in o.argv ==> a !in Redirection.Operators) &&
      (o.RunBuiltin? ==> forall a :: a in o.args ==> a !in Redirection.Operators)
  {
    if Redirection.Scan(job.argv).Ok? {
      Redirection.ScanShape(job.argv);
      var s := Redirection.Scan(job.argv).value;
      if s.argv != [] {
        forall a | a in s.argv[1..] ensures a in s.argv {
        }
      }
    }
  }

  /** Without redirection operators the program runs with all of its arguments and the descriptors it inherited. */
  lemma ChildPlainArgs(job: Job, builtins: set<string>, fds: map<int, Redirection.Stream>, openable: set<(string, bv32)>)
    requires forall k :: 0 <= k < |job.argv| ==> job.argv[k] !in Redirection.Operators && '\0' !in job.argv[k]
    requires job.cmd !in builtins && '\0' !in job.cmd
    ensures ChildPlan(job, builtins, fds, openable) == Exec(job.cmd, job.argv, fds)
  {
    Redirection.ScanNoOperators(job.argv);
    assert Redirection.Apply(fds, [], openable) == Some(fds);
  }

  // ---------------------------------------------------------------------------
  // The parent's side.

  /** `exit` or `cd`, run in the shell's own process. */
  method RunInShell(os: Os, cmd: string, argv: seq<string>)
    requires os.Valid() && argv != [] && (cmd == "exit" || cmd == "cd")
    modifies os
    ensures os.Valid()
    ensures os.pipes == old(os.pipes) && os.openFds == old(os.openFds) && os.forks == old(os.forks) && os.waited == old(os.waited)
    ensures cmd == "exit" ==> os.exited == Some(ShellCommands.ExitStatus(argv[1..])) && os.cwd == old(os.cwd)
    ensures cmd == "cd" ==> os.cwd == CdResult(argv[1..], os.home, old(os.cwd), os.directories) && os.exited == old(os.exited)
  {
    if cmd == "exit" {
      os.Exit(ShellCommands.ExitStatus(argv[1..]));
    } else {
      Cd(os, argv[1..]);
    }
  }

  /** A single stage run in a child: fork, then wait for the child when there is one. */
  method RunAndWait(os: Os, job: Job) returns (pid: Option<int>)
    requires os.Valid()
    modifies os
    ensures os.Valid()
    ensures os.forks == old(os.forks) + [Forked(job, pid)]
    ensures os.waited == old(os.waited) + (if pid.Some? then [pid.value] else [])
    ensures os.openFds == old(os.openFds) && os.pipes == old(os.pipes)
    ensures os.cwd == old(os.cwd) && os.exited == old(os.exited)
  {
    ghost var forks0, waited0 := os.forks, os.waited;
    var r := ExecCommand(os, job);
    pid := if r.Ok? then Some(r.value) else None;
    ForkUnreaped(forks0, waited0, Forked(job, pid));
    if r.Ok? {
      os.WaitPid(r.value);
    }
  }

  /** `exec_command` in the shell: fork, and report a refused fork as an error. */
  method ExecCommand(os: Os, job: Job) returns (r: Result<int>)
    requires os.Valid()
    modifies os
    ensures os.Valid()
    ensures os.forks == old(os.forks) + [Forked(job, if r.Ok? then Some(r.value) else None)]
    ensures r.Ok? ==> r.value > 0 && r.value !in Unreaped(old(os.forks), old(os.waited))
    ensures os.openFds == old(os.openFds) && os.pipes == old(os.pipes) && os.waited == old(os.waited)
    ensures os.cwd == old(os.cwd) && os.exited == old(os.exited)
  {
    var pid := os.Fork(job);
    if pid.Some? {
      r := Ok(pid.value);
    } else {
      r := Err("failed to spawn process " + job.cmd);
    }
  }

  /** The `cd` shell command. A path with a NUL byte is refused before `chdir`. */
  function CdResult(args: seq<string>, home: Option<string>, cwd: string, directories: set<string>): string {
    var dir := ShellCommands.CdTarget(if args == [] then None else Some(args[0]), home, cwd);
    if '\0' !in dir && dir in directories then dir else cwd
  }

  method Cd(os: Os, args: seq<string>)
    requires os.Valid()
    modifies os
    ensures os.Valid()
    ensures os.cwd == CdResult(args, os.home, old(os.cwd), os.directories)
    ensures os.openFds == old(os.openFds) && os.pipes == old(os.pipes) && os.forks == old(os.forks)
    ensures os.waited == old(os.waited) && os.exited == old(os.exited)
  {
    var dir := ShellCommands.ResolveDir(if args == [] then None else Some(args[0]), os.home, os.cwd);
    if '\0' in dir {
      return;
    }
    var ok := os.Chdir(dir);
  }

  /** `pipe` called `n` times. */
  method OpenPipes(os: Os, n: nat) returns (allFds: seq<Pipe>)
    requires os.Valid()
    modifies os
    ensures os.Valid()
    ensures |allFds| == n && NoDup(allFds) && os.pipes == old(os.pipes) + allFds
    ensures os.openFds == old(os.openFds) + PipeFds(allFds) && PipeFds(allFds) !! old(os.openFds)
    ensures os.forks == old(os.forks) && os.waited == old(os.waited) && os.cwd == old(os.cwd) && os.exited == old(os.exited)
  {
    allFds := [];
    for i := 0 to n
      invariant os.Valid() && |allFds| == i && NoDup(allFds) && os.pipes == old(os.pipes) + allFds
      invariant os.openFds == old(os.openFds) + PipeFds(allFds) && PipeFds(allFds) !! old(os.openFds)
      invariant os.forks == old(os.forks) && os.waited == old(os.waited) && os.cwd == old(os.cwd) && os.exited == old(os.exited)
    {
      var p := os.MakePipe();
      forall k | 0 <= k < |allFds| ensures allFds[k] != p {
        PipeFdsHas(allFds, k);
      }
      NoDupConcat(allFds, [p]);
      assert (allFds + [p])[..|allFds|] == allFds;
      allFds := allFds + [p];
    }
  }

  lemma {:induction false} PipeFdsHas(pipes: seq<Pipe>, k: nat)
    requires k < |pipes|
    ensures pipes[k].read in PipeFds(pipes) && pipes[k].write in PipeFds(pipes)
    decreases |pipes|
  {
    if k < |pipes| - 1 {
      PipeFdsHas(pipes[..|pipes| - 1], k);
    }
  }

  /** Both ends of every pipe closed, read end first. */
  method CloseAll(os: Os, allFds: seq<Pipe>)
    requires os.Valid()
    modifies os
    ensures os.Valid()
    ensures os.openFds == old(os.openFds) - PipeFds(allFds)
    ensures os.pipes == old(os.pipes) && os.forks == old(os.forks) && os.waited == old(os.waited)
    ensures os.cwd == old(os.cwd) && os.exited == old(os.exited)
  {
    for i := 0 to |allFds|
      invariant os.Valid() && os.openFds == old(os.openFds) - PipeFds(allFds[..i])
      invariant os.pipes == old(os.pipes) && os.forks == old(os.forks) && os.waited == old(os.waited)
      invariant os.cwd == old(os.cwd) && os.exited == old(os.exited)
    {
      os.Close(allFds[i].read);
      os.Close(allFds[i].write);
      assert allFds[..i + 1][..i] == allFds[..i];
    }
    assert allFds[..|allFds|] == allFds;
  }

  /** `wait_process` on each pid, in order. */
  method WaitAll(os: Os, pids: seq<int>)
    requires os.Valid()
    requires multiset(pids) <= Unreaped(os.forks, os.waited)
    modifies os
    ensures os.Valid()
    ensures os.waited == old(os.waited) + pids
    ensures os.openFds == old(os.openFds) && os.pipes == old(os.pipes) && os.forks == old(os.forks)
    ensures os.cwd == old(os.cwd) && os.exited == old(os.exited)
  {
    assert pids[0..] == pids;
    for i := 0 to |pids|
      invariant os.Valid() && os.waited == old(os.waited) + pids[..i]
      invariant multiset(pids[i..]) <= Unreaped(os.forks, os.waited)
      invariant os.openFds == old(os.openFds) && os.pipes == old(os.pipes) && os.forks == old(os.forks)
      invariant os.cwd == old(os.cwd) && os.exited == old(os.exited)
    {
      TakeOneMore(old(os.waited), pids, i);
      WaitNext(pids[i..], Unreaped(os.forks, os.waited));
      WaitUnreaped(os.forks, os.waited, pids[i]);
      assert pids[i..][1..] == pids[i + 1..];
      os.WaitPid(pids[i]);
    }
    assert pids[..|pids|] == pids;
  }

  lemma TakeOneMore(w: seq<int>, s: seq<int>, i: nat)
    requires i < |s|
    ensures w + s[..i + 1] == (w + s[..i]) + [s[i]]
  {
    assert s[..i + 1] == s[..i] + [s[i]];
  }

  /** The next pid to wait for is unreaped, and reaping it leaves the rest unreaped. */
  lemma WaitNext(rest: seq<int>, u: multiset<int>)
    requires rest != [] && multiset(rest) <= u
    ensures rest[0] in u && multiset(rest[1..]) <= u - multiset{rest[0]}
  {
    assert rest == [rest[0]] + rest[1..];
  }

  lemma SpawnedStep(forks: seq<Forked>, n: nat, f: Forked)
    requires n <= |forks|
    ensures (forks + [f])[n..] == forks[n..] + [f]
    ensures Spawned((forks + [f])[n..]) == Spawned(forks[n..]) + (if f.pid.Some? then [f.pid.value] else [])
  {
    assert (forks + [f])[n..] == forks[n..] + [f];
    SpawnedConcat(forks[n..], [f]);
    assert [f][..0] == [];
  }

  class Interpreter {
    var builtins: seq<string>
    var shellCommands: seq<string>

    /** The two tables, in the iteration order of their hash maps. */
    ghost predicate Valid()
      reads this
    {
      NoDup(builtins) && NoDup(shellCommands) &&
      Elements(builtins) == {"echo", "type", "pwd", "history"} &&
      Elements(shellCommands) == {"exit", "cd"}
    }

    constructor ()
      ensures Valid()
    {
      builtins := ["echo", "type", "pwd", "history"];
      shellCommands := ["exit", "cd"];
    }

    /** Every command name the shell knows itself, each once: the builtins, then the shell commands. */
    method GetBuiltins() returns (names: seq<string>)
      requires Valid()
      ensures Elements(names) == Elements(builtins) + Elements(shellCommands)
      ensures NoDup(names) && |names| == |builtins| + |shellCommands|
      ensures names[..|builtins|] == builtins
    {
      names := builtins;
      for i := 0 to |shellCommands|
        invariant names == builtins + shellCommands[..i]
      {
        names := names + [shellCommands[i]];
        assert shellCommands[..i + 1] == shellCommands[..i] + [shellCommands[i]];
      }
      assert shellCommands[..|shellCommands|] == shellCommands;
      forall x | x in builtins ensures x !in shellCommands {
        assert x in Elements(builtins);
        assert x != "exit" && x != "cd";
        assert x !in Elements(shellCommands);
      }
      NoDupConcat(builtins, shellCommands);
    }

    /** A single-stage command line. */
    method RunSingle(os: Os, cmd: string, argv: seq<string>) returns (found: bool)
      requires Valid() && os.Valid()
      requires argv != [] || cmd !in shellCommands
      modifies os
      ensures os.Valid()
      ensures SingleDone(cmd, argv, Elements(shellCommands), Elements(builtins), os.executables, os.home, os.directories,
        old(os.State()), os.State(), found)
    {
      if cmd in shellCommands {
        assert cmd in Elements(shellCommands);
        RunInShell(os, cmd, argv);
        return true;
      }
      var job: Job;
      if cmd in os.executables {
        job := Job(os.executables[cmd], argv, None);
      } else if cmd in builtins {
        job := Job(cmd, argv, None);
      } else {
        return false;
      }
      ghost var forks0 := os.forks;
      var pid := RunAndWait(os, job);
      SpawnedStep(forks0, |forks0|, Forked(job, pid));
      assert forks0[|forks0|..] == [];
      found := true;
    }

    /** One stage of a pipeline: its pipe entries, then a child for an executable or a builtin. */
    method StartStage(os: Os, argv: seq<string>, idx: nat, allFds: seq<Pipe>) returns (started: bool, r: Result<int>)
      requires os.Valid() && argv != [] && idx <= |allFds|
      modifies os
      ensures os.Valid()
      ensures started == Startable(argv, Elements(builtins), os.executables)
      ensures started ==> (os.forks == old(os.forks) +
        [Forked(StageJob(argv, idx, allFds, Elements(builtins), os.executables), if r.Ok? then Some(r.value) else None)])
      ensures started ==> r.Ok? ==> r.value > 0 && r.value !in Unreaped(old(os.forks), old(os.waited))
      ensures !started ==> os.forks == old(os.forks)
      ensures os.openFds == old(os.openFds) && os.pipes == old(os.pipes) && os.waited == old(os.waited)
      ensures os.cwd == old(os.cwd) && os.exited == old(os.exited)
    {
      var cmd := argv[0];
      var pipeline: seq<PipeLine> := [];
      if idx > 0 {
        pipeline := pipeline + [PipeLine(STDIN, allFds[idx - 1])];
      }
      if idx < |allFds| {
        pipeline := pipeline + [PipeLine(STDOUT, allFds[idx])];
      }
      assert pipeline == Wiring(idx, allFds);
      var job: Job;
      if cmd in os.executables {
        job := Job(os.executables[cmd], argv, Some(Plumbing(pipeline, allFds)));
      } else if cmd in builtins {
        job := Job(cmd, argv, Some(Plumbing(pipeline, allFds)));
      } else {
        return false, Err("not found");
      }
      r := ExecCommand(os, job);
      started := true;
    }

    /**
      The stage loop: starts stage after stage until one is empty or cannot be
      found, and returns where it stopped and the pids of the children created.
     */
    method StartStages(os: Os, stages: seq<seq<string>>, allFds: seq<Pipe>) returns (stop: nat, pids: seq<int>)
      requires Valid() && os.Valid() && |stages| == |allFds| + 1
      modifies os
      ensures os.Valid()
      ensures stop == FirstStop(stages, Elements(builtins), os.executables)
      ensures |os.forks| == |old(os.forks)| + stop && os.forks[..|old(os.forks)|] == old(os.forks)
      ensures JobsMatch(os.forks, |old(os.forks)|, stages, stop, allFds, Elements(builtins), os.executables)
      ensures pids == Spawned(os.forks[|old(os.forks)|..])
      ensures UnreapedTogether(os.forks, os.waited, pids)
      ensures os.openFds == old(os.openFds) && os.pipes == old(os.pipes) && os.waited == old(os.waited)
      ensures os.cwd == old(os.cwd) && os.exited == old(os.exited)
    {
      ghost var forks0 := os.forks;
      pids := [];
      assert os.forks[|forks0|..] == [];
      for idx := 0 to |stages|
        invariant os.Valid() && Launched(os.forks, forks0, stages, idx, allFds, Elements(builtins), os.executables, pids)
        invariant UnreapedTogether(os.forks, os.waited, pids)
        invariant os.openFds == old(os.openFds) && os.pipes == old(os.pipes) && os.waited == old(os.waited)
        invariant os.cwd == old(os.cwd) && os.exited == old(os.exited)
      {
        var argv := stages[idx];
        if argv == [] {
          StopsAt(stages, Elements(builtins), os.executables, idx);
          return idx, pids;
        }
        ghost var forks1 := os.forks;
        assert ReapsOwnChildren(forks1, os.waited);
        var started, r := StartStage(os, argv, idx, allFds);
        if !started {
          StopsAt(stages, Elements(builtins), os.executables, idx);
          return idx, pids;
        }
        ghost var f := Forked(StageJob(argv, idx, allFds, Elements(builtins), os.executables), if r.Ok? then Some(r.value) else None);
        LaunchedStep(forks1, forks0, stages, idx, allFds, Elements(builtins), os.executables, pids, f);
        UnreapedStep(forks1, os.waited, pids, f);
        if r.Ok? {
          pids := pids + [r.value];
        }
      }
      StopsAt(stages, Elements(builtins), os.executables, |stages|);
      stop := |stages|;
    }

    /** A command line of several stages. */
    method RunPipeline(os: Os, stages: seq<seq<string>>) returns (found: bool)
      requires Valid() && os.Valid() && |stages| > 1
      modifies os
      ensures os.Valid()
      ensures PipelineDone(stages, Elements(builtins), os.executables,
        old(os.openFds), old(os.pipes), old(os.forks), old(os.waited),
        os.openFds, os.pipes, os.forks, os.waited, found)
      ensures os.cwd == old(os.cwd) && os.exited == old(os.exited)
    {
      var allFds := OpenPipes(os, |stages| - 1);
      var stop, pids := StartStages(os, stages, allFds);
      assert os.pipes[|old(os.pipes)|..] == allFds;
      if stop < |stages| {
        if stages[stop] != [] {
          CloseAll(os, allFds);
        }
        return false;
      }
      CloseAll(os, allFds);
      WaitAll(os, pids);
      found := true;
    }

    /**
      `interpret_command`: the stages are the runs of arguments between `|` tokens.
      Returns whether the command was found and started.
     */
    method InterpretCommand(os: Os, cmd: string, argv: seq<string>) returns (found: bool)
      requires Valid() && os.Valid()
      requires argv != [] || cmd !in shellCommands
      modifies os
      ensures os.Valid()
      ensures |Split(argv, "|")| == 1 ==>
        SingleDone(cmd, argv, Elements(shellCommands), Elements(builtins), os.executables, os.home, os.directories,
          old(os.State()), os.State(), found)
      ensures |Split(argv, "|")| > 1 ==>
        PipelineDone(Split(argv, "|"), Elements(builtins), os.executables,
          old(os.openFds), old(os.pipes), old(os.forks), old(os.waited),
          os.openFds, os.pipes, os.forks, os.waited, found) &&
        os.cwd == old(os.cwd) && os.exited == old(os.exited)
    {
      var commands := Split(argv, "|");
      if |commands| == 1 {
        found := RunSingle(os, cmd, argv);
        return;
      }
      found := RunPipeline(os, commands);
    }
  }

  /** The forks from position `n0` on are the jobs of the first `idx` stages, in order. */
  ghost predicate JobsMatch(forks: seq<Forked>, n0: nat, stages: seq<seq<string>>, idx: nat, allFds: seq<Pipe>,
    builtins: set<string>, executables: map<string, string>)
  {
    n0 + idx <= |forks| && idx <= |stages| && idx <= |allFds| + 1 &&
    forall i :: 0 <= i < idx ==> (i <= |allFds| && Startable(stages[i], builtins, executables) &&
      forks[n0 + i].job == StageJob(stages[i], i, allFds, builtins, executables))
  }

  /** The stage loop after `idx` stages: one child per stage, each with its stage's job, and their pids. */
  ghost predicate Launched(forks: seq<Forked>, forks0: seq<Forked>, stages: seq<seq<string>>, idx: nat, allFds: seq<Pipe>,
    builtins: set<string>, executables: map<string, string>, pids: seq<int>)
  {
    |forks| == |forks0| + idx && forks[..|forks0|] == forks0 &&
    JobsMatch(forks, |forks0|, stages, idx, allFds, builtins, executables) &&
    pids == Spawned(forks[|forks0|..])
  }

  lemma LaunchedStep(forks: seq<Forked>, forks0: seq<Forked>, stages: seq<seq<string>>, idx: nat, allFds: seq<Pipe>,
    builtins: set<string>, executables: map<string, string>, pids: seq<int>, f: Forked)
    requires Launched(forks, forks0, stages, idx, allFds, builtins, executables, pids)
    requires idx < |stages| && idx <= |allFds| && Startable(stages[idx], builtins, executables)
    requires f.job == StageJob(stages[idx], idx, allFds, builtins, executables)
    ensures Launched(forks + [f], forks0, stages, idx + 1, allFds, builtins, executables,
      pids + (if f.pid.Some? then [f.pid.value] else []))
  {
    SpawnedStep(forks, |forks0|, f);
    JobsStep(forks, |forks0|, stages, idx, allFds, builtins, executables, f);
    assert (forks + [f])[..|forks0|] == forks[..|forks0|];
  }

  /**
    The pids of children started while none is waited for: all of them are
    unreaped at once, so `fork` has given them different pids.
   */
  ghost predicate UnreapedTogether(forks: seq<Forked>, waited: seq<int>, pids: seq<int>) {
    NoDup(pids) && multiset(pids) <= Unreaped(forks, waited)
  }

  /** A child forked while `pids` are all unreaped gets a pid none of them has. */
  lemma UnreapedStep(forks: seq<Forked>, waited: seq<int>, pids: seq<int>, f: Forked)
    requires ReapsOwnChildren(forks, waited) && UnreapedTogether(forks, waited, pids)
    requires f.pid.Some? ==> f.pid.value !in Unreaped(forks, waited)
    ensures UnreapedTogether(forks + [f], waited, pids + (if f.pid.Some? then [f.pid.value] else []))
  {
    ForkUnreaped(forks, waited, f);
    if f.pid.Some? {
      var pid := f.pid.value;
      assert pid !in multiset(pids);
      NoDupConcat(pids, [pid]);
      assert multiset(pids + [pid]) == multiset(pids) + multiset{pid};
    } else {
      assert pids + [] == pids;
    }
  }

  /** The loop stops at `idx` when every stage before it started and it did not. */
  lemma StopsAt(stages: seq<seq<string>>, builtins: set<string>, executables: map<string, string>, idx: nat)
    requires idx <= |stages|
    requires forall i :: 0 <= i < idx ==> Startable(stages[i], builtins, executables)
    requires idx < |stages| ==> !Startable(stages[idx], builtins, executables)
    ensures FirstStop(stages, builtins, executables) == idx
  {
  }

  lemma JobsStep(forks: seq<Forked>, n0: nat, stages: seq<seq<string>>, idx: nat, allFds: seq<Pipe>,
    builtins: set<string>, executables: map<string, string>, f: Forked)
    requires JobsMatch(forks, n0, stages, idx, allFds, builtins, executables) && |forks| == n0 + idx
    requires idx < |stages| && idx <= |allFds| && Startable(stages[idx], builtins, executables)
    requires f.job == StageJob(stages[idx], idx, allFds, builtins, executables)
    ensures JobsMatch(forks + [f], n0, stages, idx + 1, allFds, builtins, executables)
  {
    forall i | 0 <= i < idx + 1
      ensures i <= |allFds| && Startable(stages[i], builtins, executables) &&
        (forks + [f])[n0 + i].job == StageJob(stages[i], i, allFds, builtins, executables)
    {
      if i < idx {
        assert (forks + [f])[n0 + i] == forks[n0 + i];
      }
    }
  }

  /**
    What a single-stage command leaves behind. Found exactly when the command
    routes somewhere; no pipe is made or closed. A shell command runs in the
    shell's own process: `exit` sets the exit status, `cd` the working
    directory. An executable or builtin gets exactly one child, running its
    path or name with all the arguments and no pipes, and that child is waited
    for when the fork succeeded. A command that is not found changes nothing.
   */
  ghost predicate SingleDone(cmd: string, argv: seq<string>, shell: set<string>, builtins: set<string>,
    executables: map<string, string>, home: Option<string>, directories: set<string>,
    s0: Observed, s1: Observed, found: bool)
    requires argv != [] || cmd !in shell
  {
    var route := SingleRoute(cmd, shell, builtins, executables);
    found == (route != NotFound) && s1.pipes == s0.pipes && s1.openFds == s0.openFds &&
    (route == InShell ==> (s1.forks == s0.forks && s1.waited == s0.waited &&
      (cmd == "exit" ==> s1.exited == Some(ShellCommands.ExitStatus(argv[1..])) && s1.cwd == s0.cwd) &&
      (cmd == "cd" ==> s1.cwd == CdResult(argv[1..], home, s0.cwd, directories) && s1.exited == s0.exited))) &&
    (route.Executable? || route == Builtin ==> (
      |s1.forks| == |s0.forks| + 1 && s1.forks[..|s0.forks|] == s0.forks &&
      s1.forks[|s0.forks|].job == Job(if route.Executable? then route.path else cmd, argv, None) &&
      s1.waited == s0.waited + Spawned(s1.forks[|s0.forks|..]) &&
      s1.cwd == s0.cwd && s1.exited == s0.exited)) &&
    (route == NotFound ==> s1 == s0)
  }

  /**
    What a pipeline leaves behind, with `stop` the first stage that cannot be
    started: one pipe fewer than stages; one child per stage before `stop`, with
    that stage's job; found exactly when every stage started, and only then are
    the children waited for, in the order started. The children's pids are all
    different. Every pipe end is closed again, except when the pipeline stopped
    at an empty stage.
   */
  ghost predicate PipelineDone(stages: seq<seq<string>>, builtins: set<string>, executables: map<string, string>,
    open0: set<int>, pipes0: seq<Pipe>, forks0: seq<Forked>, waited0: seq<int>,
    open1: set<int>, pipes1: seq<Pipe>, forks1: seq<Forked>, waited1: seq<int>, found: bool)
    requires |stages| > 0
  {
    var stop := FirstStop(stages, builtins, executables);
    |pipes1| == |pipes0| + |stages| - 1 && pipes1[..|pipes0|] == pipes0 &&
    var allFds := pipes1[|pipes0|..];
    NoDup(allFds) && PipeFds(allFds) !! open0 &&
    |forks1| == |forks0| + stop && forks1[..|forks0|] == forks0 &&
    JobsMatch(forks1, |forks0|, stages, stop, allFds, builtins, executables) &&
    NoDup(Spawned(forks1[|forks0|..])) &&
    found == (stop == |stages|) &&
    open1 == (if stop < |stages| && stages[stop] == [] then open0 + PipeFds(allFds) else open0) &&
    waited1 == (if found then waited0 + Spawned(forks1[|forks0|..]) else waited0)
  }

  /**
    After a pipeline that was found, every child it created is waited for exactly
    once, in the order started: no child is reaped while the stages start, so
    `fork` cannot hand one child's pid to another.
   */
  lemma EachChildWaitedOnce(stages: seq<seq<string>>, builtins: set<string>, executables: map<string, string>,
    open0: set<int>, pipes0: seq<Pipe>, forks0: seq<Forked>, waited0: seq<int>,
    open1: set<int>, pipes1: seq<Pipe>, forks1: seq<Forked>, waited1: seq<int>)
    requires |stages| > 0
    requires PipelineDone(stages, builtins, executables, open0, pipes0, forks0, waited0, open1, pipes1, forks1, waited1, true)
    ensures waited1[|waited0|..] == Spawned(forks1[|forks0|..])
    ensures forall pid :: pid in Spawned(forks1[|forks0|..]) ==> Count(waited1[|waited0|..], pid) == 1
  {
    var children := Spawned(forks1[|forks0|..]);
    assert waited1 == waited0 + children;
    assert waited1[|waited0|..] == children;
    forall pid | pid in children ensures Count(children, pid) == 1 {
      NoDupCountOne(children, pid);
    }
  }

  lemma {:induction false} NoDupCountOne<T>(s: seq<T>, x: T)
    requires NoDup(s) && x in s
    ensures Count(s, x) == 1
  {
    if s[0] == x {
      CountAbsent(s[1..], x);
    } else {
      NoDupCountOne(s[1..], x);
    }
  }

  lemma {:induction false} CountAbsent<T>(s: seq<T>, x: T)
    requires x !in s
    ensures Count(s, x) == 0
  {
    if s != [] {
      CountAbsent(s[1..], x);
    }
  }
}
