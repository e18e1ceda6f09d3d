/**
  The operating system as the shell's process sees it: the descriptors it has
  open, the pipes and children it has created, the children it has waited for,
  its working directory and whether it has exited. `pipe`, `fork`, `close`,
  `waitpid`, `chdir` and `exit` are its methods; which commands PATH holds, which
  directories exist and HOME are fixed for a run.
 */
module Kernel {
  import opened Seqs
  import opened Wrappers

  /** The two ends of a pipe. */
  datatype Pipe = Pipe(read: int, write: int)

  /** An entry of the list telling a child which standard stream a pipe end replaces. */
  datatype PipeLine = PipeLine(fdT: int, fds: Pipe)

  /** The pipes a pipeline child is given: its own entries, and every pipe so it can close them. */
  datatype Plumbing = Plumbing(pipeline: seq<PipeLine>, allFds: seq<Pipe>)

  /** What a child is created to run: the program (a path or a builtin's name), its arguments and its pipes. */
  datatype Job = Job(cmd: string, argv: seq<string>, pipe: Option<Plumbing>)

  /** One call of `fork`: the job and the child's pid, or `None` when it failed. */
  datatype Forked = Forked(job: Job, pid: Option<int>)

  const STDIN: int := 0
  const STDOUT: int := 1

  /** Both ends of every pipe in `pipes`. */
  function PipeFds(pipes: seq<Pipe>): set<int> {
    if pipes == [] then {}
    else PipeFds(pipes[..|pipes| - 1]) + {pipes[|pipes| - 1].read, pipes[|pipes| - 1].write}
  }

  /** The pids of the children that were created, in the order of creation. */
  function Spawned(forks: seq<Forked>): seq<int> {
    if forks == [] then []
    else Spawned(forks[..|forks| - 1]) + (if forks[|forks| - 1].pid.Some? then [forks[|forks| - 1].pid.value] else [])
  }

  lemma SpawnedConcat(a: seq<Forked>, b: seq<Forked>)
    ensures Spawned(a + b) == Spawned(a) + Spawned(b)
    decreases |b|
  {
    if b == [] {
      assert a + b == a;
    } else {
      assert (a + b)[..|a + b| - 1] == a + b[..|b| - 1];
      SpawnedConcat(a, b[..|b| - 1]);
    }
  }

  /** What the shell's process can observe of the system at one moment. */
  datatype Observed = Observed(openFds: set<int>, pipes: seq<Pipe>, forks: seq<Forked>, waited: seq<int>,
                               cwd: string, exited: Option<int>)

  /** Every pid handed out is below `next`. */
  predicate PidsBelow(pids: seq<int>, next: int) {
    forall k :: 0 <= k < |pids| ==> pids[k] < next
  }

  /**
    The children created and not yet waited for, counted with multiplicity: the
    kernel may hand a reaped child's pid to a later child, which is then
    unreaped once more.
   */
  function Unreaped(forks: seq<Forked>, waited: seq<int>): multiset<int> {
    multiset(Spawned(forks)) - multiset(waited)
  }

  /** A pid beyond every one handed out is held by no child. */
  lemma FreshPid(forks: seq<Forked>, waited: seq<int>, next: int)
    requires PidsBelow(Spawned(forks), next)
    ensures next !in Unreaped(forks, waited)
  {
    assert next !in Spawned(forks);
  }

  /** A fork keeps every pid below a bound that is above the new one. */
  lemma PidsStayBelow(forks: seq<Forked>, f: Forked, next: int, bound: int)
    requires PidsBelow(Spawned(forks), next) && next <= bound
    requires f.pid.Some? ==> f.pid.value < bound
    requires Spawned(forks + [f]) == Spawned(forks) + (if f.pid.Some? then [f.pid.value] else [])
    ensures PidsBelow(Spawned(forks + [f]), bound)
  {
  }

  /** Only children that were created have been waited for, each at most once per creation. */
  predicate ReapsOwnChildren(forks: seq<Forked>, waited: seq<int>) {
    multiset(waited) <= multiset(Spawned(forks))
  }

  /** A fork keeps every wait on a created child. */
  lemma ForkKeepsReaps(forks: seq<Forked>, waited: seq<int>, f: Forked)
    requires ReapsOwnChildren(forks, waited)
    ensures ReapsOwnChildren(forks + [f], waited)
    ensures Spawned(forks + [f]) == Spawned(forks) + (if f.pid.Some? then [f.pid.value] else [])
  {
    assert (forks + [f])[..|forks|] == forks;
  }

  /** A fork adds its child, if any, to the children not yet waited for. */
  lemma {:induction false} ForkUnreaped(forks: seq<Forked>, waited: seq<int>, f: Forked)
    requires ReapsOwnChildren(forks, waited)
    ensures ReapsOwnChildren(forks + [f], waited)
    ensures Spawned(forks + [f]) == Spawned(forks) + (if f.pid.Some? then [f.pid.value] else [])
    ensures Unreaped(forks + [f], waited) == Unreaped(forks, waited) + (if f.pid.Some? then multiset{f.pid.value} else multiset{})
  {
    assert (forks + [f])[..|forks|] == forks;
  }

  /** Waiting for an unreaped child keeps every wait on a created child. */
  lemma WaitKeepsReaps(forks: seq<Forked>, waited: seq<int>, pid: int)
    requires ReapsOwnChildren(forks, waited) && pid in Unreaped(forks, waited)
    ensures ReapsOwnChildren(forks, waited + [pid])
  {
    assert multiset(waited + [pid]) == multiset(waited) + multiset{pid};
  }

  /** A wait removes one count of its pid from the children not yet waited for. */
  lemma WaitUnreaped(forks: seq<Forked>, waited: seq<int>, pid: int)
    ensures Unreaped(forks, waited + [pid]) == Unreaped(forks, waited) - multiset{pid}
  {
    assert multiset(waited + [pid]) == multiset(waited) + multiset{pid};
  }

  class Os {
    var openFds: set<int>
    var pipes: seq<Pipe>
    var forks: seq<Forked>
    var waited: seq<int>
    var cwd: string
    var exited: Option<int>
    var nextFd: int
    var nextPid: int
    /** The commands found on PATH, with the path of each. */
    const executables: map<string, string>
    const directories: set<string>
    const home: Option<string>

    /**
      Descriptors below `nextFd` and pids below `nextPid` have been handed out,
      and only children that were created have been waited for.
     */
    ghost predicate Valid()
      reads this
    {
      nextPid > 0 &&
      (forall fd :: fd in openFds ==> fd < nextFd) &&
      PidsBelow(Spawned(forks), nextPid) &&
      ReapsOwnChildren(forks, waited)
    }

    /** The observable state, for contracts that compare two moments. */
    function State(): Observed
      reads this
    {
      Observed(openFds, pipes, forks, waited, cwd, exited)
    }

    constructor (executables: map<string, string>, directories: set<string>, home: Option<string>, cwd: string)
      ensures Valid()
      ensures openFds == {0, 1, 2} && pipes == [] && forks == [] && waited == [] && exited == None
      ensures this.executables == executables && this.directories == directories && this.home == home && this.cwd == cwd
    {
      this.executables := executables;
      this.directories := directories;
      this.home := home;
      this.cwd := cwd;
      openFds := {0, 1, 2};
      pipes := [];
      forks := [];
      waited := [];
      exited := None;
      nextFd := 3;
      nextPid := 1;
    }

    /** `pipe`: two new descriptors, open from now on. */
    method MakePipe() returns (p: Pipe)
      requires Valid()
      modifies this
      ensures Valid()
      ensures p.read != p.write && p.read !in old(openFds) && p.write !in old(openFds)
      ensures openFds == old(openFds) + {p.read, p.write} && pipes == old(pipes) + [p]
      ensures forks == old(forks) && waited == old(waited) && cwd == old(cwd) && exited == old(exited)
    {
      p := Pipe(nextFd, nextFd + 1);
      openFds := openFds + {nextFd, nextFd + 1};
      pipes := pipes + [p];
      nextFd := nextFd + 2;
    }

    /** `close`. */
    method Close(fd: int)
      requires Valid()
      modifies this
      ensures Valid()
      ensures openFds == old(openFds) - {fd}
      ensures pipes == old(pipes) && forks == old(forks) && waited == old(waited) && cwd == old(cwd) && exited == old(exited)
    {
      openFds := openFds - {fd};
    }

    /**
      `fork`: creates a child running `job`, unless the system refuses. The new
      child's pid is positive and held by no child not yet waited for; the pid
      of a reaped child may come back.
     */
    method Fork(job: Job) returns (pid: Option<int>)
      requires Valid()
      modifies this
      ensures Valid()
      ensures forks == old(forks) + [Forked(job, pid)]
      ensures pid.Some? ==> pid.value > 0 && pid.value !in Unreaped(old(forks), old(waited))
      ensures openFds == old(openFds) && pipes == old(pipes) && waited == old(waited) && cwd == old(cwd) && exited == old(exited)
    {
      var refused: bool :| true;
      FreshPid(forks, waited, nextPid);
      var p: int :| p > 0 && p !in Unreaped(forks, waited);
      pid := if refused then None else Some(p);
      var bound := if p >= nextPid then p + 1 else nextPid;
      ForkKeepsReaps(forks, waited, Forked(job, pid));
      PidsStayBelow(forks, Forked(job, pid), nextPid, bound);
      forks := forks + [Forked(job, pid)];
      nextPid := bound;
    }

    /** `waitpid` on a child not yet waited for. */
    method WaitPid(pid: int)
      requires Valid() && pid in Unreaped(forks, waited)
      modifies this
      ensures Valid()
      ensures waited == old(waited) + [pid]
      ensures openFds == old(openFds) && pipes == old(pipes) && forks == old(forks) && cwd == old(cwd) && exited == old(exited)
    {
      WaitKeepsReaps(forks, waited, pid);
      waited := waited + [pid];
    }

    /** `chdir`: succeeds exactly for an existing directory. */
    method Chdir(dir: string) returns (ok: bool)
      requires Valid()
      modifies this
      ensures Valid()
      ensures ok == (dir in directories) && cwd == if ok then dir else old(cwd)
      ensures openFds == old(openFds) && pipes == old(pipes) && forks == old(forks) && waited == old(waited) && exited == old(exited)
    {
      ok := dir in directories;
      if ok {
        cwd := dir;
      }
    }

    /** `process::exit`. */
    method Exit(code: int)
      requires Valid()
      modifies this
      ensures Valid()
      ensures exited == Some(code)
      ensures openFds == old(openFds) && pipes == old(pipes) && forks == old(forks) && waited == old(waited) && cwd == old(cwd)
    {
      exited := Some(code);
    }
  }
}
