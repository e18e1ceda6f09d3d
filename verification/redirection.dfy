/**
  Redirections in a child process (src/interpreter.rs:241-285): the arguments are
  scanned once, every redirection operator taking the next argument as its file,
  and the redirections found are then applied left to right to the child's file
  descriptor table. Opening a file is the operating system's business: `openable`
  lists the (file, flags) pairs an `open` would succeed on.
 */
module Redirection {
  import opened Wrappers

  /** The tokens that redirect a stream. */
  const Operators: set<string> := {">", "<", ">>", "1>", "2>", "&>", "1>>", "2>>"}

  datatype Redirect = Redirect(op: string, file: string)

  /** The arguments left for the program, and the redirections in the order written. */
  datatype Scanned = Scanned(argv: seq<string>, redirects: seq<Redirect>)

  // ---------------------------------------------------------------------------
  // The scan.

  /** The scan of `args`: an operator with no argument after it is a syntax error. */
  function Scan(args: seq<string>): Result<Scanned> {
    if args == [] then Ok(Scanned([], []))
    else if args[0] in Operators then
      if |args| == 1 then Err("Syntax error")
      else Prepend([], [Redirect(args[0], args[1])], Scan(args[2..]))
    else Prepend([args[0]], [], Scan(args[1..]))
  }

  /** Puts arguments and redirections found earlier in front of a scan result. */
  function Prepend(argv: seq<string>, redirects: seq<Redirect>, r: Result<Scanned>): Result<Scanned> {
    match r
    case Ok(s) => Ok(Scanned(argv + s.argv, redirects + s.redirects))
    case Err(e) => Err(e)
  }

  lemma PrependPrepend(a1: seq<string>, r1: seq<Redirect>, a2: seq<string>, r2: seq<Redirect>, r: Result<Scanned>)
    ensures Prepend(a1, r1, Prepend(a2, r2, r)) == Prepend(a1 + a2, r1 + r2, r)
  {
    if r.Ok? {
      assert a1 + (a2 + r.value.argv) == a1 + a2 + r.value.argv;
      assert r1 + (r2 + r.value.redirects) == r1 + r2 + r.value.redirects;
    }
  }

  lemma PrependNothing(r: Result<Scanned>)
    ensures Prepend([], [], r) == r
  {
    if r.Ok? {
      assert [] + r.value.argv == r.value.argv && [] + r.value.redirects == r.value.redirects;
    }
  }

  lemma PrependOnto(argv: seq<string>, redirects: seq<Redirect>)
    ensures Prepend(argv, redirects, Ok(Scanned([], []))) == Ok(Scanned(argv, redirects))
  {
    assert argv + [] == argv && redirects + [] == redirects;
  }

  /** The `while let` loop over the argument iterator. */
  method ScanRedirections(args: seq<string>) returns (r: Result<Scanned>)
    ensures r == Scan(args)
  {
    var argv: seq<string> := [];
    var redirects: seq<Redirect> := [];
    var i := 0;
    assert args[0..] == args;
    PrependNothing(Scan(args));
    while i < |args|
      invariant i <= |args|
      invariant Scan(args) == Prepend(argv, redirects, Scan(args[i..]))
    {
      var arg := args[i];
      i := i + 1;
      if arg in Operators {
        if i == |args| {
          assert args[i - 1..] == [arg];
          return Err("Syntax error");
        }
        var file := args[i];
        i := i + 1;
        assert args[i - 2..][2..] == args[i..];
        PrependPrepend(argv, redirects, [], [Redirect(arg, file)], Scan(args[i..]));
        redirects := redirects + [Redirect(arg, file)];
        assert argv + [] == argv;
      } else {
        assert args[i - 1..][1..] == args[i..];
        PrependPrepend(argv, redirects, [arg], [], Scan(args[i..]));
        argv := argv + [arg];
        assert redirects + [] == redirects;
      }
    }
    assert args[i..] == [];
    PrependOnto(argv, redirects);
    r := Ok(Scanned(argv, redirects));
  }

  /**
    A successful scan splits the arguments exactly: every redirection is an operator
    and its file, none of the arguments kept is an operator, and the counts add up.
   */
  lemma {:induction false} ScanShape(args: seq<string>)
    requires Scan(args).Ok?
    ensures var s := Scan(args).value;
      |s.argv| + 2 * |s.redirects| == |args| &&
      (forall a :: a in s.argv ==> a !in Operators) &&
      (forall k :: 0 <= k < |s.redirects| ==> s.redirects[k].op in Operators)
  {
    if args != [] {
      if args[0] in Operators {
        ScanShape(args[2..]);
      } else {
        ScanShape(args[1..]);
      }
    }
  }

  /** Without operators nothing is redirected and every argument is kept, in order. */
  lemma {:induction false} ScanNoOperators(args: seq<string>)
    requires forall k :: 0 <= k < |args| ==> args[k] !in Operators
    ensures Scan(args) == Ok(Scanned(args, []))
  {
    if args != [] {
      assert args[0] !in Operators;
      ScanNoOperators(args[1..]);
      assert [args[0]] + args[1..] == args;
      PrependOnto([args[0]], []);
      PrependPrepend([args[0]], [], args[1..], [], Ok(Scanned([], [])));
      PrependOnto(args[1..], []);
      PrependOnto([args[0]] + args[1..], []);
    }
  }

  /**
    Scanning is left to right: once a prefix scans on its own, the scan of the
    whole is the prefix's result followed by the rest's, so the arguments kept and
    the redirections both keep their relative order.
   */
  lemma {:induction false} ScanConcat(a: seq<string>, b: seq<string>)
    requires Scan(a).Ok?
    ensures Scan(a + b) == Prepend(Scan(a).value.argv, Scan(a).value.redirects, Scan(b))
  {
    if a == [] {
      assert a + b == b;
      PrependNothing(Scan(b));
    } else if a[0] in Operators {
      assert (a + b)[2..] == a[2..] + b;
      ScanConcat(a[2..], b);
      PrependPrepend([], [Redirect(a[0], a[1])], Scan(a[2..]).value.argv, Scan(a[2..]).value.redirects, Scan(b));
    } else {
      assert (a + b)[1..] == a[1..] + b;
      ScanConcat(a[1..], b);
      PrependPrepend([a[0]], [], Scan(a[1..]).value.argv, Scan(a[1..]).value.redirects, Scan(b));
    }
  }

  /** An operator in last position has no file: the whole scan is a syntax error. */
  lemma DanglingOperator(a: seq<string>, op: string)
    requires Scan(a).Ok? && op in Operators
    ensures Scan(a + [op]) == Err("Syntax error")
  {
    ScanConcat(a, [op]);
  }

  /** `cmd arg > file`: the file is taken out of the arguments. */
  lemma ScanExample(cmd: string, arg: string, op: string, file: string)
    requires cmd !in Operators && arg !in Operators && op in Operators
    ensures Scan([cmd, arg, op, file]) == Ok(Scanned([cmd, arg], [Redirect(op, file)]))
  {
    ScanNoOperators([cmd, arg]);
    assert [op, file][2..] == [];
    PrependOnto([], [Redirect(op, file)]);
    ScanConcat([cmd, arg], [op, file]);
    assert [cmd, arg] + [op, file] == [cmd, arg, op, file];
    assert [cmd, arg] + [] == [cmd, arg];
    assert [] + [Redirect(op, file)] == [Redirect(op, file)];
  }

  // ---------------------------------------------------------------------------
  // The operator table and its application.

  /** The open flags, with their Linux values. */
  const O_RDONLY: bv32 := 0
  const O_WRONLY: bv32 := 0x1
  const O_CREAT: bv32 := 0x40
  const O_TRUNC: bv32 := 0x200
  const O_APPEND: bv32 := 0x400

  const TruncateFlags: bv32 := O_WRONLY | O_TRUNC | O_CREAT
  const AppendFlags: bv32 := O_WRONLY | O_CREAT | O_APPEND

  /** What a file descriptor of the child refers to. */
  datatype Stream = Inherited(fd: int) | File(name: string, flags: bv32)

  /** The stream an operator opens: the flags and the descriptor it replaces. */
  datatype Target = Target(flags: bv32, fd: int)

  /** The table for every operator but `&>`, which is handled on its own. */
  function Table(op: string): (t: Option<Target>)
    ensures t.Some? <==> op in Operators - {"&>"}
    ensures t.Some? ==> (t.value.fd == 0 <==> t.value.flags == O_RDONLY)
    ensures t.Some? && t.value.fd != 0 ==> t.value.flags in {TruncateFlags, AppendFlags}
  {
    if op == ">" || op == "1>" then Some(Target(TruncateFlags, 1))
    else if op == "<" then Some(Target(O_RDONLY, 0))
    else if op == ">>" || op == "1>>" then Some(Target(AppendFlags, 1))
    else if op == "2>" then Some(Target(TruncateFlags, 2))
    else if op == "2>>" then Some(Target(AppendFlags, 2))
    else None
  }

  /**
    `redirect_io`: opens `file` and puts it on descriptor `fd`; a file name with a
    NUL byte, or an `open` that fails, is an error and changes nothing.
   */
  function RedirectIo(fds: map<int, Stream>, file: string, flags: bv32, fd: int, openable: set<(string, bv32)>): (r: Option<map<int, Stream>>)
    ensures r.Some? <==> '\0' !in file && (file, flags) in openable
    ensures r.Some? ==> r.value == fds[fd := File(file, flags)]
  {
    if '\0' !in file && (file, flags) in openable then Some(fds[fd := File(file, flags)]) else None
  }

  /**
    The redirections applied in order. A failure to open is ignored, except for
    `&>`, whose failure panics the child (`None`); `&>` opens the file on
    descriptor 1 and then duplicates 1 onto 2.
   */
  function Apply(fds: map<int, Stream>, redirects: seq<Redirect>, openable: set<(string, bv32)>): Option<map<int, Stream>>
    decreases |redirects|
  {
    if redirects == [] then Some(fds)
    else
      var r := redirects[0];
      if r.op == "&>" then
        match RedirectIo(fds, r.file, TruncateFlags, 1, openable)
        case None => None
        case Some(next) => Apply(next[2 := next[1]], redirects[1..], openable)
      else
        match Table(r.op)
        case None => Apply(fds, redirects[1..], openable)
        case Some(t) =>
          var next := RedirectIo(fds, r.file, t.flags, t.fd, openable);
          Apply(if next.Some? then next.value else fds, redirects[1..], openable)
  }

  /** The `for` loop over the redirections. */
  method ApplyRedirections(fds: map<int, Stream>, redirects: seq<Redirect>, openable: set<(string, bv32)>)
    returns (r: Option<map<int, Stream>>)
    ensures r == Apply(fds, redirects, openable)
  {
    var table := fds;
    for i := 0 to |redirects|
      invariant Apply(fds, redirects, openable) == Apply(table, redirects[i..], openable)
    {
      assert redirects[i..][1..] == redirects[i + 1..];
      var re := redirects[i];
      if re.op == "&>" {
        var result := RedirectIo(table, re.file, TruncateFlags, 1, openable);
        if result.None? {
          return None;
        }
        table := result.value;
        table := table[2 := table[1]];
      } else {
        var target := Table(re.op);
        if target.Some? {
          var result := RedirectIo(table, re.file, target.value.flags, target.value.fd, openable);
          if result.Some? {
            table := result.value;
          }
        }
      }
    }
    assert redirects[|redirects|..] == [];
    r := Some(table);
  }

  /** Applying in sequence: the redirections of `a` first, then those of `b` on the result. */
  lemma {:induction false} ApplyConcat(fds: map<int, Stream>, a: seq<Redirect>, b: seq<Redirect>, openable: set<(string, bv32)>)
    ensures Apply(fds, a + b, openable) ==
      match Apply(fds, a, openable)
      case None => None
      case Some(t) => Apply(t, b, openable)
    decreases |a|
  {
    if a == [] {
      assert a + b == b;
    } else {
      assert (a + b)[1..] == a[1..] + b;
      var r := a[0];
      if r.op == "&>" {
        var next := RedirectIo(fds, r.file, TruncateFlags, 1, openable);
        if next.Some? {
          ApplyConcat(next.value[2 := next.value[1]], a[1..], b, openable);
        }
      } else if Table(r.op).Some? {
        var t := Table(r.op).value;
        var next := RedirectIo(fds, r.file, t.flags, t.fd, openable);
        ApplyConcat(if next.Some? then next.value else fds, a[1..], b, openable);
      } else {
        ApplyConcat(fds, a[1..], b, openable);
      }
    }
  }

  /** Only descriptors 0, 1 and 2 are ever replaced. */
  lemma {:induction false} ApplyKeepsOtherFds(fds: map<int, Stream>, redirects: seq<Redirect>, openable: set<(string, bv32)>)
    requires Apply(fds, redirects, openable).Some?
    ensures var r := Apply(fds, redirects, openable).value;
      forall fd :: fd != 0 && fd != 1 && fd != 2 ==> (fd in r <==> fd in fds) && (fd in fds ==> r[fd] == fds[fd])
    decreases |redirects|
  {
    if redirects != [] {
      var r := redirects[0];
      if r.op == "&>" {
        var next := RedirectIo(fds, r.file, TruncateFlags, 1, openable).value;
        ApplyKeepsOtherFds(next[2 := next[1]], redirects[1..], openable);
      } else if Table(r.op).Some? {
        var t := Table(r.op).value;
        var next := RedirectIo(fds, r.file, t.flags, t.fd, openable);
        ApplyKeepsOtherFds(if next.Some? then next.value else fds, redirects[1..], openable);
      } else {
        ApplyKeepsOtherFds(fds, redirects[1..], openable);
      }
    }
  }

  /** Only `&>` can panic: a list without it always applies. */
  lemma {:induction false} OnlyBothPanics(fds: map<int, Stream>, redirects: seq<Redirect>, openable: set<(string, bv32)>)
    requires forall k :: 0 <= k < |redirects| ==> redirects[k].op != "&>"
    ensures Apply(fds, redirects, openable).Some?
    decreases |redirects|
  {
    if redirects != [] {
      var r := redirects[0];
      if Table(r.op).Some? {
        var t := Table(r.op).value;
        var next := RedirectIo(fds, r.file, t.flags, t.fd, openable);
        OnlyBothPanics(if next.Some? then next.value else fds, redirects[1..], openable);
      } else {
        OnlyBothPanics(fds, redirects[1..], openable);
      }
    }
  }

  /** A redirection whose file cannot be opened is ignored, unless it is `&>`, which panics. */
  lemma OpenFailure(fds: map<int, Stream>, r: Redirect, openable: set<(string, bv32)>)
    requires r.op in Operators
    requires forall flags: bv32 :: (r.file, flags) !in openable
    ensures Apply(fds, [r], openable) == if r.op == "&>" then None else Some(fds)
  {
    assert [r][1..] == [];
  }

  /** The last redirection of a stream wins: the file named last is where it goes. */
  lemma LastWins(fds: map<int, Stream>, a: seq<Redirect>, r: Redirect, openable: set<(string, bv32)>)
    requires Apply(fds, a, openable).Some?
    requires Table(r.op).Some? && '\0' !in r.file && (r.file, Table(r.op).value.flags) in openable
    ensures var t := Table(r.op).value;
      Apply(fds, a + [r], openable) == Some(Apply(fds, a, openable).value[t.fd := File(r.file, t.flags)])
  {
    ApplyConcat(fds, a, [r], openable);
    assert [r][1..] == [];
  }

  /** `&>` sends both output streams to the same truncated file. */
  lemma BothOutputs(fds: map<int, Stream>, file: string, openable: set<(string, bv32)>)
    requires '\0' !in file && (file, TruncateFlags) in openable
    ensures var r := Apply(fds, [Redirect("&>", file)], openable);
      r.Some? && 1 in r.value && 2 in r.value && r.value[1] == r.value[2] == File(file, TruncateFlags) &&
      forall fd :: fd in fds && fd != 1 && fd != 2 ==> fd in r.value && r.value[fd] == fds[fd]
  {
    assert [Redirect("&>", file)][1..] == [];
  }
}
