/**
  The two commands the shell runs in its own process (src/interpreter.rs:23 and
  52-86): `exit`, which parses its status as a 32-bit signed integer, and `cd`,
  which resolves its argument against the current directory by text alone before
  asking the operating system to change to it.
 */
module ShellCommands {
  import opened Seqs
  import opened Wrappers

  // ---------------------------------------------------------------------------
  // exit

  const I32Min: int := -0x8000_0000
  const I32Max: int := 0x7FFF_FFFF

  predicate IsDigit(c: char) {
    '0' <= c <= '9'
  }

  predicate AllDigits(s: string) {
    forall i :: 0 <= i < |s| ==> IsDigit(s[i])
  }

  /** The value of a string of decimal digits, most significant first. */
  function DigitsValue(ds: string): nat
    requires AllDigits(ds)
  {
    if ds == [] then 0 else DigitsValue(ds[..|ds| - 1]) * 10 + (ds[|ds| - 1] as int - '0' as int)
  }

  /**
    Rust's `str::parse::<i32>`: an optional `+` or `-`, then at least one decimal
    digit, and a value that fits in 32 bits; anything else is an error.
   */
  function ParseI32(s: string): (r: Option<int>)
    ensures r.Some? ==> I32Min <= r.value <= I32Max
    ensures r.Some? ==> exists i :: 0 <= i < |s| && IsDigit(s[i])
  {
    var digits := Magnitude(s);
    if digits == [] || !AllDigits(digits) then None
    else
      assert IsDigit(s[|s| - 1]) by { assert s[|s| - 1] == digits[|digits| - 1]; }
      var v: int := if s[0] == '-' then -(DigitsValue(digits) as int) else DigitsValue(digits);
      if I32Min <= v <= I32Max then Some(v) else None
  }

  /** The text of a number after its optional sign. */
  function Magnitude(s: string): string {
    if |s| > 0 && (s[0] == '-' || s[0] == '+') then s[1..] else s
  }

  /** Digits without their leading zeros, keeping at least one digit. */
  function Strip(ds: string): string {
    if |ds| > 1 && ds[0] == '0' then Strip(ds[1..]) else ds
  }

  /** The status `exit` ends the shell with: its first argument, `0` without one, and `0` when it does not parse. */
  function ExitStatus(args: seq<string>): (code: int)
    ensures I32Min <= code <= I32Max
    ensures args != [] && ParseI32(args[0]).None? ==> code == 0
  {
    var s := if args == [] then "0" else args[0];
    match ParseI32(s)
    case Some(v) => v
    case None => 0
  }

  /** The decimal digits of `n`, without leading zeros. */
  function Decimal(n: nat): (s: string)
    ensures |s| > 0 && AllDigits(s)
  {
    if n < 10 then [('0' as int + n) as char]
    else Decimal(n / 10) + [('0' as int + n % 10) as char]
  }

  /** How `n` is written: a `-` for a negative number, then its decimal digits. */
  function Show(n: int): string {
    if n < 0 then "-" + Decimal(-n) else Decimal(n)
  }

  lemma {:induction false} DecimalValue(n: nat)
    ensures DigitsValue(Decimal(n)) == n
  {
    if n >= 10 {
      DecimalValue(n / 10);
      var s := Decimal(n);
      assert s[..|s| - 1] == Decimal(n / 10);
    }
  }

  /** Every 32-bit status written out in decimal parses back to itself. */
  lemma ParseShow(n: int)
    requires I32Min <= n <= I32Max
    ensures ParseI32(Show(n)) == Some(n)
  {
    var s := Show(n);
    if n < 0 {
      DecimalValue(-n);
      assert s[1..] == Decimal(-n);
    } else {
      DecimalValue(n);
    }
  }

  /** A leading zero does not change the value of a digit string. */
  lemma {:induction false} LeadingZero(ds: string)
    requires AllDigits(ds)
    ensures AllDigits("0" + ds) && DigitsValue("0" + ds) == DigitsValue(ds)
    decreases |ds|
  {
    var z := "0" + ds;
    if ds == [] {
      assert z[..0] == [];
    } else {
      assert z[..|z| - 1] == "0" + ds[..|ds| - 1];
      LeadingZero(ds[..|ds| - 1]);
    }
  }

  /** Digits that do not start with a zero have a positive value. */
  lemma {:induction false} NonZeroLead(ds: string)
    requires ds != [] && AllDigits(ds) && ds[0] != '0'
    ensures DigitsValue(ds) > 0
    decreases |ds|
  {
    if |ds| > 1 {
      NonZeroLead(ds[..|ds| - 1]);
    }
  }

  /** Digits without a redundant leading zero are how their value is written. */
  lemma {:induction false} DecimalOfDigits(ds: string)
    requires ds != [] && AllDigits(ds) && (|ds| == 1 || ds[0] != '0')
    ensures Decimal(DigitsValue(ds)) == ds
    decreases |ds|
  {
    var n := DigitsValue(ds);
    var init := ds[..|ds| - 1];
    if |ds| == 1 {
      assert init == [];
      assert n == ds[0] as int - '0' as int && IsDigit(ds[0]);
    } else {
      DecimalOfDigits(init);
      NonZeroLead(init);
      assert n / 10 == DigitsValue(init) && n % 10 == ds[|ds| - 1] as int - '0' as int;
      assert ds == init + [ds[|ds| - 1]];
    }
  }

  /** Stripping leading zeros keeps the value and leaves how the value is written. */
  lemma {:induction false} StripDecimal(ds: string)
    requires ds != [] && AllDigits(ds)
    ensures Decimal(DigitsValue(ds)) == Strip(ds)
    decreases |ds|
  {
    if |ds| > 1 && ds[0] == '0' {
      assert ds == "0" + ds[1..];
      LeadingZero(ds[1..]);
      StripDecimal(ds[1..]);
    } else {
      DecimalOfDigits(ds);
    }
  }

  /**
    Whatever text parses to `v` is `v` written out, up to a `+` sign, a `-`
    before zero, and leading zeros.
   */
  lemma ParseCanonical(s: string, v: int)
    requires ParseI32(s) == Some(v)
    ensures v < 0 ==> s == "-" + Magnitude(s)
    ensures v > 0 ==> s == Magnitude(s) || s == "+" + Magnitude(s)
    ensures Show(v) == (if v < 0 then "-" else "") + Strip(Magnitude(s))
  {
    var ds := Magnitude(s);
    StripDecimal(ds);
    if |s| > 0 && (s[0] == '-' || s[0] == '+') {
      assert s == [s[0]] + ds;
    }
  }

  /** `exit n` ends the shell with status `n`, whatever follows it. */
  lemma ExitWithStatus(n: int, rest: seq<string>)
    requires I32Min <= n <= I32Max
    ensures ExitStatus([Show(n)] + rest) == n
  {
    ParseShow(n);
  }

  /** `exit` alone ends the shell with status 0. */
  lemma ExitDefault()
    ensures ExitStatus([]) == 0
  {
    assert DigitsValue("0") == 0 by {
      assert "0"[..0] == [];
    }
  }

  /** A number beyond 32 bits does not parse, so `exit` then uses status 0. */
  lemma ExitOverflow(digits: string, rest: seq<string>)
    requires digits != [] && AllDigits(digits) && DigitsValue(digits) > I32Max
    ensures ExitStatus([digits] + rest) == 0
  {
  }

  // ---------------------------------------------------------------------------
  // cd

  /** The non-empty pieces of `parts`, in order. */
  function NonEmpty(parts: seq<string>): (r: seq<string>)
    ensures forall i :: 0 <= i < |r| ==> r[i] != [] && r[i] in parts
  {
    if parts == [] then []
    else if parts[0] == [] then NonEmpty(parts[1..])
    else [parts[0]] + NonEmpty(parts[1..])
  }

  /** The directory names of a working directory, root first. */
  function Segments(pwd: string): seq<string> {
    NonEmpty(Split(pwd, '/'))
  }

  /** One path component applied to a stack of directory names: `.` stays, `..` goes up unless at the root. */
  function Enter(res: seq<string>, part: string): seq<string> {
    if part == "." then res
    else if part == ".." then (if res == [] then [] else res[..|res| - 1])
    else res + [part]
  }

  /** The components applied left to right. */
  function Navigate(res: seq<string>, parts: seq<string>): seq<string>
    decreases |parts|
  {
    if parts == [] then res else Navigate(Enter(res, parts[0]), parts[1..])
  }

  /**
    The directory `cd` asks for: HOME (or `/root` when HOME is unset) without an
    argument or for `~`; an absolute argument as written; otherwise the argument's
    components applied to the current directory's names. Every target but the home
    directory starts with `/`.
   */
  function CdTarget(arg: Option<string>, home: Option<string>, pwd: string): (dir: string)
    ensures arg.None? || arg.value == "~" ==> dir == if home.Some? then home.value else "/root"
    ensures arg.Some? && arg.value != "~" ==> |dir| > 0 && dir[0] == '/'
    ensures arg.Some? && IsPrefix("/", arg.value) ==> dir == arg.value
  {
    var d := if arg.Some? then arg.value else "~";
    if d == "~" then
      assert !IsPrefix("/", d) by { assert d[..1][0] == '~'; }
      if home.Some? then home.value else "/root"
    else if IsPrefix("/", d) then d
    else "/" + Join(Navigate(Segments(pwd), Split(d, '/')), '/')
  }

  /** The resolution loop: components pushed and popped on the current directory's names. */
  method ResolveDir(arg: Option<string>, home: Option<string>, pwd: string) returns (dir: string)
    ensures dir == CdTarget(arg, home, pwd)
  {
    dir := if arg.Some? then arg.value else "~";
    if dir == "~" {
      dir := if home.Some? then home.value else "/root";
    } else if !IsPrefix("/", dir) {
      var parts := Split(dir, '/');
      var res := Segments(pwd);
      for i := 0 to |parts|
        invariant Navigate(res, parts[i..]) == Navigate(Segments(pwd), parts)
      {
        assert parts[i..][1..] == parts[i + 1..];
        var part := parts[i];
        if part == "." {
          continue;
        }
        if part == ".." {
          if res != [] {
            res := res[..|res| - 1];
          }
          continue;
        }
        res := res + [part];
      }
      assert parts[|parts|..] == [];
      dir := "/" + Join(res, '/');
    }
  }

  /** Components are applied one after another: a path is its first part, then the rest. */
  lemma {:induction false} NavigateConcat(res: seq<string>, p: seq<string>, q: seq<string>)
    ensures Navigate(res, p + q) == Navigate(Navigate(res, p), q)
    decreases |p|
  {
    if p == [] {
      assert p + q == q;
    } else {
      assert (p + q)[1..] == p[1..] + q;
      NavigateConcat(Enter(res, p[0]), p[1..], q);
    }
  }

  /** Going into a directory and back up returns to where one was. */
  lemma DownAndUp(res: seq<string>, name: string)
    requires name != "." && name != ".."
    ensures Navigate(res, [name, ".."]) == res
  {
    assert [name, ".."][1..] == [".."];
    assert Navigate(res, [name, ".."]) == Navigate(res + [name], [".."]);
    assert (res + [name])[..|res|] == res;
    assert Navigate(res + [name], [".."]) == Navigate(res, [".."][1..]);
  }

  /** Without `.` and `..`, the components are appended as they are. */
  lemma {:induction false} NavigatePlain(res: seq<string>, parts: seq<string>)
    requires forall i :: 0 <= i < |parts| ==> parts[i] != "." && parts[i] != ".."
    ensures Navigate(res, parts) == res + parts
    decreases |parts|
  {
    if parts != [] {
      NavigatePlain(res + [parts[0]], parts[1..]);
      assert res + [parts[0]] + parts[1..] == res + parts;
    } else {
      assert res + parts == res;
    }
  }

  /** `..` at the root stays at the root. */
  lemma {:induction false} UpAtRoot(n: nat)
    ensures Navigate([], seq(n, _ => "..")) == []
  {
    if n > 0 {
      assert seq(n, _ => "..")[1..] == seq(n - 1, _ => "..");
      UpAtRoot(n - 1);
    }
  }

  lemma NonEmptyAll(parts: seq<string>)
    requires forall i :: 0 <= i < |parts| ==> parts[i] != []
    ensures NonEmpty(parts) == parts
  {
  }

  /** A working directory written `/` followed by its names separated by `/`. */
  predicate Canonical(pwd: string, names: seq<string>) {
    pwd == "/" + Join(names, '/') && forall i :: 0 <= i < |names| ==> names[i] != [] && '/' !in names[i]
  }

  /** The names of a canonical working directory are read back from it. */
  lemma CanonicalSegments(pwd: string, names: seq<string>)
    requires Canonical(pwd, names)
    ensures Segments(pwd) == names
  {
    assert pwd == [] + ['/'] + Join(names, '/');
    SplitAfter([], '/', Join(names, '/'));
    if names == [] {
      assert Split(pwd, '/') == [[], []];
      assert NonEmpty([[], []]) == NonEmpty([[]]) == NonEmpty([]);
    } else {
      SplitJoin(names, '/');
      NonEmptyAll(names);
      assert ([[]] + names)[1..] == names;
    }
  }

  /** `cd .` from a canonical working directory asks for that same directory. */
  lemma CdHere(home: Option<string>, pwd: string, names: seq<string>)
    requires Canonical(pwd, names)
    ensures CdTarget(Some("."), home, pwd) == pwd
  {
    CanonicalSegments(pwd, names);
    SplitFree(".", '/');
    assert !IsPrefix("/", ".") by { assert "."[..1][0] == '.'; }
    assert "." != "~";
    assert Navigate(names, ["."]) == Navigate(names, ["."][1..]);
  }

  /** A relative path without `.` or `..` is appended to the working directory: `/a` and `b/c` give `/a/b/c`. */
  lemma CdDown(home: Option<string>, pwd: string, names: seq<string>, path: seq<string>)
    requires Canonical(pwd, names) && |path| > 0
    requires forall i :: 0 <= i < |path| ==> path[i] != [] && '/' !in path[i] && path[i] != "." && path[i] != ".."
    requires path[0] != "~"
    ensures CdTarget(Some(Join(path, '/')), home, pwd) == "/" + Join(names + path, '/')
  {
    var d := Join(path, '/');
    CanonicalSegments(pwd, names);
    SplitJoin(path, '/');
    NavigatePlain(names, path);
    assert d[0] != '/' by {
      JoinStartsWith(path, '/');
    }
  }

  lemma JoinStartsWith(parts: seq<string>, sep: char)
    requires |parts| > 0 && parts[0] != []
    ensures |Join(parts, sep)| >= |parts[0]| && Join(parts, sep)[..|parts[0]|] == parts[0]
    ensures |parts| == 1 ==> Join(parts, sep) == parts[0]
    ensures |Join(parts, sep)| == |parts[0]| ==> |parts| == 1
  {
  }

  lemma JoinTwo(x: string, y: string)
    ensures Join([x, y], '/') == x + "/" + y
  {
    assert [x, y][1..] == [y];
  }

  lemma UpAndOver(a: string, b: string, c: string)
    requires c != "." && c != ".."
    ensures Navigate([a, b], ["..", c]) == [a, c]
  {
    assert ["..", c][1..] == [c];
    assert [a, b][..1] == [a];
    assert Navigate([a, b], ["..", c]) == Navigate([a], [c]);
    assert Navigate([a], [c]) == Navigate([a, c], [c][1..]);
  }

  /** `/a/b` and `../c` give `/a/c`. */
  lemma CdUpAndOver(home: Option<string>, a: string, b: string, c: string)
    requires a != [] && b != [] && c != [] && '/' !in a && '/' !in b && '/' !in c
    requires c != "." && c != ".."
    ensures CdTarget(Some(".." + "/" + c), home, "/" + a + "/" + b) == "/" + a + "/" + c
  {
    var pwd := "/" + a + "/" + b;
    JoinTwo(a, b);
    assert pwd == "/" + Join([a, b], '/');
    CanonicalSegments(pwd, [a, b]);
    var d := ".." + "/" + c;
    JoinTwo("..", c);
    SplitJoin(["..", c], '/');
    UpAndOver(a, b, c);
    assert !IsPrefix("/", d) by { assert d[..1][0] == '.'; }
    assert d != "~" by { assert |d| > 1; }
    JoinTwo(a, c);
  }
}
