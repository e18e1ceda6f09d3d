# nyash core, modelled in Dafny

nyash is a small interactive Unix shell. This project models its computational
core and proves what that core promises:

- **ArgsParser** (`args_parser.dfy`) is the quoting tokenizer `parse_args`. It is a
  four-state scanner (normal, single quotes, double quotes, escape) that turns a line
  into arguments. `ParseArgs` is the character loop and is proved equal to
  `Tokenize`, a fold of the one-character `Step`. Lemmas prove these facts:
  - tokens are never empty, and newlines act as spaces;
  - quoting and escaping follow their rules, and an unterminated quote keeps its token;
  - plain text splits at spaces and re-parses to the same tokens;
  - all eleven unit tests of the tokenizer hold.
- **PrefixTrie** (`trie.dfy`) is the completion trie. nyash's `Trie` owns its
  children in a `HashMap`; here the tree is stored as an arena (`nodes`, a child being the index of another
  node), with a ghost set `Words`. Proved:
  - `Insert` adds exactly its word;
  - `WithPrefix` returns exactly the stored words extending a non-empty prefix,
    each once, with a word before any of its extensions;
  - `CollectWords` returns exactly the words below a node.
- **Utils** (`utils.dfy`) is `longest_common_prefix`. Its result is characterised by
  `IsLcp`: the word, then the characters all completions agree on, up to the first
  position where one ends or differs. That characterisation is unique.
- **Readline** (`readline.dfy`) is the line editor. `Reader.UpdateTrie` fills the
  command trie. `Reader.ReadLine` runs the keystroke loop over a sequence of
  keys and is proved equal to `Session`, a fold of `Step` over the editor
  state (input buffer, bell latch). The keys are DEL, TAB, line breaks and
  plain keys. The three TAB outcomes are proved from `Step` (`TabSingle`,
  `TabCommonPrefix`, `ListingOnly`):
  - complete the only candidate;
  - extend to the common prefix or ring the bell;
  - only list once the bell has rung.
- **Kernel** (`kernel.dfy`) is the operating system as the shell sees it. The class
  `Os` tracks open descriptors, pipes, forks, waits, working directory and exit
  status, with methods for `pipe`, `close`, `fork`, `waitpid`, `chdir` and `exit`.
  Whether `fork` succeeds is left open. A new child's pid is one no unreaped child
  holds (`Unreaped`, counted with multiplicity). The pid of a child already waited
  for may be handed out again.
- **Redirection** (`redirection.dfy`) is the argument scan of `exec_command`, which
  separates the redirection operators and their files, and the operator table
  that opens files onto descriptors 0, 1 and 2.
- **ShellCommands** (`shell_commands.dfy`) holds the two commands run in the shell's
  own process. `exit` parses its status as an `i32`, with 0 for anything
  unparsable. `cd` resolves its target textually against HOME and the working
  directory.
- **Execution** (`interpreter.dfy`) is `interpret_command`. It splits the line into
  stages at `|` and dispatches a single stage: shell command, then PATH
  executable, then builtin. Several stages are wired through pipes, started,
  their pipe ends closed and their children waited for. The child's side of
  `exec_command` is the function `ChildPlan`.

`Wrappers` and `Seqs` hold `Option`/`Result` and generic sequence facts: prefix,
no duplicates, split and join on a separator, and counting.

## Model

| member | source | states |
|---|---|---|
| ArgsParser.ParseArgs | src/args_parser.rs:9-77 | the character loop returns exactly `Tokenize(cmd)`, the fold of the four-state step, and no token is empty |
| ArgsParser.ReplaceNewlines | src/args_parser.rs:14 | same length; each newline becomes a space and every other character is kept |
| ArgsParser.NewlineActsAsSpace | src/args_parser.rs:14 | a newline anywhere in the line tokenizes exactly as a space there |
| ArgsParser.NoEmptyTokens | src/args_parser.rs:26-30 | no token of any line is empty |
| ArgsParser.RunKeepsTokensNonEmpty | src/args_parser.rs:16-72 | the scan only ever emits non-empty tokens |
| ArgsParser.BlankInput | src/args_parser.rs:26-29 | a line of only spaces and newlines, including the empty line, gives no tokens |
| ArgsParser.SpaceEndsToken | src/args_parser.rs:26-30 | an unquoted space ends the token in progress |
| ArgsParser.WordRun | src/args_parser.rs:34-36 | outside quotes, any character other than a space, quote, backslash or newline (a tab included) is appended to the token |
| ArgsParser.SingleQuoted | src/args_parser.rs:39-48 | text between single quotes is appended literally, and the scan leaves the quotes in the normal state |
| ArgsParser.QuotedRun | src/args_parser.rs:44-46 | inside single quotes every character but `'` is appended |
| ArgsParser.DoubleQuoted | src/args_parser.rs:49-61 | text between double quotes without backslashes is appended literally |
| ArgsParser.UnquotedEscape | src/args_parser.rs:31-33 | outside quotes a backslash is dropped and the next character is appended, back in the normal state |
| ArgsParser.QuotedEscape | src/args_parser.rs:62-69 | inside double quotes a backslash is dropped only before `\`, `"`, `$` or a backtick, and is kept before anything else; the scan stays in double quotes |
| ArgsParser.UnterminatedQuote | src/args_parser.rs:74 | a line ending inside single quotes still emits its non-empty token |
| ArgsParser.PlainTokenize | src/args_parser.rs:16-38 | a line with no quotes, backslashes or newlines tokenizes to its space-separated words, empty ones dropped |
| ArgsParser.WordsJoin | src/args_parser.rs:26-30 | joining space-free, non-empty words with single spaces and splitting again gives the words back |
| ArgsParser.ReparseJoined | src/args_parser.rs:16-38 | for plain lines, re-tokenizing the tokens joined by single spaces gives the same tokens |
| ArgsParser.AdjacentQuotes | src/args_parser.rs:39-48 | quoted text next to unquoted text joins into one token |
| ArgsParser.EscapedArg | src/args_parser.rs:62-69 | a double-quoted `a\xb` scans to `a` `x` `b`, keeping the backslash only before an ordinary `x` |
| ArgsParser.TestBasic | src/args_parser.rs:83-89 | `echo hello world` gives three tokens |
| ArgsParser.TestSingleQuotes | src/args_parser.rs:91-97 | `echo 'hello world' foo` keeps the quoted space |
| ArgsParser.TestOnlySingleQuoted | src/args_parser.rs:99-105 | a line that is one quoted argument gives that argument |
| ArgsParser.TestMixedQuotedAndUnquoted | src/args_parser.rs:107-113 | `cmd 'arg with space' another` gives three tokens |
| ArgsParser.TestMultipleSpaces | src/args_parser.rs:115-121 | runs of spaces, leading and trailing, separate without empty tokens |
| ArgsParser.TestEmptyInput | src/args_parser.rs:123-129 | the empty line gives no tokens |
| ArgsParser.TestOnlySpaces | src/args_parser.rs:131-137 | a line of spaces gives no tokens |
| ArgsParser.TestUnclosedQuote | src/args_parser.rs:139-146 | `echo 'unclosed quote` gives `echo` and `unclosed quote` |
| ArgsParser.TestNestedSingleQuotesIgnored | src/args_parser.rs:148-155 | `echo 'it is 'not' nested'` gives `echo` and `it is not nested` |
| ArgsParser.TestComplexPaths | src/args_parser.rs:157-162 | single quotes inside double quotes are literal |
| ArgsParser.TestBackslashesInDoubleQuotes | src/args_parser.rs:164-180 | the five backslash cases inside double quotes give `a\b`, `a"b`, `a$b`, ``a`b`` and `a\zb` |
| PrefixTrie.Trie.constructor | src/trie.rs:10-15 | a new trie stores no word |
| PrefixTrie.Trie.Insert | src/trie.rs:17-25 | the stored words become the old ones plus `word`; re-inserting a stored word leaves the trie unchanged |
| PrefixTrie.Grow | src/trie.rs:21 | adding an empty child keeps the tree shape and the stored words, and the cursor's path still leads to the cursor |
| PrefixTrie.MarkEndAddsWord | src/trie.rs:24 | marking the node reached by `word` adds exactly `word` to the stored words |
| PrefixTrie.Trie.WithPrefix | src/trie.rs:27-42 | the result holds exactly the stored words that extend a non-empty `word`, each once, none before a prefix of itself; it is empty for the empty word or a word that leaves the tree |
| PrefixTrie.DeadPrefix | src/trie.rs:35 | when a prefix leaves the tree, no stored word extends it |
| PrefixTrie.EndsBelow | src/trie.rs:32-39 | below the node a prefix reaches, the words ending there are exactly the stored words extending it |
| PrefixTrie.Trie.CollectWords | src/trie.rs:44-54 | appends to the accumulator exactly the words below the node, each once, with the node's own word first |
| PrefixTrie.CollectStart | src/trie.rs:45-47 | the node's own word, when it ends one, is the first word collected |
| PrefixTrie.CollectStep | src/trie.rs:49-53 | each child's words extend the collection, which keeps no duplicates and no word before its prefix |
| PrefixTrie.CollectDone | src/trie.rs:49-53 | once every child is visited the collection is exactly the words below the node |
| PrefixTrie.ExampleTrie | src/trie.rs:64-70 | after the four inserts the trie stores exactly those four words |
| PrefixTrie.HiMoExample | src/trie.rs:61-75 | `with_prefix("Hi mo")` gives "Hi mom" and "Hi mother", in either order |
| PrefixTrie.HiMoWords | src/trie.rs:71-74 | any duplicate-free list of exactly the stored words extending "Hi mo" is one of the two orders |
| Utils.LongestCommonPrefix | src/utils.rs:115-142 | the result is `word` followed by the characters all completions agree on, up to the first position where one ends or differs |
| Utils.LcpUnique | src/utils.rs:124-141 | two results meeting that characterisation are equal |
| Utils.LcpPrefixOfAll | src/utils.rs:124-138 | when every completion starts with `word`, the result is a prefix of every completion |
| Utils.StemIsLcp | src/utils.rs:126-135 | a completion that prefixes all the others is the result |
| Utils.LcpSingle | src/utils.rs:124-140 | with one completion the result is that completion |
| Utils.ClearExample | src/utils.rs:256-266 | `clear-` with `clear-fbo`, `clear-fbo-scissor`, `clear-fbo-tex` gives `clear-fbo` |
| Readline.Reader.constructor | src/readline.rs:15-17 | the command trie starts empty |
| Readline.Reader.UpdateTrie | src/readline.rs:19-26 | the trie stores its old words plus every word of the list |
| Readline.Reader.ReadLine | src/readline.rs:31-109 | the returned line is the buffer `Session` gives for the keys up to the first line break; the terminal's raw-mode flag is what it was on entry |
| Readline.CompletionSet | src/readline.rs:60-64 | the list `with_prefix` returns holds each completion of the buffer exactly once |
| Readline.LcpMatches | src/readline.rs:81 | the common prefix computed over a completion list is the one of its set, whatever the list's order |
| Readline.LcpOfPrefix | src/readline.rs:81-91 | the common prefix starts with the buffer and prefixes every completion |
| Readline.ExtensionAgrees | src/utils.rs:124-141 | the shared extension agrees with every completion and stops where they first disagree |
| Readline.AgreeSame | src/utils.rs:126-135 | agreement of a completion list at a position is agreement of its set |
| Readline.TabExtends | src/readline.rs:59-99 | TAB never shortens the buffer: the old buffer is a prefix of the new |
| Readline.TabSingle | src/readline.rs:64-69 | with exactly one completion `c`, TAB types the rest of `c` and a space, so the buffer becomes `c` and a space; the bell latch is unchanged |
| Readline.TabCommonPrefix | src/readline.rs:80-91 | with several completions and no bell, TAB sets the buffer to their common prefix, which prefixes every completion; the bell latches exactly when the buffer did not change |
| Readline.BellLatches | src/readline.rs:35 | once the bell latch is set it stays set for the rest of the line |
| Readline.ListingOnly | src/readline.rs:71-79 | with the bell set and several completions, TAB leaves the editor unchanged |
| Readline.DelUndoesKey | src/readline.rs:52-58 | DEL removes the last key typed |
| Readline.PlainTyping | src/readline.rs:100-104 | keys other than DEL, TAB and line breaks are appended in order |
| Readline.StopsAtLineBreak | src/readline.rs:48-51 | nothing after the first `\n` or `\r` affects the line |
| Redirection.ScanRedirections | src/interpreter.rs:241-260 | the scan loop computes `Scan`: an operator takes the next argument as its file; a trailing operator is a "Syntax error" |
| Redirection.ScanShape | src/interpreter.rs:245-260 | a successful scan keeps every non-operator argument and pairs every operator with one file |
| Redirection.ScanNoOperators | src/interpreter.rs:256-258 | arguments with no operators pass through unchanged, in order, with no redirections |
| Redirection.ScanConcat | src/interpreter.rs:247-260 | scanning two pieces is scanning the first and prepending its result to the second's |
| Redirection.DanglingOperator | src/interpreter.rs:250-252 | an operator as the last argument is a "Syntax error" |
| Redirection.ScanExample | src/interpreter.rs:249-257 | `cmd arg > file` scans to `cmd arg` with one redirection |
| Redirection.Table | src/interpreter.rs:262-285 | every operator but `&>` has a table entry; only `<` reads, from fd 0; the others truncate or append |
| Redirection.ApplyRedirections | src/interpreter.rs:262-285 | the loop applies the redirections left to right, as `Apply` |
| Redirection.ApplyConcat | src/interpreter.rs:262 | applying a list is applying its first part, then the rest |
| Redirection.ApplyKeepsOtherFds | src/interpreter.rs:262-285 | descriptors other than 0, 1 and 2 are never touched |
| Redirection.OnlyBothPanics | src/interpreter.rs:264-278 | a list without `&>` never aborts: failed opens are ignored |
| Redirection.OpenFailure | src/interpreter.rs:264-280 | a redirection whose file cannot be opened changes nothing, except `&>`, which aborts the child |
| Redirection.LastWins | src/interpreter.rs:262-285 | the last redirection to a descriptor decides it |
| Redirection.BothOutputs | src/interpreter.rs:279-282 | `&>` sends fds 1 and 2 to the truncated file and leaves the others |
| ShellCommands.ParseI32 | src/interpreter.rs:23 | a parsed status is within `i32` and the text has a digit |
| ShellCommands.ParseShow | src/interpreter.rs:23 | every `i32` written in decimal parses back to itself |
| ShellCommands.DecimalValue | src/interpreter.rs:23 | a number's decimal digits have that value |
| ShellCommands.ExitStatus | src/interpreter.rs:23 | the status is within `i32`, and 0 when the first argument does not parse |
| ShellCommands.StripDecimal | src/interpreter.rs:23 | digits with their leading zeros removed are how their value is written |
| ShellCommands.ParseCanonical | src/interpreter.rs:23 | any text that parses to `v` is `v` written in decimal, up to a `+` sign, a `-` before zero and leading zeros |
| ShellCommands.ExitWithStatus | src/interpreter.rs:23 | `exit n` exits with `n` for any `i32` |
| ShellCommands.ExitDefault | src/interpreter.rs:23 | `exit` alone exits with 0 |
| ShellCommands.ExitOverflow | src/interpreter.rs:23 | a number beyond `i32` exits with 0 |
| ShellCommands.CdTarget | src/interpreter.rs:53-74 | no argument or `~` gives HOME, or `/root` without it; an absolute argument is used unchanged; every other target starts with `/` |
| ShellCommands.ResolveDir | src/interpreter.rs:53-74 | the resolution loop computes `CdTarget` |
| ShellCommands.NonEmpty | src/interpreter.rs:60 | the kept segments are the non-empty ones |
| ShellCommands.NavigateConcat | src/interpreter.rs:62-70 | walking two paths in turn is walking their concatenation |
| ShellCommands.DownAndUp | src/interpreter.rs:64-69 | entering a directory and then `..` returns to the start |
| ShellCommands.NavigatePlain | src/interpreter.rs:69 | names other than `.` and `..` are appended in order |
| ShellCommands.UpAtRoot | src/interpreter.rs:64-66 | any number of `..` at the root stays at the root |
| ShellCommands.CanonicalSegments | src/interpreter.rs:60 | the segments of a canonical working directory are its names |
| ShellCommands.CdHere | src/interpreter.rs:63 | `cd .` resolves to the working directory |
| ShellCommands.CdDown | src/interpreter.rs:57-73 | a relative path of plain names is appended to the working directory |
| ShellCommands.CdUpAndOver | src/interpreter.rs:57-73 | `/a/b` with `../c` resolves to `/a/c` |
| Execution.SingleRoute | src/interpreter.rs:104-127 | a single stage is a shell command first, then a PATH executable, then a builtin, else not found |
| Execution.StageRoute | src/interpreter.rs:161-177 | a pipeline stage is a PATH executable, then a builtin; shell commands are not looked up |
| Execution.RoutesAgree | src/interpreter.rs:110-177 | outside the shell commands, both orders agree |
| Execution.FirstStop | src/interpreter.rs:141-188 | the first stage that is empty or finds nothing; every stage before it can start |
| Execution.WiringConnects | src/interpreter.rs:145-159 | pipe j is written by stage j alone and read by stage j + 1 alone |
| Execution.WiringEnds | src/interpreter.rs:147-159 | the first stage reads no pipe, the last writes none, and the others have one entry of each |
| Execution.RunChild | src/interpreter.rs:241-307 | the child computes `ChildPlan`: a scan error, an abort on `&>`, a builtin run, or an exec |
| Execution.ChildArgsClean | src/interpreter.rs:241-296 | a builtin or program never sees a redirection operator among its arguments |
| Execution.ChildPlainArgs | src/interpreter.rs:293-304 | a program without operators or NUL bytes is exec'd with its arguments and descriptors as given |
| Execution.ExecCommand | src/interpreter.rs:212-316 | one fork per call; a successful fork is `Ok` with a positive pid that no unreaped child holds, a refused fork is an error |
| Execution.NulPosition | src/interpreter.rs:293 | the position reported for a NUL in the program path is the index of its first NUL |
| Execution.RunInShell | src/interpreter.rs:105-107 | `exit` sets the status from its arguments; `cd` moves to the resolved directory when it exists |
| Execution.RunAndWait | src/interpreter.rs:111-114 | one fork, then a wait for exactly that child when there is one |
| Execution.Cd | src/interpreter.rs:52-86 | the working directory becomes the resolved target when it has no NUL and exists, else it stays |
| Execution.OpenPipes | src/interpreter.rs:135-139 | `n` pipes, all distinct, whose ends were not open before |
| Execution.CloseAll | src/interpreter.rs:190-195 | both ends of every pipe are closed |
| Execution.WaitAll | src/interpreter.rs:197-199 | each pid is waited for, in order; each is an unreaped child when its turn comes |
| Execution.Interpreter.constructor | src/interpreter.rs:20-52 | builtins are `echo`, `type`, `pwd`, `history`; shell commands `exit` and `cd` |
| Execution.Interpreter.GetBuiltins | src/interpreter.rs:91-99 | every builtin and shell command once each, builtins first |
| Execution.Interpreter.RunSingle | src/interpreter.rs:104-127 | `SingleDone`: found exactly when the command routes somewhere. A shell command runs in the shell with no fork: `exit` sets the status, `cd` the directory. An executable or builtin gets one child running `Job(path or name, argv, no pipes)`, waited for when the fork succeeded. A command that is not found changes nothing |
| Execution.Interpreter.StartStage | src/interpreter.rs:141-177 | a stage that can start gets one child running its job with its pipe wiring; any other gets none |
| Execution.Interpreter.StartStages | src/interpreter.rs:141-188 | stops at `FirstStop`, having forked one child per earlier stage with that stage's job, and returns their pids, which all differ and are all unreaped |
| Execution.UnreapedStep | src/interpreter.rs:141-188 | a child forked while the earlier children of the pipeline are all unreaped gets a pid none of them has |
| Execution.Interpreter.RunPipeline | src/interpreter.rs:131-201 | after a pipeline: one pipe fewer than stages; one child per stage before the stop; found only if every stage started, and only then are the children waited for; the children's pids all differ. All pipe ends are closed except after an empty stage |
| Execution.Interpreter.InterpretCommand | src/interpreter.rs:101-202 | one stage leaves exactly what `SingleDone` describes: a shell command run in place (exit status or working directory), or one child forked and waited for, or nothing when not found. Several stages leave what `PipelineDone` describes |
| Execution.LaunchedStep | src/interpreter.rs:141-177 | each started stage adds its child and, when the fork succeeded, its pid |
| Execution.StopsAt | src/interpreter.rs:142-187 | the loop stops at the first stage that cannot start |
| Execution.EachChildWaitedOnce | src/interpreter.rs:141-199 | after a found pipeline (`PipelineDone`), every child it created is waited for exactly once, in the order started |
| Seqs.SplitCount | src/interpreter.rs:102 | splitting at `|` gives one stage more than there are `|` tokens |
| Seqs.JoinSplit | src/interpreter.rs:102 | joining the stages with `|` gives the arguments back |
| Seqs.SplitJoin | src/interpreter.rs:102 | splitting joined `|`-free stages gives the stages back |
| Seqs.SplitAfter | src/interpreter.rs:102 | a `|` after a `|`-free run ends the first stage |
| Kernel.Os.Fork | src/interpreter.rs:214 | one fork is recorded per call; a successful fork returns a positive pid that no child not yet waited for holds, so a reaped child's pid may come back |
| Kernel.ForkUnreaped | src/interpreter.rs:214 | a fork adds its child, if any, to the unreaped children |
| Kernel.WaitUnreaped | src/interpreter.rs:207 | a wait removes one count of its pid from the unreaped children |
| Kernel.Os.WaitPid | src/interpreter.rs:204-210 | a wait on an unreaped child is recorded, and every wait stays on a created child |
| Kernel.Os.MakePipe | src/interpreter.rs:137 | two new, distinct descriptors, open from now on |

## Left out

- System calls: `pipe`, `fork`, `close`, `waitpid`, `chdir`, `open`, `dup2`
  and `execv`. They are the methods of `Kernel.Os`, which records their effect on
  descriptors, pids and the working directory and does not run anything.
- `pipe` failure: the source ignores `pipe`'s return value. `Kernel.Os.MakePipe`
  always succeeds.
- The child's own `dup2`/`close` of its pipe ends (src/interpreter.rs:220-239):
  the model records each child's wiring in its `Job`. `RunChild` starts from the
  child's descriptor table.
- A child continuing the shell's loop after its `exec_command` returns an error
  (src/interpreter.rs:251, 293). `ChildPlan` reports it as `Failed`.
- What the process does after `execv` or the builtin's `process::exit(0)`.
- Redirection.RedirectIo: `open` is the `openable` parameter (the files that
  can be opened with given flags) and `dup2` is an update of the descriptor map.
  Nothing about the operating system's `open` is modelled beyond that.
- Kernel.Os.WaitPid: only a wait on a child not yet waited for is modelled.
  `waitpid` failing with ECHILD on any other pid is left out; the shell only waits
  for pids its own `fork` returned, once each. The child's exit status is not
  modelled (`wait_process`'s result is unused).
- Kernel.Os.Chdir: the working directory becomes the textual argument. The
  kernel's canonicalisation is not modelled: `..` and `.` inside absolute paths,
  `//`, and symlinks. `get_pwd` would read the canonical path back, so after
  `cd /a/b/..` the model's next relative `cd` starts from `/a/b/..`, not `/a`.
  `ShellCommands.CanonicalSegments` and the `cd` lemmas assume a canonical
  working directory.
- Process exit status is not truncated to 8 bits. `ShellCommands.ExitStatus`
  is the `i32` handed to `exit`.
- PATH lookup, environment, working-directory lookup and directory listing
  (`get_executable`, `get_environment`, `get_pwd`, `get_system_binaries`,
  `read_directory`, `open_file`). They become `Os.executables`, `Os.home`,
  `Os.cwd` and `Os.directories`. A failing `get_pwd` (empty string) is not modelled.
- The output of `echo`, `type` and `pwd`, the empty `history` builtin, the
  terminal echo, and the erase, bell and listing output of the line editor. These
  are output only. `ChildPlan` says which builtin runs with which arguments.
- Raw mode (`enable_raw_mode`/`disable_raw_mode`) is the ghost flag
  `Terminal.raw`. Terminal reads are the key sequence passed to `ReadLine`; its
  end is a read returning 0.
- Readline.Reader.ReadLine: the sort of the completions is not modelled. It
  changes only the order of the listing, which is output. `Readline.LcpMatches`
  proves the common prefix does not depend on the order.
- UTF-8 and the byte/character mix in `longest_common_prefix`, the line editor
  and the NUL position `CString::new` reports. Text is a sequence of characters,
  one per byte, as for ASCII input.
- HashMap iteration order. `CollectWords` visits a node's children in an
  unspecified order, and results are stated as sets without duplicates. The
  trie's own test at src/trie.rs:61-75 expects one fixed order and is marked
  `should_panic`. `HiMoExample` proves only that either order may come back.
- Utils.LongestCommonPrefix: does not check that the completions start with
  `word`. Like the source, it compares only from position `|word|` on.
  `LcpPrefixOfAll` adds that hypothesis.
- `main.rs` (the read–parse–interpret loop and the history file) and `error.rs`
  are not part of this model.
- The empty-stage return of a pipeline (src/interpreter.rs:142) leaves every pipe
  open and its earlier children unwaited. The model follows the code:
  `PipelineDone` states exactly that.
