/**
  The quoting tokenizer: a four-state scanner that turns one input line into
  argument strings, honouring single quotes, double quotes and backslash escapes.
  `ParseArgs` is the character loop; `Tokenize` is the same scan written as a
  fold of `Step`, and the lemmas below state what the scan promises.
 */
module ArgsParser {
  import opened Seqs

  /** Scanner mode; `Escape(inDouble)` remembers whether the backslash came inside double quotes. */
  datatype State = Normal | InQuotes | InDoubleQuotes | Escape(inDouble: bool)

  /** What the loop carries from one character to the next. */
  datatype Scan = Scan(state: State, arg: string, tokens: seq<string>)

  const Start := Scan(Normal, "", [])

  /** The characters a backslash may escape inside double quotes. */
  predicate Escapable(c: char) {
    c == '\\' || c == '"' || c == '$' || c == '`'
  }

  /** Every newline of the line becomes a space before scanning. */
  function ReplaceNewlines(s: string): (r: string)
    ensures |r| == |s|
    ensures forall i :: 0 <= i < |s| ==> r[i] == (if s[i] == '\n' then ' ' else s[i])
  {
    if s == [] then [] else [if s[0] == '\n' then ' ' else s[0]] + ReplaceNewlines(s[1..])
  }

  /** One character of the scan. */
  function Step(sc: Scan, c: char): Scan {
    match sc.state
    case Normal =>
      if c == '\'' then sc.(state := InQuotes)
      else if c == '"' then sc.(state := InDoubleQuotes)
      else if c == ' ' then (if sc.arg == "" then sc else Scan(Normal, "", sc.tokens + [sc.arg]))
      else if c == '\\' then sc.(state := Escape(false))
      else sc.(arg := sc.arg + [c])
    case InQuotes =>
      if c == '\'' then sc.(state := Normal) else sc.(arg := sc.arg + [c])
    case InDoubleQuotes =>
      if c == '"' then sc.(state := Normal)
      else if c == '\\' then sc.(state := Escape(true))
      else sc.(arg := sc.arg + [c])
    case Escape(quote) =>
      var kept := if !Escapable(c) && quote then "\\" else "";
      Scan(if quote then InDoubleQuotes else Normal, sc.arg + kept + [c], sc.tokens)
  }

  /** The scan of `s` from configuration `sc`. */
  function Run(sc: Scan, s: string): Scan
    decreases |s|
  {
    if s == [] then sc else Run(Step(sc, s[0]), s[1..])
  }

  /** End of input: the token in progress is emitted when non-empty, whatever the state. */
  function Finish(sc: Scan): seq<string> {
    if sc.arg == "" then sc.tokens else sc.tokens + [sc.arg]
  }

  function Tokenize(cmd: string): seq<string> {
    Finish(Run(Start, ReplaceNewlines(cmd)))
  }

  /** The tokenizer's loop over the characters of the line. */
  method ParseArgs(cmd: string) returns (tokens: seq<string>)
    ensures tokens == Tokenize(cmd)
    ensures forall t :: t in tokens ==> t != ""
  {
    tokens := [];
    var arg := "";
    var state := Normal;
    var line := ReplaceNewlines(cmd);
    for i := 0 to |line|
      invariant Finish(Run(Scan(state, arg, tokens), line[i..])) == Tokenize(cmd)
      invariant forall t :: t in tokens ==> t != ""
    {
      var ch := line[i];
      ghost var before := Scan(state, arg, tokens);
      assert line[i..] == [ch] + line[i + 1..];
      match state {
        case Normal =>
          if ch == '\'' {
            state := InQuotes;
          } else if ch == '"' {
            state := InDoubleQuotes;
          } else if ch == ' ' {
            if arg != "" {
              tokens := tokens + [arg];
              arg := "";
            }
          } else if ch == '\\' {
            state := Escape(false);
          } else {
            arg := arg + [ch];
          }
        case InQuotes =>
          if ch == '\'' {
            state := Normal;
          } else {
            arg := arg + [ch];
          }
        case InDoubleQuotes =>
          if ch == '"' {
            state := Normal;
          } else if ch == '\\' {
            state := Escape(true);
          } else {
            arg := arg + [ch];
          }
        case Escape(quote) =>
          state := if quote then InDoubleQuotes else Normal;
          if !Escapable(ch) && quote {
            arg := arg + "\\";
          }
          arg := arg + [ch];
      }
      assert Scan(state, arg, tokens) == Step(before, ch);
    }
    if arg != "" {
      tokens := tokens + [arg];
    }
  }

  // ---------------------------------------------------------------------------
  // Tokens are never empty; blank input gives no tokens.

  lemma {:induction false} RunKeepsTokensNonEmpty(sc: Scan, s: string)
    requires forall t :: t in sc.tokens ==> t != ""
    ensures forall t :: t in Run(sc, s).tokens ==> t != ""
    decreases |s|
  {
    if s != [] {
      RunKeepsTokensNonEmpty(Step(sc, s[0]), s[1..]);
    }
  }

  lemma NoEmptyTokens(cmd: string)
    ensures forall t :: t in Tokenize(cmd) ==> t != ""
  {
    RunKeepsTokensNonEmpty(Start, ReplaceNewlines(cmd));
  }

  lemma {:induction false} BlankRun(s: string, toks: seq<string>)
    requires forall i :: 0 <= i < |s| ==> s[i] == ' '
    ensures Run(Scan(Normal, "", toks), s) == Scan(Normal, "", toks)
    decreases |s|
  {
    if s != [] {
      BlankRun(s[1..], toks);
    }
  }

  /** Empty input, or input made only of spaces and newlines, yields no token. */
  lemma BlankInput(cmd: string)
    requires forall i :: 0 <= i < |cmd| ==> cmd[i] == ' ' || cmd[i] == '\n'
    ensures Tokenize(cmd) == []
  {
    BlankRun(ReplaceNewlines(cmd), []);
  }

  /** A newline anywhere in the line acts exactly as a space. */
  lemma NewlineActsAsSpace(a: string, b: string)
    ensures Tokenize(a + "\n" + b) == Tokenize(a + " " + b)
  {
    var x, y := a + "\n" + b, a + " " + b;
    assert |x| == |y|;
    forall i | 0 <= i < |x| ensures ReplaceNewlines(x)[i] == ReplaceNewlines(y)[i] {
      if i < |a| {
        assert x[i] == a[i] == y[i];
      } else if i > |a| {
        assert x[i] == b[i - |a| - 1] == y[i];
      }
    }
    assert ReplaceNewlines(x) == ReplaceNewlines(y);
  }

  // ---------------------------------------------------------------------------
  // Input without quotes, backslashes or newlines: the reference space split.

  /** No character that the scanner treats specially, apart from the space. */
  predicate Plain(s: string) {
    forall c :: c in s ==> c != '\'' && c != '"' && c != '\\' && c != '\n'
  }

  /** Length of the leading run of non-space characters. */
  function WordLen(s: string): (n: nat)
    ensures n <= |s|
    ensures forall i :: 0 <= i < n ==> s[i] != ' '
    ensures n < |s| ==> s[n] == ' '
  {
    if s == [] || s[0] == ' ' then 0 else 1 + WordLen(s[1..])
  }

  /** Reference: `s` split at spaces, empty pieces dropped. */
  function Words(s: string): (ws: seq<string>)
    ensures forall w :: w in ws ==> w != "" && ' ' !in w
    decreases |s|
  {
    if s == [] then []
    else if s[0] == ' ' then Words(s[1..])
    else
      var n := WordLen(s);
      assert s[0] != ' ';
      [s[..n]] + Words(s[n..])
  }

  lemma {:induction false} WordLenOfWord(w: string, s: string)
    requires ' ' !in w
    requires s == [] || s[0] == ' '
    ensures WordLen(w + s) == |w|
  {
    if w != [] {
      assert (w + s)[1..] == w[1..] + s;
      WordLenOfWord(w[1..], s);
    } else {
      assert w + s == s;
    }
  }

  /** A space-free word ended by a space or the end of input is one word. */
  lemma WordsLead(w: string, s: string)
    requires w != "" && ' ' !in w
    requires s == [] || s[0] == ' '
    ensures Words(w + s) == [w] + Words(s)
  {
    WordLenOfWord(w, s);
    assert (w + s)[..|w|] == w;
    assert (w + s)[|w|..] == s;
  }

  lemma PlainSlice(s: string, i: nat, j: nat)
    requires Plain(s) && i <= j <= |s|
    ensures Plain(s[i..j])
  {
    forall x | x in s[i..j] ensures x in s {
      var k :| i <= k < j && s[k] == x;
    }
  }

  lemma {:induction false} PlainRun(arg: string, toks: seq<string>, s: string)
    requires Plain(s) && ' ' !in arg
    ensures Finish(Run(Scan(Normal, arg, toks), s)) == toks + Words(arg + s)
    decreases |s|, 1
  {
    if s == [] {
      assert arg + s == arg;
      if arg != "" {
        WordsLead(arg, []);
        assert arg + [] == arg;
      }
    } else if s[0] == ' ' {
      PlainRunSpace(arg, toks, s);
    } else {
      var c := s[0];
      assert c in s;
      PlainSlice(s, 1, |s|);
      assert s[1..|s|] == s[1..];
      var next := Scan(Normal, arg + [c], toks);
      assert Step(Scan(Normal, arg, toks), c) == next;
      assert Run(Scan(Normal, arg, toks), s) == Run(next, s[1..]);
      PlainRun(arg + [c], toks, s[1..]);
      assert arg + [c] + s[1..] == arg + s;
    }
  }

  /** The space case of `PlainRun`: the word in progress, if any, is emitted. */
  lemma {:induction false} PlainRunSpace(arg: string, toks: seq<string>, s: string)
    requires Plain(s) && ' ' !in arg && s != [] && s[0] == ' '
    ensures Finish(Run(Scan(Normal, arg, toks), s)) == toks + Words(arg + s)
    decreases |s|, 0
  {
    PlainSlice(s, 1, |s|);
    assert s[1..|s|] == s[1..];
    var next := if arg == "" then Scan(Normal, "", toks) else Scan(Normal, "", toks + [arg]);
    assert Step(Scan(Normal, arg, toks), ' ') == next;
    assert Run(Scan(Normal, arg, toks), s) == Run(next, s[1..]);
    PlainRun("", next.tokens, s[1..]);
    assert "" + s[1..] == s[1..];
    assert Words(s) == Words(s[1..]);
    if arg == "" {
      assert arg + s == s;
    } else {
      WordsLead(arg, s);
    }
  }


  /** With no quotes, backslashes or newlines, tokenizing is the space split without empty pieces. */
  lemma PlainTokenize(s: string)
    requires Plain(s)
    ensures Tokenize(s) == Words(s)
  {
    assert ReplaceNewlines(s) == s by {
      forall i | 0 <= i < |s| ensures s[i] != '\n' {
        assert s[i] in s;
      }
    }
    PlainRun("", [], s);
    assert "" + s == s;
  }

  lemma {:induction false} WordsJoin(ws: seq<string>)
    requires forall w :: w in ws ==> w != "" && ' ' !in w
    ensures Words(Join(ws, ' ')) == ws
  {
    if |ws| == 1 {
      assert ws[0] in ws;
      WordsLead(ws[0], []);
      assert ws[0] + [] == ws[0];
    } else if |ws| > 1 {
      var rest := Join(ws[1..], ' ');
      assert ws[0] in ws;
      assert forall w :: w in ws[1..] ==> w in ws;
      WordsJoin(ws[1..]);
      WordsLead(ws[0], [' '] + rest);
      assert ws[0] + [' '] + rest == ws[0] + ([' '] + rest);
      assert ([' '] + rest)[1..] == rest;
      assert [ws[0]] + ws[1..] == ws;
    }
  }

  lemma {:induction false} PlainJoin(ws: seq<string>)
    requires forall w :: w in ws ==> Plain(w)
    ensures Plain(Join(ws, ' '))
  {
    if |ws| > 1 {
      PlainJoin(ws[1..]);
      assert ws[0] in ws;
    } else if |ws| == 1 {
      assert ws[0] in ws;
    }
  }

  lemma {:induction false} WordsArePlain(s: string)
    requires Plain(s)
    ensures forall w :: w in Words(s) ==> Plain(w)
    decreases |s|
  {
    if s != [] {
      var n := if s[0] == ' ' then 1 else WordLen(s);
      assert Plain(s[n..]) by {
        forall x | x in s[n..] ensures x in s { }
      }
      assert Plain(s[..n]) by {
        forall x | x in s[..n] ensures x in s { }
      }
      WordsArePlain(s[n..]);
      if s[0] == ' ' {
        assert s[n..] == s[1..];
      }
    }
  }

  /** Re-tokenizing the tokens of a plain line, joined by single spaces, gives the same tokens. */
  lemma ReparseJoined(s: string)
    requires Plain(s)
    ensures Tokenize(Join(Tokenize(s), ' ')) == Tokenize(s)
  {
    PlainTokenize(s);
    WordsArePlain(s);
    PlainJoin(Words(s));
    PlainTokenize(Join(Words(s), ' '));
    WordsJoin(Words(s));
  }

  // ---------------------------------------------------------------------------
  // Quotes and escapes.

  lemma {:induction false} QuotedRun(arg: string, toks: seq<string>, s: string, rest: string)
    requires '\'' !in s
    ensures Run(Scan(InQuotes, arg, toks), s + rest) == Run(Scan(InQuotes, arg + s, toks), rest)
    decreases |s|
  {
    if s == [] {
      assert s + rest == rest && arg + s == arg;
    } else {
      assert (s + rest)[0] == s[0] && (s + rest)[1..] == s[1..] + rest;
      QuotedRun(arg + [s[0]], toks, s[1..], rest);
      assert arg + [s[0]] + s[1..] == arg + s;
    }
  }

  /**
    Between single quotes every character except the quote is literal, and the
    quoted text joins the token in progress and whatever follows it.
   */
  lemma SingleQuoted(arg: string, toks: seq<string>, s: string, rest: string)
    requires '\'' !in s
    ensures Run(Scan(Normal, arg, toks), "'" + s + "'" + rest) == Run(Scan(Normal, arg + s, toks), rest)
  {
    var line := "'" + s + "'" + rest;
    assert line[1..] == s + ("'" + rest);
    QuotedRun(arg, toks, s, "'" + rest);
    assert ("'" + rest)[1..] == rest;
  }

  lemma {:induction false} DoubleQuotedRun(arg: string, toks: seq<string>, s: string, rest: string)
    requires '"' !in s && '\\' !in s
    ensures Run(Scan(InDoubleQuotes, arg, toks), s + rest) == Run(Scan(InDoubleQuotes, arg + s, toks), rest)
    decreases |s|
  {
    if s == [] {
      assert s + rest == rest && arg + s == arg;
    } else {
      assert (s + rest)[0] == s[0] && (s + rest)[1..] == s[1..] + rest;
      DoubleQuotedRun(arg + [s[0]], toks, s[1..], rest);
      assert arg + [s[0]] + s[1..] == arg + s;
    }
  }

  /** Between double quotes, single quotes and spaces are literal. */
  lemma DoubleQuoted(arg: string, toks: seq<string>, s: string, rest: string)
    requires '"' !in s && '\\' !in s
    ensures Run(Scan(Normal, arg, toks), "\"" + s + "\"" + rest) == Run(Scan(Normal, arg + s, toks), rest)
  {
    var line := "\"" + s + "\"" + rest;
    assert line[1..] == s + ("\"" + rest);
    DoubleQuotedRun(arg, toks, s, "\"" + rest);
    assert ("\"" + rest)[1..] == rest;
  }

  /** Outside quotes a backslash is dropped and the next character is taken literally. */
  lemma UnquotedEscape(arg: string, toks: seq<string>, c: char, rest: string)
    ensures Run(Scan(Normal, arg, toks), ['\\', c] + rest) == Run(Scan(Normal, arg + [c], toks), rest)
  {
    assert (['\\', c] + rest)[1..] == [c] + rest;
    assert ([c] + rest)[1..] == rest;
    assert Run(Scan(Normal, arg, toks), ['\\', c] + rest) == Run(Scan(Escape(false), arg, toks), [c] + rest);
    assert arg + "" + [c] == arg + [c];
  }

  /**
    Inside double quotes a backslash is dropped only before a backslash, a double
    quote, a dollar or a backtick; before any other character it is kept. Either
    way the scan stays inside the double quotes.
   */
  lemma QuotedEscape(arg: string, toks: seq<string>, c: char, rest: string)
    ensures Run(Scan(InDoubleQuotes, arg, toks), ['\\', c] + rest)
         == Run(Scan(InDoubleQuotes, arg + (if Escapable(c) then [c] else ['\\', c]), toks), rest)
  {
    assert (['\\', c] + rest)[1..] == [c] + rest;
    assert ([c] + rest)[1..] == rest;
    assert Run(Scan(InDoubleQuotes, arg, toks), ['\\', c] + rest) == Run(Scan(Escape(true), arg, toks), [c] + rest);
    var kept := if Escapable(c) then "" else "\\";
    assert arg + kept + [c] == arg + (if Escapable(c) then [c] else ['\\', c]);
  }

  /** Input that ends inside single quotes still emits the token in progress. */
  lemma UnterminatedQuote(arg: string, toks: seq<string>, s: string)
    requires '\'' !in s && arg + s != ""
    ensures Finish(Run(Scan(InQuotes, arg, toks), s)) == toks + [arg + s]
  {
    QuotedRun(arg, toks, s, "");
    assert s + "" == s;
  }
  // ---------------------------------------------------------------------------
  // Composition, and the test vectors of the tokenizer.

  /** Scanning `a + b` is scanning `a` and then `b`. */
  lemma {:induction false} RunConcat(sc: Scan, a: string, b: string)
    ensures Run(sc, a + b) == Run(Run(sc, a), b)
    decreases |a|
  {
    if a == [] {
      assert a + b == b;
    } else {
      assert (a + b)[0] == a[0] && (a + b)[1..] == a[1..] + b;
      RunConcat(Step(sc, a[0]), a[1..], b);
    }
  }

  /** A character that is appended as-is outside quotes. */
  predicate Literal(c: char) {
    c != ' ' && c != '\'' && c != '"' && c != '\\'
  }

  /** Outside quotes, every character other than space, quote and backslash joins the token; tab included. */
  lemma {:induction false} WordRun(arg: string, toks: seq<string>, w: string)
    requires forall i :: 0 <= i < |w| ==> Literal(w[i])
    ensures Run(Scan(Normal, arg, toks), w) == Scan(Normal, arg + w, toks)
    decreases |w|
  {
    if w == [] {
      assert arg + w == arg;
    } else {
      WordRun(arg + [w[0]], toks, w[1..]);
      assert arg + [w[0]] + w[1..] == arg + w;
    }
  }

  /** An unquoted space ends a non-empty token. */
  lemma SpaceEndsToken(arg: string, toks: seq<string>, rest: string)
    requires arg != ""
    ensures Run(Scan(Normal, arg, toks), " " + rest) == Run(Scan(Normal, "", toks + [arg]), rest)
  {
    assert (" " + rest)[0] == ' ' && (" " + rest)[1..] == rest;
  }

  lemma NoNewlines(s: string)
    requires forall i :: 0 <= i < |s| ==> s[i] != '\n'
    ensures ReplaceNewlines(s) == s
  {
  }

  /** An unquoted word followed by a space becomes one token. */
  lemma WordToken(toks: seq<string>, w: string, rest: string)
    requires w != "" && forall i :: 0 <= i < |w| ==> Literal(w[i])
    ensures Run(Scan(Normal, "", toks), w + " " + rest) == Run(Scan(Normal, "", toks + [w]), rest)
  {
    RunConcat(Scan(Normal, "", toks), w, " " + rest);
    assert w + " " + rest == w + (" " + rest);
    WordRun("", toks, w);
    assert "" + w == w;
    SpaceEndsToken(w, toks, rest);
  }

  /** An unquoted word at the end of the line is the last token. */
  lemma LastWord(toks: seq<string>, w: string)
    requires w != "" && forall i :: 0 <= i < |w| ==> Literal(w[i])
    ensures Finish(Run(Scan(Normal, "", toks), w)) == toks + [w]
  {
    WordRun("", toks, w);
    assert "" + w == w;
  }

  /** A non-empty word of characters that are taken literally outside quotes. */
  predicate Bare(w: string) {
    w != "" && forall i :: 0 <= i < |w| ==> Literal(w[i])
  }

  /** Text that may sit between single quotes. */
  predicate SingleQuotable(q: string) {
    q != "" && '\'' !in q
  }

  /** Three bare words separated by single spaces are three tokens. */
  lemma ThreeWords(a: string, b: string, c: string)
    requires Bare(a) && Bare(b) && Bare(c)
    ensures Finish(Run(Start, a + " " + (b + " " + c))) == [a, b, c]
  {
    WordToken([], a, b + " " + c);
    WordToken([a], b, c);
    LastWord([a, b], c);
    assert [] + [a] == [a];
    assert [a] + [b] == [a, b];
    assert Run(Start, a + " " + (b + " " + c)) == Run(Scan(Normal, "", [a]), b + " " + c);
  }

  /** A run of spaces, possibly empty. */
  predicate Spaces(s: string) {
    forall i :: 0 <= i < |s| ==> s[i] == ' '
  }

  /** Leading spaces are skipped, then a word followed by a space becomes a token. */
  lemma SpacesThenWord(toks: seq<string>, sp: string, w: string, rest: string)
    requires Bare(w) && Spaces(sp)
    ensures Run(Scan(Normal, "", toks), sp + (w + " " + rest)) == Run(Scan(Normal, "", toks + [w]), rest)
  {
    RunConcat(Scan(Normal, "", toks), sp, w + " " + rest);
    BlankRun(sp, toks);
    WordToken(toks, w, rest);
  }

  /** Runs of spaces around and between words produce no empty tokens. */
  lemma SpacedWords(sp0: string, a: string, sp1: string, b: string, sp2: string, c: string)
    requires Bare(a) && Bare(b) && Bare(c)
    requires Spaces(sp0) && Spaces(sp1) && Spaces(sp2)
    ensures Finish(Run(Start, sp0 + (a + " " + (sp1 + (b + " " + (sp2 + (c + " " + "")))))))
         == [a, b, c]
  {
    var r2 := sp2 + (c + " " + "");
    var r1 := sp1 + (b + " " + r2);
    var s0, s1, s2 := Scan(Normal, "", []), Scan(Normal, "", [a]), Scan(Normal, "", [a, b]);
    SpacesThenWord([], sp0, a, r1);
    assert [] + [a] == [a];
    assert Run(s0, sp0 + (a + " " + r1)) == Run(s1, r1);
    SpacesThenWord([a], sp1, b, r2);
    assert [a] + [b] == [a, b];
    assert Run(s1, r1) == Run(s2, r2);
    SpacesThenWord([a, b], sp2, c, "");
    assert [a, b] + [c] == [a, b, c];
    assert Run(s2, r2) == Scan(Normal, "", [a, b, c]);
  }

  /** A single-quoted argument between two words is one token, spaces included. */
  lemma QuotedBetween(a: string, q: string, c: string)
    requires Bare(a) && SingleQuotable(q) && Bare(c)
    ensures Finish(Run(Start, a + " " + ("'" + q + "'" + (" " + c)))) == [a, q, c]
  {
    WordToken([], a, "'" + q + "'" + (" " + c));
    assert [] + [a] == [a];
    SingleQuoted("", [a], q, " " + c);
    assert "" + q == q;
    SpaceEndsToken(q, [a], c);
    LastWord([a, q], c);
    assert [a] + [q] == [a, q];
    assert Run(Start, a + " " + ("'" + q + "'" + (" " + c))) == Run(Scan(Normal, "", [a, q]), c);
  }

  /** A line that is one single-quoted argument is that argument. */
  lemma QuotedAlone(q: string)
    requires SingleQuotable(q)
    ensures Finish(Run(Start, "'" + q + "'" + "")) == [q]
  {
    SingleQuoted("", [], q, "");
    assert "" + q == q;
    assert Run(Start, "'" + q + "'" + "") == Scan(Normal, q, []);
  }

  /** A single quote that is never closed runs to the end of the line. */
  lemma QuoteToEnd(a: string, q: string)
    requires Bare(a) && SingleQuotable(q)
    ensures Finish(Run(Start, a + " " + ("'" + q))) == [a, q]
  {
    WordToken([], a, "'" + q);
    assert [] + [a] == [a];
    assert ("'" + q)[0] == '\'' && ("'" + q)[1..] == q;
    assert Run(Scan(Normal, "", [a]), "'" + q) == Run(Scan(InQuotes, "", [a]), q);
    UnterminatedQuote("", [a], q);
    assert "" + q == q;
  }

  /** Quoted pieces and bare text with no space between them make one token. */
  lemma AdjacentQuotes(a: string, q1: string, w: string, q2: string)
    requires Bare(a) && SingleQuotable(q1) && Bare(w) && SingleQuotable(q2)
    ensures Finish(Run(Start, a + " " + ("'" + q1 + "'" + (w + ("'" + q2 + "'" + "")))))
         == [a, q1 + w + q2]
  {
    var r2 := "'" + q2 + "'" + "";
    WordToken([], a, "'" + q1 + "'" + (w + r2));
    assert [] + [a] == [a];
    SingleQuoted("", [a], q1, w + r2);
    assert "" + q1 == q1;
    RunConcat(Scan(Normal, q1, [a]), w, r2);
    WordRun(q1, [a], w);
    SingleQuoted(q1 + w, [a], q2, "");
    assert Run(Scan(Normal, "", [a]), "'" + q1 + "'" + (w + r2)) == Run(Scan(Normal, q1, [a]), w + r2);
    assert Run(Scan(Normal, q1, [a]), w + r2) == Scan(Normal, q1 + w + q2, [a]);
  }

  /** Inside double quotes, single quotes and spaces are kept as they are. */
  lemma DoubleQuotedLast(a: string, q: string)
    requires Bare(a) && q != "" && '"' !in q && '\\' !in q
    ensures Finish(Run(Start, a + " " + ("\"" + q + "\"" + ""))) == [a, q]
  {
    WordToken([], a, "\"" + q + "\"" + "");
    assert [] + [a] == [a];
    DoubleQuoted("", [a], q, "");
    assert "" + q == q;
    assert Run(Scan(Normal, "", [a]), "\"" + q + "\"" + "") == Scan(Normal, q, [a]);
  }

  /** Without line breaks, tokenizing is scanning the line as it is. */
  lemma TokenizeNoNewlines(line: string)
    requires '\n' !in line
    ensures Tokenize(line) == Finish(Run(Start, line))
  {
    NoNewlines(line);
  }

  // The tokenizer's own test vectors. Each takes the pieces of its line as
  // parameters fixed by its precondition.

  lemma TestBasic(a: string, b: string, c: string)
    requires a == "echo" && b == "hello" && c == "world"
    ensures Tokenize(a + " " + b + " " + c) == [a, b, c]
  {
    var line := a + " " + b + " " + c;
    assert line == a + " " + (b + " " + c);
    ThreeWords(a, b, c);
    TokenizeNoNewlines(line);
  }

  lemma TestSingleQuotes(a: string, q: string, c: string)
    requires a == "echo" && q == "hello world" && c == "foo"
    ensures Tokenize(a + " '" + q + "' " + c) == [a, q, c]
  {
    var line := a + " '" + q + "' " + c;
    assert line == a + " " + ("'" + q + "'" + (" " + c));
    QuotedBetween(a, q, c);
    TokenizeNoNewlines(line);
  }

  lemma TestOnlySingleQuoted(q: string)
    requires q == "just one quoted arg"
    ensures Tokenize("'" + q + "'") == [q]
  {
    var line := "'" + q + "'";
    assert line == "'" + q + "'" + "";
    QuotedAlone(q);
    TokenizeNoNewlines(line);
  }

  lemma TestMixedQuotedAndUnquoted(a: string, q: string, c: string)
    requires a == "cmd" && q == "arg with space" && c == "another"
    ensures Tokenize(a + " '" + q + "' " + c) == [a, q, c]
  {
    var line := a + " '" + q + "' " + c;
    assert line == a + " " + ("'" + q + "'" + (" " + c));
    QuotedBetween(a, q, c);
    TokenizeNoNewlines(line);
  }

  lemma TestMultipleSpaces(a: string, b: string, c: string)
    requires a == "echo" && b == "foo" && c == "bar"
    ensures Tokenize("   " + a + "    " + b + "   " + c + " ") == [a, b, c]
  {
    var line := "   " + a + "    " + b + "   " + c + " ";
    var sp0, sp1, sp2 := "   ", "   ", "  ";
    assert line == sp0 + (a + " " + (sp1 + (b + " " + (sp2 + (c + " " + "")))));
    SpacedWords(sp0, a, sp1, b, sp2, c);
    TokenizeNoNewlines(line);
  }

  lemma TestEmptyInput(line: string)
    requires line == ""
    ensures Tokenize(line) == []
  {
    BlankInput(line);
  }

  lemma TestOnlySpaces(line: string)
    requires line == "     "
    ensures Tokenize(line) == []
  {
    BlankInput(line);
  }

  lemma TestUnclosedQuote(a: string, q: string)
    requires a == "echo" && q == "unclosed quote"
    ensures Tokenize(a + " '" + q) == [a, q]
  {
    var line := a + " '" + q;
    assert line == a + " " + ("'" + q);
    QuoteToEnd(a, q);
    TokenizeNoNewlines(line);
  }

  lemma TestNestedSingleQuotesIgnored(a: string, q1: string, w: string, q2: string)
    requires a == "echo" && q1 == "it is " && w == "not" && q2 == " nested"
    ensures Tokenize(a + " '" + q1 + "'" + w + "'" + q2 + "'") == [a, "it is not nested"]
  {
    var line := a + " '" + q1 + "'" + w + "'" + q2 + "'";
    assert line == a + " " + ("'" + q1 + "'" + (w + ("'" + q2 + "'" + "")));
    AdjacentQuotes(a, q1, w, q2);
    assert q1 + w + q2 == "it is not nested";
    TokenizeNoNewlines(line);
  }

  lemma TestComplexPaths(a: string, q: string)
    requires a == "cat" && q == "/tmp/'file name' with spaces"
    ensures Tokenize(a + " \"" + q + "\"") == [a, q]
  {
    var line := a + " \"" + q + "\"";
    assert line == a + " " + ("\"" + q + "\"" + "");
    DoubleQuotedLast(a, q);
    TokenizeNoNewlines(line);
  }

  /** The double-quoted argument `"a\xb"` of the backslash test. */
  function Esc(x: char): string {
    ['"', 'a', '\\', x, 'b', '"']
  }

  /** What `Esc(x)` scans to: the backslash survives only before an ordinary character. */
  function Unesc(x: char): (r: string)
    ensures |r| == (if Escapable(x) then 3 else 4) && r[|r| - 1] == 'b' && r[|r| - 2] == x
  {
    if Escapable(x) then ['a', x, 'b'] else ['a', '\\', x, 'b']
  }

  lemma EscapedArg(toks: seq<string>, x: char, rest: string)
    ensures Run(Scan(Normal, "", toks), Esc(x) + rest) == Run(Scan(Normal, Unesc(x), toks), rest)
  {
    var line := Esc(x) + rest;
    assert line[1..] == "a" + (['\\', x] + (['b', '"'] + rest));
    DoubleQuotedRun("", toks, "a", ['\\', x] + (['b', '"'] + rest));
    QuotedEscape("" + "a", toks, x, ['b', '"'] + rest);
    var mid := "" + "a" + (if Escapable(x) then [x] else ['\\', x]);
    assert ['b', '"'] + rest == "b" + ("\"" + rest);
    DoubleQuotedRun(mid, toks, "b", "\"" + rest);
    assert ("\"" + rest)[1..] == rest;
    assert mid + "b" == Unesc(x);
  }

  /** Five double-quoted arguments, each with a backslash before a different character. */
  lemma FiveEscapes(a: string, x1: char, x2: char, x3: char, x4: char, x5: char)
    requires Bare(a)
    ensures Finish(Run(Start, a + " " + (Esc(x1) + (" " + (Esc(x2) + (" " + (Esc(x3) + (" " + (Esc(x4) + (" " + (Esc(x5) + "")))))))))))
         == [a, Unesc(x1), Unesc(x2), Unesc(x3), Unesc(x4), Unesc(x5)]
  {
    var r5 := Esc(x5) + "";
    var r4 := Esc(x4) + (" " + r5);
    var r3 := Esc(x3) + (" " + r4);
    var r2 := Esc(x2) + (" " + r3);
    var r1 := Esc(x1) + (" " + r2);
    var t1 := [a];
    var t2 := t1 + [Unesc(x1)];
    var t3 := t2 + [Unesc(x2)];
    var t4 := t3 + [Unesc(x3)];
    var t5 := t4 + [Unesc(x4)];
    WordToken([], a, r1);
    assert [] + [a] == t1;
    EscapedArg(t1, x1, " " + r2);
    SpaceEndsToken(Unesc(x1), t1, r2);
    EscapedArg(t2, x2, " " + r3);
    SpaceEndsToken(Unesc(x2), t2, r3);
    EscapedArg(t3, x3, " " + r4);
    SpaceEndsToken(Unesc(x3), t3, r4);
    EscapedArg(t4, x4, " " + r5);
    SpaceEndsToken(Unesc(x4), t4, r5);
    EscapedArg(t5, x5, "");
    assert Run(Start, a + " " + r1) == Run(Scan(Normal, "", t2), r2);
    assert Run(Scan(Normal, "", t2), r2) == Run(Scan(Normal, "", t4), r4);
    assert Run(Scan(Normal, "", t4), r4) == Scan(Normal, Unesc(x5), t5);
    assert t5 + [Unesc(x5)] == [a, Unesc(x1), Unesc(x2), Unesc(x3), Unesc(x4), Unesc(x5)];
  }

  lemma TestBackslashesInDoubleQuotes(a: string)
    requires a == "echo"
    ensures Tokenize(a + " " + Esc('\\') + " " + Esc('"') + " " + Esc('$') + " " + Esc('`') + " " + Esc('z'))
         == [a, "a\\b", "a\"b", "a$b", "a`b", "a\\zb"]
  {
    var line := a + " " + Esc('\\') + " " + Esc('"') + " " + Esc('$') + " " + Esc('`') + " " + Esc('z');
    assert line == a + " " + (Esc('\\') + (" " + (Esc('"') + (" " + (Esc('$') + (" " + (Esc('`') + (" " + (Esc('z') + "")))))))));
    FiveEscapes(a, '\\', '"', '$', '`', 'z');
    assert [Unesc('\\'), Unesc('"'), Unesc('$'), Unesc('`'), Unesc('z')] == ["a\\b", "a\"b", "a$b", "a`b", "a\\zb"];
    TokenizeNoNewlines(line);
  }
}
