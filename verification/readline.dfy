/**
  The line editor: keystrokes arrive one byte at a time from a terminal in raw
  mode. Printable bytes are echoed and appended, DEL erases, TAB completes from the
  command trie, and a line break ends the line. The terminal is the sequence of
  bytes it delivers (one `char` per byte); the end of that sequence stands for a
  read that returns nothing. What is echoed to the screen is not modelled.
 */
module Readline {
  import opened Seqs
  import opened PrefixTrie
  import Utils

  /** The byte that the backspace key sends. */
  const DEL: char := '\U{7F}'

  /** The state the key loop carries: the bytes typed so far, and whether the bell has rung. */
  datatype Editor = Editor(input: string, bell: bool)

  const Start := Editor([], false)

  /** What `with_prefix` returns for the typed input, as a set: the order is only used for listing. */
  function Completions(words: set<string>, input: string): set<string> {
    set v | v in words && input != [] && IsPrefix(input, v)
  }

  /** All the completions have a character at `pos`, and it is the same character. */
  predicate AgreeAt(cs: set<string>, pos: nat) {
    (forall c :: c in cs ==> pos < |c|) && (forall c, d :: c in cs && d in cs ==> c[pos] == d[pos])
  }

  /** The characters the completions share from position `pos` on; `c0` is any one of them. */
  function Extension(cs: set<string>, c0: string, pos: nat): string
    requires c0 in cs
    decreases |c0| - pos
  {
    if AgreeAt(cs, pos) then [c0[pos]] + Extension(cs, c0, pos + 1) else []
  }

  /** The longest common prefix of the completions, read from the end of `word` on. */
  ghost function LcpOf(word: string, cs: set<string>): string
    requires cs != {}
  {
    var c0 :| c0 in cs;
    word + Extension(cs, c0, |word|)
  }

  /**
    TAB: no completion leaves everything as it is (the bell rings); one completion
    replaces the input by it and a space; with several, once the bell has rung they
    are only listed, and before that the input grows to their common prefix, or
    the bell rings when there is nothing to add.
   */
  ghost function Tab(words: set<string>, e: Editor): Editor {
    var cs := Completions(words, e.input);
    if |cs| == 1 then
      var c :| c in cs;
      e.(input := c + " ")
    else if |cs| > 1 then
      if e.bell then e
      else
        var lcp := LcpOf(e.input, cs);
        if lcp == e.input then e.(bell := true) else e.(input := lcp)
    else e
  }

  /** One keystroke other than a line break. */
  ghost function Step(words: set<string>, e: Editor, key: char): Editor {
    if key == DEL then
      if e.input == [] then e else e.(input := e.input[..|e.input| - 1])
    else if key == '\t' then Tab(words, e)
    else e.(input := e.input + [key])
  }

  predicate EndsLine(key: char) {
    key == '\n' || key == '\r'
  }

  /** The keystrokes up to the first line break, or all of them when there is none. */
  ghost function Run(words: set<string>, e: Editor, keys: string): Editor
    decreases |keys|
  {
    if keys == [] || EndsLine(keys[0]) then e else Run(words, Step(words, e, keys[0]), keys[1..])
  }

  /** The line a session returns. */
  ghost function Session(words: set<string>, keys: string): string {
    Run(words, Start, keys).input
  }

  /** The raw-mode state of the terminal; only its restoration matters here. */
  class Terminal {
    ghost var raw: bool

    constructor (raw: bool)
      ensures this.raw == raw
    {
      this.raw := raw;
    }
  }

  class Reader {
    var commandTree: Trie

    constructor ()
      ensures fresh(commandTree) && commandTree.Valid() && commandTree.Words == {}
    {
      commandTree := new Trie();
    }

    /** Stores every word of `words` in the command trie. */
    method UpdateTrie(words: seq<string>)
      requires commandTree.Valid()
      modifies commandTree
      ensures commandTree.Valid()
      ensures commandTree.Words == old(commandTree.Words) + Elements(words)
    {
      for i := 0 to |words|
        invariant commandTree.Valid()
        invariant commandTree.Words == old(commandTree.Words) + Elements(words[..i])
      {
        commandTree.Insert(words[i]);
        assert Elements(words[..i + 1]) == Elements(words[..i]) + {words[i]} by {
          assert words[..i + 1] == words[..i] + [words[i]];
        }
      }
      assert words[..|words|] == words;
    }

    /**
      Reads keystrokes from `keys` until a line break or the end of input and
      returns the line typed. Raw mode is on while keys are read and the
      terminal's previous mode is back on return.
     */
    method ReadLine(term: Terminal, keys: string) returns (line: string)
      requires commandTree.Valid()
      modifies term
      ensures term.raw == old(term.raw)
      ensures line == Session(commandTree.Words, keys)
    {
      ghost var original := term.raw;
      term.raw := true;
      var bell := false;
      var input: string := [];
      var i := 0;
      while i < |keys|
        invariant i <= |keys| && term.raw
        invariant Run(commandTree.Words, Editor(input, bell), keys[i..]) == Run(commandTree.Words, Start, keys)
      {
        var key := keys[i];
        ghost var before := Editor(input, bell);
        if key == '\n' || key == '\r' {
          break;
        } else if key == DEL {
          if input != [] {
            input := input[..|input| - 1];
          }
        } else if key == '\t' {
          var completions := commandTree.WithPrefix(input);
          CompletionSet(commandTree.Words, input, completions);
          if |completions| == 1 {
            input := input + completions[0][|input|..] + [' '];
            assert input == completions[0] + " ";
          } else if |completions| > 1 {
            if bell {
            } else {
              var lcp := Utils.LongestCommonPrefix(input, completions);
              LcpMatches(input, completions, Completions(commandTree.Words, input), lcp);
              if lcp == input {
                bell := true;
              } else {
                input := input + lcp[|input|..];
                assert input == lcp;
              }
            }
          }
        } else {
          input := input + [key];
        }
        assert Editor(input, bell) == Step(commandTree.Words, before, key);
        assert keys[i..][1..] == keys[i + 1..];
        i := i + 1;
      }
      line := input;
      term.raw := original;
    }
  }

  // ---------------------------------------------------------------------------
  // The completions `with_prefix` returns, and the common prefix of a set.

  /** A result of `with_prefix` lists the completion set, each member once. */
  lemma CompletionSet(words: set<string>, input: string, completions: seq<string>)
    requires forall v :: v in completions <==> input != [] && IsPrefix(input, v) && v in words
    requires NoDup(completions)
    ensures Elements(completions) == Completions(words, input)
    ensures |Completions(words, input)| == |completions|
    ensures |completions| == 1 ==> Completions(words, input) == {completions[0]}
    ensures |completions| > 0 ==> input != [] && forall k :: 0 <= k < |completions| ==> IsPrefix(input, completions[k])
  {
    NoDupCardinality(completions);
    if |completions| > 0 {
      assert completions[0] in completions;
    }
    forall k | 0 <= k < |completions| ensures IsPrefix(input, completions[k]) {
      assert completions[k] in completions;
    }
  }

  /** The shared extension stops exactly where the completions stop agreeing. */
  lemma {:induction false} ExtensionAgrees(cs: set<string>, c0: string, pos: nat)
    requires c0 in cs
    ensures var e := Extension(cs, c0, pos);
      (forall j :: pos <= j < pos + |e| ==> AgreeAt(cs, j) && e[j - pos] == c0[j]) && !AgreeAt(cs, pos + |e|)
    decreases |c0| - pos
  {
    if AgreeAt(cs, pos) {
      ExtensionAgrees(cs, c0, pos + 1);
      var rest := Extension(cs, c0, pos + 1);
      var e := Extension(cs, c0, pos);
      assert e == [c0[pos]] + rest;
      forall j | pos <= j < pos + |e| ensures AgreeAt(cs, j) && e[j - pos] == c0[j] {
        if j > pos {
          assert e[j - pos] == rest[j - (pos + 1)];
        }
      }
    }
  }

  /** Agreement over a list of completions is agreement over the set of them. */
  lemma AgreeSame(completions: seq<string>, cs: set<string>, pos: nat)
    requires |completions| > 0 && Elements(completions) == cs
    ensures Utils.Agree(completions, pos) <==> AgreeAt(cs, pos)
  {
    assert completions[0] in cs;
    if Utils.Agree(completions, pos) {
      forall c, d | c in cs && d in cs ensures pos < |c| && c[pos] == d[pos] {
        var k :| 0 <= k < |completions| && completions[k] == c;
        var m :| 0 <= m < |completions| && completions[m] == d;
      }
    }
    if AgreeAt(cs, pos) {
      forall k | 0 <= k < |completions|
        ensures pos < |completions[k]| && completions[k][pos] == completions[0][pos]
      {
        assert completions[k] in cs;
      }
    }
  }

  /**
    What `longest_common_prefix` computes on the list of completions is the common
    prefix of the set: the order the completions come in does not matter.
   */
  lemma LcpMatches(word: string, completions: seq<string>, cs: set<string>, lcp: string)
    requires |completions| > 0 && cs != {} && Elements(completions) == cs
    requires Utils.IsLcp(word, completions, lcp)
    ensures lcp == LcpOf(word, cs)
  {
    assert completions[0] in cs;
    var c0 :| c0 in cs && LcpOf(word, cs) == word + Extension(cs, c0, |word|);
    var other := LcpOf(word, cs);
    var e := Extension(cs, c0, |word|);
    ExtensionAgrees(cs, c0, |word|);
    assert other[..|word|] == word;
    forall j | |word| <= j < |other| ensures Utils.Agree(completions, j) && other[j] == completions[0][j] {
      AgreeSame(completions, cs, j);
      assert AgreeAt(cs, j);
      assert other[j] == e[j - |word|];
    }
    AgreeSame(completions, cs, |other|);
    Utils.LcpUnique(word, completions, lcp, other);
  }

  /** The common prefix starts with the word and is a prefix of every completion that does. */
  lemma {:induction false} LcpOfPrefix(word: string, cs: set<string>)
    requires cs != {} && forall c :: c in cs ==> IsPrefix(word, c)
    ensures IsPrefix(word, LcpOf(word, cs))
    ensures forall c :: c in cs ==> IsPrefix(LcpOf(word, cs), c)
  {
    var c0 :| c0 in cs && LcpOf(word, cs) == word + Extension(cs, c0, |word|);
    var e := Extension(cs, c0, |word|);
    var lcp := word + e;
    ExtensionAgrees(cs, c0, |word|);
    assert lcp[..|word|] == word;
    forall c | c in cs ensures IsPrefix(lcp, c) {
      if |e| > 0 {
        assert AgreeAt(cs, |lcp| - 1);
      }
      forall j | 0 <= j < |lcp| ensures c[j] == lcp[j] {
        if j < |word| {
          assert c[..|word|][j] == word[j];
        } else {
          assert AgreeAt(cs, j) && lcp[j] == e[j - |word|];
        }
      }
    }
  }

  // ---------------------------------------------------------------------------
  // Properties of the key step.

  /** TAB never shortens the input: the old input is a prefix of the new one. */
  lemma TabExtends(words: set<string>, e: Editor)
    ensures IsPrefix(e.input, Tab(words, e).input)
  {
    var cs := Completions(words, e.input);
    if |cs| == 1 {
      var c :| c in cs && Tab(words, e).input == c + " ";
      assert (c + " ")[..|e.input|] == c[..|e.input|];
    } else if |cs| > 1 && !e.bell {
      LcpOfPrefix(e.input, cs);
    }
  }

  /**
    TAB with exactly one completion `c`: the rest of `c` and a space are typed
    after the input, which leaves `c` and a space; the bell latch is as it was.
   */
  lemma TabSingle(words: set<string>, e: Editor, c: string)
    requires Completions(words, e.input) == {c}
    ensures IsPrefix(e.input, c)
    ensures Tab(words, e) == e.(input := e.input + c[|e.input|..] + " ")
    ensures Tab(words, e).input == c + " " && Tab(words, e).bell == e.bell
  {
    assert c in Completions(words, e.input);
    assert e.input + c[|e.input|..] == c;
  }

  /**
    TAB with several completions before the bell has rung: the input becomes their
    common prefix, a prefix of every completion, and the bell rings exactly when
    that adds nothing.
   */
  lemma TabCommonPrefix(words: set<string>, e: Editor)
    requires |Completions(words, e.input)| > 1 && !e.bell
    ensures var r := Tab(words, e);
      r.input == LcpOf(e.input, Completions(words, e.input)) &&
      (forall c :: c in Completions(words, e.input) ==> IsPrefix(r.input, c)) &&
      (r.bell <==> r.input == e.input)
  {
    LcpOfPrefix(e.input, Completions(words, e.input));
  }

  /** The bell never stops ringing: once set, it stays set to the end of the line. */
  lemma {:induction false} BellLatches(words: set<string>, e: Editor, keys: string)
    requires e.bell
    ensures Run(words, e, keys).bell
    decreases |keys|
  {
    if keys != [] && !EndsLine(keys[0]) {
      BellLatches(words, Step(words, e, keys[0]), keys[1..]);
    }
  }

  /** After the bell, TAB with several completions leaves the input as it is. */
  lemma ListingOnly(words: set<string>, e: Editor)
    requires e.bell && |Completions(words, e.input)| > 1
    ensures Step(words, e, '\t') == e
  {
  }

  /** DEL takes back the byte just typed. */
  lemma DelUndoesKey(words: set<string>, e: Editor, key: char)
    requires key != DEL && key != '\t' && !EndsLine(key)
    ensures Step(words, Step(words, e, key), DEL) == e
  {
    assert (e.input + [key])[..|e.input|] == e.input;
  }

  /** Without TAB, DEL or a line break, the line is the input followed by every key typed. */
  lemma {:induction false} PlainTyping(words: set<string>, e: Editor, keys: string)
    requires forall i :: 0 <= i < |keys| ==> keys[i] != DEL && keys[i] != '\t' && !EndsLine(keys[i])
    ensures Run(words, e, keys) == e.(input := e.input + keys)
    decreases |keys|
  {
    if keys != [] {
      PlainTyping(words, Step(words, e, keys[0]), keys[1..]);
      assert e.input + [keys[0]] + keys[1..] == e.input + keys;
    } else {
      assert e.input + keys == e.input;
    }
  }

  /** The line ends at the first line break: whatever follows is not read. */
  lemma {:induction false} StopsAtLineBreak(words: set<string>, e: Editor, keys: string, key: char, rest: string)
    requires EndsLine(key) && forall i :: 0 <= i < |keys| ==> !EndsLine(keys[i])
    ensures Run(words, e, keys + [key] + rest) == Run(words, e, keys)
    decreases |keys|
  {
    if keys == [] {
      assert (keys + [key] + rest)[0] == key;
    } else {
      assert (keys + [key] + rest)[1..] == keys[1..] + [key] + rest;
      StopsAtLineBreak(words, Step(words, e, keys[0]), keys[1..], key, rest);
    }
  }
}
