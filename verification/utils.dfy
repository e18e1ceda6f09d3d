/**
  `longest_common_prefix`: the completion line editor extends the typed word by
  the characters every completion shares after it. nyash's `longest_common_prefix`
  advances one character iterator per string in lock-step, so one position `i`
  stands for all of them.
 */
module Utils {
  import opened Seqs
  import opened Wrappers

  /** Every completion has a character at `pos`, and all of them equal the first one's. */
  predicate Agree(completions: seq<string>, pos: nat)
    requires |completions| > 0
  {
    pos < |completions[0]| &&
    forall k :: 0 <= k < |completions| ==> pos < |completions[k]| && completions[k][pos] == completions[0][pos]
  }

  /**
    `lcp` is `word` followed by the characters the completions agree on from
    position `|word|` on, up to the first position where one of them ends or
    differs from the first completion.
   */
  predicate IsLcp(word: string, completions: seq<string>, lcp: string)
    requires |completions| > 0
  {
    |word| <= |lcp| && lcp[..|word|] == word &&
    (forall j :: |word| <= j < |lcp| ==> Agree(completions, j) && lcp[j] == completions[0][j]) &&
    !Agree(completions, |lcp|)
  }

  /**
    `longest_common_prefix` panics unless `word` is non-empty, there is at least one
    completion, and every completion is at least as long as `word`.
   */
  method LongestCommonPrefix(word: string, completions: seq<string>) returns (lcp: string)
    requires |word| > 0 && |completions| > 0
    requires forall k :: 0 <= k < |completions| ==> |completions[k]| >= |word|
    ensures IsLcp(word, completions, lcp)
  {
    var i := |word|;
    lcp := word;
    while true
      invariant i == |lcp| && |word| <= i <= |completions[0]|
      invariant lcp[..|word|] == word
      invariant forall j :: |word| <= j < i ==> Agree(completions, j) && lcp[j] == completions[0][j]
      decreases |completions[0]| - i
    {
      var ch: Option<char> := None;
      for k := 0 to |completions|
        invariant k == 0 ==> ch == None
        invariant k > 0 ==> i < |completions[0]| && ch == Some(completions[0][i])
        invariant forall m :: 0 <= m < k ==> i < |completions[0]| && i < |completions[m]| && completions[m][i] == completions[0][i]
      {
        if i < |completions[k]| {
          var character := completions[k][i];
          if ch.None? {
            ch := Some(character);
          } else if character != ch.value {
            return;
          }
        } else {
          return;
        }
      }
      lcp := lcp + [ch.value];
      i := i + 1;
    }
  }

  // ---------------------------------------------------------------------------

  /** The characterisation leaves no choice: there is one longest common prefix. */
  lemma LcpUnique(word: string, completions: seq<string>, a: string, b: string)
    requires |completions| > 0 && IsLcp(word, completions, a) && IsLcp(word, completions, b)
    ensures a == b
  {
    forall j | 0 <= j < |a| ensures a[j] == b[j] {
      if j < |word| {
        assert a[..|word|][j] == b[..|word|][j];
      }
    }
  }

  /** When every completion starts with `word`, the result is a prefix of every completion. */
  lemma LcpPrefixOfAll(word: string, completions: seq<string>, lcp: string)
    requires |completions| > 0 && IsLcp(word, completions, lcp)
    requires forall k :: 0 <= k < |completions| ==> IsPrefix(word, completions[k])
    ensures forall k :: 0 <= k < |completions| ==> IsPrefix(lcp, completions[k])
  {
    forall k | 0 <= k < |completions| ensures IsPrefix(lcp, completions[k]) {
      if |lcp| > |word| {
        assert Agree(completions, |lcp| - 1);
      }
      forall j | 0 <= j < |lcp| ensures completions[k][j] == lcp[j] {
        if j < |word| {
          assert completions[k][..|word|][j] == lcp[..|word|][j];
        } else {
          assert Agree(completions, j);
        }
      }
    }
  }

  /** A stem that is itself one of the completions and starts all of them is the result. */
  lemma StemIsLcp(word: string, completions: seq<string>, stem: string)
    requires |completions| > 0 && completions[0] == stem && IsPrefix(word, stem)
    requires forall k :: 0 <= k < |completions| ==> IsPrefix(stem, completions[k])
    ensures IsLcp(word, completions, stem)
  {
    forall j | |word| <= j < |stem| ensures Agree(completions, j) {
      forall k | 0 <= k < |completions|
        ensures j < |completions[k]| && completions[k][j] == completions[0][j]
      {
        assert completions[k][..|stem|][j] == stem[j];
      }
    }
  }

  /** With a single completion that starts with `word`, the result is that whole completion. */
  lemma LcpSingle(word: string, c: string, lcp: string)
    requires IsPrefix(word, c) && IsLcp(word, [c], lcp)
    ensures lcp == c
  {
    StemIsLcp(word, [c], c);
    LcpUnique(word, [c], lcp, c);
  }

  /** The unit test of `longest_common_prefix`: "clear-" against three completions sharing "clear-fbo". */
  method ClearExample() returns (lcp: string)
    ensures lcp == "clear-fbo"
  {
    var word := "clear-";
    var stem := word + "fbo";
    var completions := [stem, stem + "-scissor", stem + "-tex"];
    lcp := LongestCommonPrefix(word, completions);
    StemIsLcp(word, completions, stem);
    LcpUnique(word, completions, lcp, stem);
  }
}
