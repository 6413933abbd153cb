/** Cutting a command line into words (src/ftp.c, split). */
module FtpSplit {

  /** How many separators a text starts with. */
  function Lead(s: string, sep: char): (n: nat)
    ensures n <= |s| && (forall i :: 0 <= i < n ==> s[i] == sep) && (n < |s| ==> s[n] != sep)
  {
    if s == "" || s[0] != sep then 0 else 1 + Lead(s[1..], sep)
  }

  /** How long the first word is, in a text that starts with one. */
  function WordLength(s: string, sep: char): (n: nat)
    ensures n <= |s| && (forall i :: 0 <= i < n ==> s[i] != sep) && (n < |s| ==> s[n] == sep)
  {
    if s == "" || s[0] == sep then 0 else 1 + WordLength(s[1..], sep)
  }

  /** Without the separators at the end. */
  function TrimRight(s: string, sep: char): (t: string)
    ensures t <= s && (t == "" || t[|t| - 1] != sep) && forall i :: |t| <= i < |s| ==> s[i] == sep
  {
    if s == "" || s[|s| - 1] != sep then s else TrimRight(s[..|s| - 1], sep)
  }

  /** The words of a text: up to `maxsplit` of them are cut off, each with the separators around it, and
      what is left is one last word that may have separators inside. */
  function Words(s: string, sep: char, maxsplit: nat): (words: seq<string>)
    ensures |words| <= maxsplit + 1
    decreases maxsplit
  {
    var t := s[Lead(s, sep)..];
    if t == "" then []
    else if maxsplit == 0 then [TrimRight(t, sep)]
    else [t[..WordLength(t, sep)]] + Words(t[WordLength(t, sep)..], sep, maxsplit - 1)
  }

  /** The first word and the others. */
  lemma WordsCons(s: string, sep: char, maxsplit: nat)
    ensures var t := s[Lead(s, sep)..]; var n := WordLength(t, sep);
            (t == "" ==> Words(s, sep, maxsplit) == [])
            && (t != "" ==> t[0] != sep && n > 0)
            && (t != "" && maxsplit == 0 ==> Words(s, sep, maxsplit) == [TrimRight(t, sep)])
            && (t != "" && maxsplit > 0 ==> Words(s, sep, maxsplit) == [t[..n]] + Words(t[n..], sep, maxsplit - 1))
  {
  }

  /** Every word found is a word: not empty, and with no separator at either end. */
  lemma {:induction false} WordsAreWords(s: string, sep: char, maxsplit: nat, k: nat)
    requires k < |Words(s, sep, maxsplit)|
    ensures var w := Words(s, sep, maxsplit)[k];
            w != "" && w[0] != sep && w[|w| - 1] != sep && (k < maxsplit ==> sep !in w)
    decreases maxsplit
  {
    hide Words, Lead, WordLength, TrimRight;
    var t := s[Lead(s, sep)..];
    var n := WordLength(t, sep);
    WordsCons(s, sep, maxsplit);
    if maxsplit == 0 {
      TrimKeepsFirst(t, sep);
    } else if k > 0 {
      WordsAreWords(t[n..], sep, maxsplit - 1, k - 1);
    }
  }

  lemma TrimKeepsFirst(t: string, sep: char)
    requires t != "" && t[0] != sep
    ensures var w := TrimRight(t, sep); w != "" && w[0] == t[0] && w[|w| - 1] != sep
  {
    hide TrimRight;
    var w := TrimRight(t, sep);
    assert t[0] != sep;
  }

  /** `n` separators. */
  function Gap(sep: char, n: nat): (s: string)
    ensures |s| == n && forall i :: 0 <= i < n ==> s[i] == sep
  {
    seq(n, _ => sep)
  }

  /** The words with separators before, between and behind them, so many of each. */
  function Woven(words: seq<string>, gaps: seq<nat>, sep: char): string
    requires |gaps| == |words| + 1
  {
    Gap(sep, gaps[0]) + if words == [] then "" else words[0] + Woven(words[1..], gaps[1..], sep)
  }

  /** The text is these words with separators before, between and behind them, with at least one between two. */
  ghost predicate MakesText(s: string, words: seq<string>, gaps: seq<nat>, sep: char) {
    |gaps| == |words| + 1 && Woven(words, gaps, sep) == s && forall k :: 0 < k < |words| ==> gaps[k] > 0
  }

  /** Nothing of the text is lost or cut. */
  lemma {:induction false} WordsMakeText(s: string, sep: char, maxsplit: nat) returns (gaps: seq<nat>)
    ensures MakesText(s, Words(s, sep, maxsplit), gaps, sep) && gaps != [] && gaps[0] == Lead(s, sep)
    decreases maxsplit
  {
    hide Words, Lead, WordLength, TrimRight, Gap, Woven, MakesText;
    var lead := Lead(s, sep);
    var t := s[lead..];
    WordsCons(s, sep, maxsplit);
    LeadGap(s, sep);
    if t == "" {
      gaps := [lead];
      NoWords(lead, sep);
      assert Gap(sep, lead) + "" == Gap(sep, lead);
    } else if maxsplit == 0 {
      var w := TrimRight(t, sep);
      gaps := [lead] + [|t| - |w|];
      TrimGap(t, sep);
      NoWords(|t| - |w|, sep);
      OneWordMore(Gap(sep, |t| - |w|), [], [|t| - |w|], sep, lead, w);
      assert [w] + [] == [w];
    } else {
      var w, rest := t[..WordLength(t, sep)], t[WordLength(t, sep)..];
      var behind := WordsMakeText(rest, sep, maxsplit - 1);
      gaps := [lead] + behind;
      SomeLead(rest, sep, maxsplit - 1);
      OneWordMore(rest, Words(rest, sep, maxsplit - 1), behind, sep, lead, w);
      assert t == w + rest;
    }
  }

  lemma NoWords(gap: nat, sep: char)
    ensures MakesText(Gap(sep, gap), [], [gap], sep)
  {
    assert Gap(sep, gap) + "" == Gap(sep, gap);
  }

  lemma OneWordMore(s: string, words: seq<string>, gaps: seq<nat>, sep: char, gap: nat, word: string)
    requires MakesText(s, words, gaps, sep) && (words != [] ==> gaps[0] > 0)
    ensures MakesText(Gap(sep, gap) + (word + s), [word] + words, [gap] + gaps, sep)
  {
    hide Gap;
    assert ([word] + words)[1..] == words && ([gap] + gaps)[1..] == gaps;
  }

  lemma LeadGap(s: string, sep: char)
    ensures s == Gap(sep, Lead(s, sep)) + s[Lead(s, sep)..]
  {
    hide Lead;
  }

  lemma TrimGap(t: string, sep: char)
    ensures |TrimRight(t, sep)| <= |t|
    ensures t == TrimRight(t, sep) + Gap(sep, |t| - |TrimRight(t, sep)|)
  {
    hide TrimRight;
    var w := TrimRight(t, sep);
    assert t == w + t[|w|..];
  }

  /** A text that starts with a separator, or is empty. */
  lemma SomeLead(s: string, sep: char, maxsplit: nat)
    requires s != "" ==> s[0] == sep
    ensures Words(s, sep, maxsplit) != [] ==> Lead(s, sep) > 0
  {
  }

  /** What is still to come when a word has been begun: its rest, and the words behind it. */
  function WordsFrom(word: string, s: string, sep: char, maxsplit: nat): seq<string>
  {
    if maxsplit == 0 then [TrimRight(word + s, sep)]
    else [word + s[..WordLength(s, sep)]] + Words(s[WordLength(s, sep)..], sep, maxsplit - 1)
  }

  lemma SkipSeparator(s: string, sep: char, maxsplit: nat)
    requires s != "" && s[0] == sep
    ensures Words(s, sep, maxsplit) == Words(s[1..], sep, maxsplit)
  {
    assert s[1..][Lead(s[1..], sep)..] == s[Lead(s, sep)..];
  }

  lemma BeginWord(s: string, sep: char, maxsplit: nat)
    requires s != "" && s[0] != sep
    ensures Words(s, sep, maxsplit) == WordsFrom([s[0]], s[1..], sep, maxsplit)
  {
    assert s[Lead(s, sep)..] == s && [s[0]] + s[1..] == s;
    if maxsplit > 0 {
      var n := WordLength(s[1..], sep);
      assert WordLength(s, sep) == n + 1;
      assert s[..n + 1] == [s[0]] + s[1..][..n] && s[n + 1..] == s[1..][n..];
    }
  }

  lemma ContinueWord(word: string, s: string, sep: char, maxsplit: nat)
    requires s != "" && (s[0] != sep || maxsplit == 0)
    ensures WordsFrom(word, s, sep, maxsplit) == WordsFrom(word + [s[0]], s[1..], sep, maxsplit)
  {
    if maxsplit == 0 {
      assert word + s == word + [s[0]] + s[1..];
    } else {
      var n := WordLength(s[1..], sep);
      assert WordLength(s, sep) == n + 1;
      assert word + s[..n + 1] == word + [s[0]] + s[1..][..n] && s[n + 1..] == s[1..][n..];
    }
  }

  lemma EndWord(word: string, s: string, sep: char, maxsplit: nat)
    requires (s == "" || s[0] == sep) && maxsplit > 0
    ensures WordsFrom(word, s, sep, maxsplit) == [word] + Words(s, sep, maxsplit - 1)
  {
    assert s[..0] == "" && word + "" == word && s[0..] == s;
  }

  /** Where the separators at the end of the last word begin; 0 if it has none there. */
  function TrimPos(word: string, sep: char): nat {
    if word != "" && word[|word| - 1] == sep then |TrimRight(word, sep)| else 0
  }

  lemma TrimPosMore(word: string, sep: char)
    requires word != "" && word[0] != sep
    ensures TrimRight(word + [sep], sep) == TrimRight(word, sep) != ""
    ensures TrimPos(word + [sep], sep) == if TrimPos(word, sep) == 0 then |word| else TrimPos(word, sep)
    ensures TrimPos(word, sep) != 0 <==> word[|word| - 1] == sep
  {
    assert (word + [sep])[..|word|] == word;
  }

  /** The words in the results and those still to come from `rest` are the words of the whole text. */
  ghost predicate Underway(words: seq<string>, sep: char, maxsplit: nat, rest: string, numResults: nat,
        result: seq<string>, inWord: bool) {
    && numResults <= maxsplit + 1 == |result|
    && (inWord ==> numResults > 0 && result[numResults - 1] != "" && result[numResults - 1][0] != sep)
    && (numResults == maxsplit + 1 ==> inWord)
    && (forall k :: numResults <= k <= maxsplit ==> result[k] == "")
    && words == if inWord then result[..numResults - 1] + WordsFrom(result[numResults - 1], rest, sep,
        maxsplit + 1 - numResults)
                else result[..numResults] + Words(rest, sep, maxsplit - numResults)
  }

  lemma StepSeparator(words: seq<string>, sep: char, maxsplit: nat, rest: string, numResults: nat,
        result: seq<string>, inWord: bool)
    requires Underway(words, sep, maxsplit, rest, numResults, result, inWord) && rest != "" && rest[0] == sep
             && numResults <= maxsplit
    ensures Underway(words, sep, maxsplit, rest[1..], numResults, result, false)
  {
    hide Words, WordsFrom;
    if inWord {
      EndWord(result[numResults - 1], rest, sep, maxsplit + 1 - numResults);
      LastWord(result, numResults, Words(rest, sep, maxsplit - numResults));
    }
    SkipSeparator(rest, sep, maxsplit - numResults);
  }

  lemma LastWord(result: seq<string>, n: nat, more: seq<string>)
    requires 0 < n <= |result|
    ensures result[..n - 1] + ([result[n - 1]] + more) == result[..n] + more
  {
    assert result[..n] == result[..n - 1] + [result[n - 1]];
  }

  lemma StepBegin(words: seq<string>, sep: char, maxsplit: nat, rest: string, numResults: nat, result: seq<string>)
    requires Underway(words, sep, maxsplit, rest, numResults, result, false) && rest != "" && rest[0] != sep
    ensures Underway(words, sep, maxsplit, rest[1..], numResults + 1,
            result[numResults := result[numResults] + [rest[0]]], true)
  {
    hide Words, WordsFrom;
    BeginWord(rest, sep, maxsplit - numResults);
    assert result[numResults] + [rest[0]] == [rest[0]];
    assert result[numResults := [rest[0]]][..numResults] == result[..numResults];
  }

  lemma StepContinue(words: seq<string>, sep: char, maxsplit: nat, rest: string, numResults: nat, result: seq<string>)
    requires Underway(words, sep, maxsplit, rest, numResults, result, true) && rest != ""
    requires rest[0] != sep || numResults == maxsplit + 1
    ensures Underway(words, sep, maxsplit, rest[1..], numResults,
            result[numResults - 1 := result[numResults - 1] + [rest[0]]], true)
  {
    hide Words, WordsFrom;
    var word := result[numResults - 1];
    ContinueWord(word, rest, sep, maxsplit + 1 - numResults);
    assert (word + [rest[0]])[0] == word[0];
    assert result[numResults - 1 := word + [rest[0]]][..numResults - 1] == result[..numResults - 1];
  }

  /** At the end of the text the last word loses the separators behind it, and all words are there. */
  lemma AllWords(words: seq<string>, sep: char, maxsplit: nat, numResults: nat, result: seq<string>, inWord: bool,
        trimPos: nat)
    requires Underway(words, sep, maxsplit, "", numResults, result, inWord)
    requires trimPos == if numResults == maxsplit + 1 then TrimPos(result[maxsplit], sep) else 0
    ensures trimPos != 0 ==> numResults == maxsplit + 1 && trimPos <= |result[maxsplit]|
    ensures var r := if trimPos != 0 then result[maxsplit := result[maxsplit][..trimPos]] else result;
            r[..numResults] == words && forall k :: numResults <= k <= maxsplit ==> r[k] == ""
  {
    if inWord {
      var word := result[numResults - 1];
      assert word + "" == word && result[..numResults] == result[..numResults - 1] + [word];
      if numResults <= maxsplit {
        EndWord(word, "", sep, maxsplit + 1 - numResults);
      } else {
        TrimPosMore(word, sep);
        var t := TrimRight(word, sep);
        assert t == word[..|t|];
        var r := if trimPos != 0 then result[maxsplit := word[..trimPos]] else result;
        assert WordsFrom(word, "", sep, 0) == [t];
        assert r[maxsplit] == t && r[..maxsplit] == result[..maxsplit];
        assert r[..numResults] == r[..maxsplit] + [r[maxsplit]];
      }
    }
  }

  /** One character. */
  method Turn(c: char, sep: char, maxsplit: nat, numResults0: nat, result0: seq<string>, inWord0: bool, trimPos0: nat,
              ghost words: seq<string>, ghost rest: string)
    returns (numResults: nat, result: seq<string>, inWord: bool, trimPos: nat)
    requires rest != "" && rest[0] == c && Underway(words, sep, maxsplit, rest, numResults0, result0, inWord0)
    requires trimPos0 == if numResults0 == maxsplit + 1 then TrimPos(result0[maxsplit], sep) else 0
    ensures Underway(words, sep, maxsplit, rest[1..], numResults, result, inWord)
    ensures trimPos == if numResults == maxsplit + 1 then TrimPos(result[maxsplit], sep) else 0
  {
    hide Words, WordsFrom, TrimRight;
    numResults, result, inWord, trimPos := numResults0, result0, inWord0, trimPos0;
    if c == sep {
      if numResults <= maxsplit {
        StepSeparator(words, sep, maxsplit, rest, numResults, result, inWord);
        inWord := false;
        return;
      } else {
        TrimPosMore(result[numResults - 1], sep);
        if trimPos == 0 {
          trimPos := |result[numResults - 1]|;
        }
      }
    } else if trimPos != 0 {
      trimPos := 0;
    }
    if !inWord {
      StepBegin(words, sep, maxsplit, rest, numResults, result);
      inWord := true;
      numResults := numResults + 1;
    } else {
      StepContinue(words, sep, maxsplit, rest, numResults, result);
    }
    result := result[numResults - 1 := result[numResults - 1] + [c]];
  }

  /** Fills `maxsplit` + 1 results; those for which there is no word are empty. */
  method Split(s: string, sep: char, maxsplit: nat) returns (numResults: nat, result: seq<string>)
    ensures numResults == |Words(s, sep, maxsplit)| && |result| == maxsplit + 1
    ensures result[..numResults] == Words(s, sep, maxsplit)
    ensures forall i :: numResults <= i <= maxsplit ==> result[i] == ""
  {
    hide Words, WordsFrom, TrimPos;
    result := seq(maxsplit + 1, _ => "");
    numResults := 0;
    var trimPos, inWord := 0, false;
    ghost var words := Words(s, sep, maxsplit);
    Start(s, sep, maxsplit, result);
    for i := 0 to |s|
      invariant Underway(words, sep, maxsplit, s[i..], numResults, result, inWord)
      invariant trimPos == if numResults == maxsplit + 1 then TrimPos(result[maxsplit], sep) else 0
    {
      assert s[i..][1..] == s[i + 1..];
      numResults, result, inWord, trimPos := Turn(s[i], sep, maxsplit, numResults, result, inWord, trimPos, words,
          s[i..]);
    }
    assert s[|s|..] == "";
    AllWords(words, sep, maxsplit, numResults, result, inWord, trimPos);
    if trimPos != 0 {
      result := result[numResults - 1 := result[numResults - 1][..trimPos]];
    }
  }

  lemma Start(s: string, sep: char, maxsplit: nat, result: seq<string>)
    requires |result| == maxsplit + 1 && forall k :: 0 <= k <= maxsplit ==> result[k] == ""
    ensures Underway(Words(s, sep, maxsplit), sep, maxsplit, s[0..], 0, result, false)
  {
    assert s[0..] == s && result[..0] == [];
  }
}
