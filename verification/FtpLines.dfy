/** Lines of a control channel, ended by carriage return and line feed (section 5.3 of RFC 959). */
module FtpLines {

  predicate CrlfAt(s: string, i: nat) {
    i + 1 < |s| && s[i] == '\r' && s[i + 1] == '\n'
  }

  /** Where the first line ends, or the length of the text if it has no end yet. */
  function FindCrlf(s: string): (i: nat)
    ensures i < |s| ==> CrlfAt(s, i)
    ensures i <= |s| && forall j: nat :: j < i ==> !CrlfAt(s, j)
    decreases |s|
  {
    if |s| < 2 then |s|
    else if s[0] == '\r' && s[1] == '\n' then 0
    else
      assert forall j: nat :: 0 < j ==> CrlfAt(s, j) == CrlfAt(s[1..], j - 1);
      1 + FindCrlf(s[1..])
  }

  /** The first place is the only one with these properties. */
  lemma FindUnique(s: string, i: nat)
    requires i <= |s| && (i < |s| ==> CrlfAt(s, i)) && forall j: nat :: j < i ==> !CrlfAt(s, j)
    ensures FindCrlf(s) == i
  {
  }

  /** The complete lines of a text, and what follows the last of them. */
  function Lines(s: string): seq<string>
    decreases |s|
  {
    var i := FindCrlf(s);
    if i == |s| then [] else [s[..i]] + Lines(s[i + 2..])
  }

  /** The text without its first `k` lines. */
  function Drop(s: string, k: nat): string
    requires k <= |Lines(s)|
    decreases k
  {
    if k == 0 then s else Drop(s[FindCrlf(s) + 2..], k - 1)
  }

  function Unlines(lines: seq<string>, rest: string): string {
    if lines == [] then rest else lines[0] + "\r\n" + Unlines(lines[1..], rest)
  }

  /** The first line and the others. */
  lemma LinesCons(s: string)
    requires FindCrlf(s) < |s|
    ensures var t := s[FindCrlf(s) + 2..];
            Lines(s) == [s[..FindCrlf(s)]] + Lines(t)
            && forall k: nat :: 0 < k <= |Lines(s)| ==> Drop(s, k) == Drop(t, k - 1)
  {
    hide FindCrlf;
    hide Drop;
    forall k: nat | 0 < k <= |Lines(s)|
      ensures Drop(s, k) == Drop(s[FindCrlf(s) + 2..], k - 1)
    {
      DropCons(s, k);
    }
  }

  lemma DropCons(s: string, k: nat)
    requires 0 < k <= |Lines(s)|
    ensures FindCrlf(s) < |s| && k - 1 <= |Lines(s[FindCrlf(s) + 2..])|
            && Drop(s, k) == Drop(s[FindCrlf(s) + 2..], k - 1)
  {
    hide FindCrlf;
  }

  lemma LinesNone(s: string)
    requires FindCrlf(s) == |s|
    ensures Lines(s) == [] && Drop(s, 0) == s
  {
  }

  /** Lines and rest make up the text, and neither has a line end inside. */
  lemma {:induction false} LinesMakeText(s: string)
    ensures Unlines(Lines(s), Drop(s, |Lines(s)|)) == s
    ensures FindCrlf(Drop(s, |Lines(s)|)) == |Drop(s, |Lines(s)|)|
    ensures forall k :: 0 <= k < |Lines(s)| ==> FindCrlf(Lines(s)[k]) == |Lines(s)[k]|
    decreases |s|
  {
    hide FindCrlf, Lines, Drop;
    var i := FindCrlf(s);
    if i < |s| {
      var t := s[i + 2..];
      LinesMakeText(t);
      LinesCons(s);
      NoCrlfBefore(s, i);
      UnlinesCons(s[..i], Lines(t), Drop(t, |Lines(t)|));
      assert s == s[..i] + "\r\n" + t;
    } else {
      LinesNone(s);
    }
  }

  /** Carriage return and line feed end a line, and nothing else does. */
  lemma OneLine(line: string, rest: string)
    requires forall j :: 0 <= j < |line| - 1 ==> !(line[j] == '\r' && line[j + 1] == '\n')
    ensures Lines(line + "\r\n" + rest) == [line] + Lines(rest)
    ensures Lines(line) == [] && Drop(line, 0) == line
  {
    hide FindCrlf;
    var s := line + "\r\n" + rest;
    forall j: nat | j < |line|
      ensures !CrlfAt(s, j)
    {
      assert s[j] == line[j] && (j + 1 < |line| ==> s[j + 1] == line[j + 1]);
    }
    FindUnique(s, |line|);
    FindUnique(line, |line|);
    assert s[..|line|] == line && s[|line| + 2..] == rest;
  }

  lemma UnlinesCons(line: string, lines: seq<string>, rest: string)
    ensures Unlines([line] + lines, rest) == line + "\r\n" + Unlines(lines, rest)
  {
    assert ([line] + lines)[1..] == lines;
  }

  lemma NoCrlfBefore(s: string, i: nat)
    requires i == FindCrlf(s) < |s|
    ensures FindCrlf(s[..i]) == i
  {
    forall j: nat | j < i
      ensures !CrlfAt(s[..i], j)
    {
      assert !CrlfAt(s, j);
    }
    FindUnique(s[..i], i);
  }

  /** The next line of a text is the first of what is left. */
  lemma {:induction false} NextLine(s: string, k: nat)
    requires k <= |Lines(s)|
    ensures var rest := Drop(s, k); var i := FindCrlf(rest);
            if i == |rest| then k == |Lines(s)|
            else k < |Lines(s)| && Lines(s)[k] == rest[..i] && Drop(s, k + 1) == rest[i + 2..]
    decreases k
  {
    if k > 0 {
      NextLine(s[FindCrlf(s) + 2..], k - 1);
    }
  }

  lemma FindAppended(s: string, d: string)
    requires FindCrlf(s) < |s|
    ensures FindCrlf(s + d) == FindCrlf(s)
  {
    var i := FindCrlf(s);
    forall j: nat | j < i
      ensures !CrlfAt(s + d, j)
    {
      assert !CrlfAt(s, j);
    }
    assert CrlfAt(s + d, i);
    FindUnique(s + d, i);
  }

  /** More text does not change the lines that are complete already. */
  lemma {:induction false} MoreText(s: string, d: string, k: nat)
    requires k <= |Lines(s)|
    ensures k <= |Lines(s + d)| && Lines(s + d)[..k] == Lines(s)[..k] && Drop(s + d, k) == Drop(s, k) + d
    decreases k
  {
    hide FindCrlf, Lines, Drop;
    if k > 0 {
      SomeLine(s);
      var i := FindCrlf(s);
      FindAppended(s, d);
      LinesCons(s);
      LinesCons(s + d);
      assert (s + d)[i + 2..] == s[i + 2..] + d && (s + d)[..i] == s[..i];
      MoreText(s[i + 2..], d, k - 1);
      ConsPrefix(s[..i], Lines(s[i + 2..]), k);
      ConsPrefix(s[..i], Lines(s[i + 2..] + d), k);
    } else {
      DropNone(s);
      DropNone(s + d);
    }
  }

  lemma SomeLine(s: string)
    requires |Lines(s)| > 0
    ensures FindCrlf(s) < |s|
  {
  }

  lemma DropNone(s: string)
    ensures Drop(s, 0) == s
  {
  }

  lemma ConsPrefix(line: string, lines: seq<string>, k: nat)
    requires 0 < k <= |lines| + 1
    ensures ([line] + lines)[..k] == [line] + lines[..k - 1]
  {
  }

  function NonEmpty(lines: seq<string>): seq<string> {
    if lines == [] then []
    else NonEmpty(lines[..|lines| - 1]) + if lines[|lines| - 1] == "" then [] else [lines[|lines| - 1]]
  }

  lemma NonEmptyMore(lines: seq<string>, k: nat)
    requires k < |lines|
    ensures NonEmpty(lines[..k + 1]) == NonEmpty(lines[..k]) + if lines[k] == "" then [] else [lines[k]]
  {
    assert lines[..k + 1][..k] == lines[..k];
  }

  /** Empty lines are left out, and the others stay in order. */
  lemma {:induction false} NonEmptyParts(a: seq<string>, b: seq<string>, line: string)
    ensures NonEmpty(a + b) == NonEmpty(a) + NonEmpty(b)
    ensures NonEmpty([line]) == if line == "" then [] else [line]
    decreases |b|
  {
    if b == [] {
      assert a + b == a;
    } else {
      var init, last := b[..|b| - 1], b[|b| - 1];
      NonEmptyParts(a, init, line);
      assert a + b == a + init + [last] && (a + init + [last])[..|a + init|] == a + init;
    }
    assert [line][..0] == [];
  }

  /** If so much text has no line end, the line it is part of is long, whatever follows. */
  lemma LongLine(rest: string, d: string)
    requires FindCrlf(rest) == |rest| > 0
    ensures FindCrlf(rest + d) >= |rest| - 1
  {
    forall j: nat | j < |rest| - 1
      ensures !CrlfAt(rest + d, j)
    {
      assert !CrlfAt(rest, j);
    }
  }
}
