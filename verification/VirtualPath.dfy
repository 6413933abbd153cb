/** Client-visible paths (src/vrt.c): the normaliser, which edits its output buffer in place, and the look-up
    of the partition a path is on. */
module VirtualPath {
  import opened Paths

  /** `s` is the C string in the buffer. */
  predicate Holds(b: seq<char>, s: string) {
    |s| < |b| && b[..|s|] == s && b[|s|] == '\0' && '\0' !in s
  }

  method StrLen(buf: array<char>, ghost s: string) returns (n: nat)
    requires Holds(buf[..], s)
    ensures n == |s|
  {
    n := 0;
    while buf[n] != '\0'
      invariant n <= |s|
      decreases |s| - n
    {
      assert n < |s| ==> buf[..][..|s|][n] == s[n];
      n := n + 1;
    }
  }

  /** strncat with one character. */
  method AppendChar(buf: array<char>, c: char, ghost s: string)
    requires Holds(buf[..], s) && |s| + 1 < buf.Length && c != '\0'
    modifies buf
    ensures Holds(buf[..], s + [c])
  {
    var n := StrLen(buf, s);
    buf[n], buf[n + 1] := c, '\0';
    assert buf[..][..n] == old(buf[..])[..n];
    assert buf[..][..n + 1] == buf[..][..n] + [c];
  }

  /** Cuts the string by writing its terminator. */
  method Cut(buf: array<char>, n: nat, ghost s: string)
    requires Holds(buf[..], s) && n <= |s|
    modifies buf
    ensures Holds(buf[..], s[..n])
  {
    buf[n] := '\0';
    assert buf[..][..n] == old(buf[..])[..n] == old(buf[..])[..|s|][..n];
  }

  /** Where the last slash is, if there is one. */
  ghost predicate LastSlashAt(s: string, i: nat) {
    i < |s| && s[i] == '/' && forall j :: i < j < |s| ==> s[j] != '/'
  }

  /** strrchr for a slash. */
  method StrRChr(buf: array<char>, ghost s: string) returns (found: bool, i: nat)
    requires Holds(buf[..], s)
    ensures if found then LastSlashAt(s, i) else '/' !in s
  {
    found, i := false, 0;
    var n := 0;
    while buf[n] != '\0'
      invariant n <= |s|
      invariant if found then i < n && s[i] == '/' && forall j ::
                  i < j < n ==> s[j] != '/' else forall j :: 0 <= j < n ==> s[j] != '/'
      decreases |s| - n
    {
      assert n < |s| ==> buf[..][..|s|][n] == s[n];
      if buf[n] == '/' {
        found, i := true, n;
      }
      n := n + 1;
    }
  }

  /** What the state says about the component that is being copied: 0 start, 1 slash, 2 dot, 3 dotdot. */
  function StateOf(part: string): nat {
    if part == "" then 1 else if part == "." then 2 else if part == ".." then 3 else 0
  }

  /** The prefix read so far: its finished components and the unfinished one. */
  function Finished(s: string): seq<string> {
    Resolve(Split(s)[..|Split(s)| - 1])
  }

  function Unfinished(s: string): (part: string) {
    Split(s)[|Split(s)| - 1]
  }

  /** The invariant of the machine: the buffer holds the directory of the finished components and then the
      unfinished one as it is, and the last slash before that is remembered. */
  ghost predicate Reached(done: string, state: nat, out: string, curr: nat) {
    && state == StateOf(Unfinished(done))
    && out == Dir(Finished(done)) + Unfinished(done)
    && curr == |Dir(Finished(done))| - 1
    && |out| <= |done|
    && AllProper(Finished(done)) && '/' !in Unfinished(done)
  }

  /** The same at the start, where nothing has been read. */
  ghost predicate Started(done: string, state: nat, out: string, curr: nat) {
    if done == "" then state == 0 && out == "" && curr == 0 else Reached(done, state, out, curr)
  }

  lemma AtStart()
    ensures Finished("") == [] && Unfinished("") == "" && Dir(Push([], "")) == "/" && AtSlash("", 0, "") == "/"
  {
    SplitEmpty();
  }

  /** A character that is not a slash goes on with the component. */
  lemma GoOn(done: string, c: char)
    requires c != '/'
    ensures Finished(done + [c]) == Finished(done) && Unfinished(done + [c]) == Unfinished(done) + [c]
  {
    SplitMore(done, c);
    var p := Split(done);
    assert (p[..|p| - 1] + [p[|p| - 1] + [c]])[..|p| - 1] == p[..|p| - 1];
  }

  /** A slash finishes it. */
  lemma Finish(done: string)
    ensures Finished(done + ['/']) == Push(Finished(done), Unfinished(done)) == Meaning(done)
            && Unfinished(done + ['/']) == ""
  {
    SplitMore(done, '/');
    var p := Split(done);
    assert (p + [""])[..|p|] == p;
    assert p == p[..|p| - 1] + [p[|p| - 1]];
    ResolveMore(p[..|p| - 1], p[|p| - 1]);
  }

  /** The state after a character that is not a slash. */
  function NextState(state: nat, c: char): nat {
    if state == 1 && c == '.' then 2 else if state == 2 && c == '.' then 3 else 0
  }

  lemma StateOfMore(part: string, c: char)
    requires c != '/'
    ensures StateOf(part + [c]) == NextState(StateOf(part), c)
  {
    var next := part + [c];
    assert next[|part|] == c && next[..|part|] == part;
    if |part| == 1 {
      assert part == [part[0]] && next == [part[0], c];
    } else if |part| == 0 {
      assert next == [c];
    }
  }

  /** A character that is not a slash is copied. */
  lemma ReachedMore(done: string, state: nat, out: string, curr: nat, c: char)
    requires done != "" && Reached(done, state, out, curr) && c != '/'
    ensures Reached(done + [c], NextState(state, c), out + [c], curr)
  {
    hide Dir, StateOf, NextState, Finished, Unfinished;
    GoOn(done, c);
    StateOfMore(Unfinished(done), c);
    var d, u := Dir(Finished(done)), Unfinished(done);
    assert d + u + [c] == d + (u + [c]);
  }

  /** A slash leaves the directory of everything read so far. */
  lemma ReachedSlash(done: string, state: nat, out: string, curr: nat, out': string)
    requires Started(done, state, out, curr)
    requires out' == Dir(Push(Finished(done), Unfinished(done))) && |out'| <= |done| + 1
    ensures Reached(done + ['/'], 1, out', |out'| - 1)
  {
    hide Dir, Finished, Unfinished;
    if done == "" {
      AtStart();
    }
    Finish(done);
    assert StateOf("") == 1;
    assert out' + "" == out';
    assert AllProper(Push(Finished(done), Unfinished(done))) by {
      if StateOf(Unfinished(done)) == 0 {
        assert Proper(Unfinished(done));
      }
    }
  }

  /** What the buffer becomes at a slash, or at the end of the path in the last two states. */
  function AtSlash(done: string, state: nat, out: string): string {
    if state == 0 then out + ['/'] else Dir(Push(Finished(done), Unfinished(done)))
  }

  lemma AtSlashIsDir(done: string, state: nat, out: string, curr: nat)
    requires Reached(done, state, out, curr)
    ensures AtSlash(done, state, out) == Dir(Push(Finished(done), Unfinished(done)))
    ensures |AtSlash(done, state, out)| <= |out| + 1
    ensures state == 1 || state == 2 ==> AtSlash(done, state, out) == Dir(Finished(done)) == out[..curr + 1]
    ensures state == 3 ==> Unfinished(done) == ".."
  {
    hide Dir, Finished, Unfinished, Split, Resolve;
    var f, u := Finished(done), Unfinished(done);
    DirOf(f);
    DirOf(f + [u]);
    assert (f + [u])[..|f|] == f;
    if state == 0 {
      assert Dir(f) + u + ['/'] == Dir(f) + u + "/";
    } else if state == 1 || state == 2 {
      assert (Dir(f) + u)[..|Dir(f)|] == Dir(f);
    } 
  }

  lemma DirOf(stack: seq<string>)
    ensures stack == [] ==> Dir(stack) == "/"
    ensures stack != [] ==> Dir(stack) == Dir(stack[..|stack| - 1]) + stack[|stack| - 1] + "/"
  {
  }

  /** Without its last slash the directory of a stack ends in the last component. */
  lemma LastSlashOfDir(stack: seq<string>)
    requires AllProper(stack) && stack != []
    ensures var s, init := Dir(stack)[..|Dir(stack)| - 1], Dir(stack[..|stack| - 1]);
            LastSlashAt(s, |init| - 1) && s[..|init|] == init
  {
    hide Dir;
    DirOf(stack);
    var init, last := Dir(stack[..|stack| - 1]), stack[|stack| - 1];
    assert Proper(last) && Dir(stack)[..|Dir(stack)| - 1] == init + last;
  }

  /** "/.." at the end of the buffer: the directory before it is dropped, unless it is the root. */
  method Leave(buf: array<char>, curr0: nat, ghost stack: seq<string>, ghost out: string) returns (curr: nat)
    requires Holds(buf[..], out) && AllProper(stack) && Dir(stack) <= out && |Dir(stack)| < |out|
             && curr0 == |Dir(stack)| - 1
    modifies buf
    ensures Holds(buf[..], Dir(Push(stack, ".."))) && curr == |Dir(Push(stack, ".."))| - 1
  {
    hide Dir;
    DirOf(stack);
    Cut(buf, curr0, out);
    ghost var s := Dir(stack)[..curr0];
    assert out[..curr0] == s;
    var found, prev := StrRChr(buf, s);
    curr := curr0;
    if stack != [] {
      LastSlashOfDir(stack);
    }
    if found {
      curr := prev;
      Cut(buf, curr + 1, s);
    } else {
      DirOf([]);
      assert stack == [] && s == "";
      buf[curr] := '/';
      buf[curr + 1] := '\0';
      assert buf[..][..1] == "/";
    }
  }

  /** The switch on the state. Only in state 0 is a slash copied here; in states 2 and 3 a slash, or the end
      of the path, takes the "." or ".." out of the buffer again. */
  method Switch(buf: array<char>, state0: nat, curr0: nat, token: char, ghost done: string, ghost out0: string)
    returns (state: nat, curr: nat, ghost out: string)
    requires Holds(buf[..], out0) && (token == '/' ==> |out0| + 1 < buf.Length)
    requires Started(done, state0, out0, curr0) && (done == "" ==> token == '/')
    modifies buf
    ensures Holds(buf[..], out)
    ensures token == '/' || (token == '\0' && state0 >= 2) ==>
              state == 1 && out == Dir(Push(Finished(done), Unfinished(done))) && curr == |out| - 1
                  && |out| <= |out0| + 1
    ensures token != '/' && (token == '\0' ==> state0 < 2) ==>
              out == out0 && curr == curr0 && state == NextState(state0, token)
  {
    hide Dir, Finished, Unfinished, Push;
    if done == "" {
      AtStart();
    } else {
      AtSlashIsDir(done, state0, out0, curr0);
    }
    state, curr, out := state0, curr0, out0;
    match state {
      case 0 =>
        if token == '/' {
          state := 1;
          curr := StrLen(buf, out);
          AppendChar(buf, '/', out);
          out := AtSlash(done, state0, out0);
        }
      case 1 =>
        if token == '.' {
          state := 2;
        } else if token != '/' {
          state := 0;
        }
      case 2 =>
        if token == '/' || token == '\0' {
          state := 1;
          Cut(buf, curr + 1, out);
          out := AtSlash(done, state0, out0);
        } else if token == '.' {
          state := 3;
        } else {
          state := 0;
        }
      case _ =>
        if token == '/' || token == '\0' {
          state := 1;
          curr := Leave(buf, curr, Finished(done), out);
          out := AtSlash(done, state0, out0);
        } else {
          state := 0;
        }
    }
  }

  /** What the buffer holds after the terminator: the directory the path means, but for the slash behind a
      last component that has none in the path. */
  lemma AtEnd(path: string, state: nat, out: string, curr: nat)
    requires path != "" && Reached(path, state, out, curr)
    ensures state == 0 ==> out == Canonical(Meaning(path))
    ensures state == 1 ==> out == Dir(Meaning(path))
    ensures state >= 2 ==> Dir(Push(Finished(path), Unfinished(path))) == Dir(Meaning(path))
  {
    hide Dir, Finished, Unfinished;
    Finish(path);
    var f, u := Finished(path), Unfinished(path);
    if state == 0 {
      CanonicalOf(f, u);
    } else if state == 1 {
      assert Dir(f) + "" == Dir(f);
    }
  }

  lemma CanonicalOf(stack: seq<string>, part: string)
    requires StateOf(part) == 0
    ensures Canonical(Push(stack, part)) == Dir(stack) + part
  {
    assert (stack + [part])[..|stack|] == stack;
  }

  /** The loop over the path and its terminator. */
  method Normalise(path: string, buf: array<char>) returns (ghost out: string)
    requires path != "" && path[0] == '/' && '\0' !in path && buf.Length == |path| + 1 && Holds(buf[..], "")
    modifies buf
    ensures Holds(buf[..], out) && |out| <= |path| + 1
    ensures out == Canonical(Meaning(path)) || out == Dir(Meaning(path))
  {
    hide Dir, Finished, Unfinished, Push, Canonical, Meaning;
    var curr, state, i := 0, 0, 0;
    out := "";
    while true
      invariant i <= |path| && Holds(buf[..], out) && Started(path[..i], state, out, curr)
      decreases |path| - i
    {
      ghost var done, state0, out0, curr0 := path[..i], state, out, curr;
      var token := if i < |path| then path[i] else '\0';
      state, curr, out := Switch(buf, state, curr, token, done, out);
      if token == '\0' {
        assert done == path;
        AtEnd(path, state0, out0, curr0);
        break;
      }
      assert path[..i + 1] == done + [token];
      if token == '/' {
        ReachedSlash(done, state0, out0, curr0, out);
      } else {
        ReachedMore(done, state0, out0, curr0, token);
      }
      if state == 0 || token != '/' {
        AppendChar(buf, token, out);
        out := out + [token];
      }
      i := i + 1;
    }
  }

  /** Cuts slashes off the end, but not the one of the root. */
  method TrimSlashes(buf: array<char>, ghost out: string, ghost stack: seq<string>)
    requires Holds(buf[..], out) && AllProper(stack) && (out == Canonical(stack) || out == Dir(stack))
    modifies buf
    ensures Holds(buf[..], Canonical(stack))
  {
    hide Dir, Canonical;
    DirIsCanonical(stack);
    NoTrailingSlash(stack);
    DirIsCanonical([]);
    CanonicalRoot();
    assert stack != [] ==> Dir(stack)[..|Dir(stack)| - 1] == Canonical(stack);
    ghost var s := out;
    var end := StrLen(buf, out);
    while end > 1 && buf[end - 1] == '/'
      invariant end == |s| && Holds(buf[..], s) && (s == Canonical(stack) || s == Dir(stack))
      decreases end
    {
      assert buf[..][..end][end - 1] == s[end - 1];
      end := end - 1;
      Cut(buf, end, s);
      s := s[..end];
    }
    assert end > 1 ==> buf[..][..end][end - 1] == s[end - 1];
  }

  lemma CanonicalRoot()
    ensures Canonical([]) == "/"
  {
  }

  datatype Errno = ENOENT | ENODEV

  datatype RealPath = Real(path: string) | NoPath(errno: Errno)

  /** Returns the canonical form of a path. There is none only for a relative path that is too long. */
  method VirtualAbspath(cwd: string, virtualPath: string, maxPathLen: nat) returns (ok: bool, r: string)
    requires cwd != "" && cwd[0] == '/' && '\0' !in cwd && '\0' !in virtualPath
    ensures ok <==> (virtualPath != "" && virtualPath[0] == '/') || |cwd| + |virtualPath| + 1 <= maxPathLen
    ensures ok ==>
              var path := if virtualPath != "" && virtualPath[0] == '/' then virtualPath else cwd + virtualPath;
              r == Canonical(Meaning(path)) && |r| <= |path|
  {
    hide Dir, Canonical, Meaning;
    var path := virtualPath;
    if virtualPath == "" || virtualPath[0] != '/' {
      var pathSize := |cwd| + |virtualPath| + 1;
      if pathSize > maxPathLen {
        return false, "";
      }
      path := cwd + virtualPath;
    }
    var buf := new char[|path| + 1](_ => '\0');
    assert Holds(buf[..], "");
    ghost var out := Normalise(path, buf);
    PartsHaveNoSlash(path);
    MeaningIsProper(path);
    TrimSlashes(buf, out, Meaning(path));
    var end := StrLen(buf, Canonical(Meaning(path)));
    ok, r := true, buf[..end];
  }

  lemma MeaningIsProper(path: string)
    ensures AllProper(Meaning(path))
  {
    PartsHaveNoSlash(path);
    ResolveIsProper(Split(path));
  }

  /** vrt_chdir once the directory has been found to exist: the working directory always ends in a slash, so
      that relative paths can be appended to it. It is kept in `maxPathLen` characters, but its length is not
      tested: what does not fit is said. */
  method ChangeDir(cwd: string, virtualPath: string, maxPathLen: nat) returns (ok: bool, newCwd: string)
    requires cwd != "" && cwd[0] == '/' && '\0' !in cwd && '\0' !in virtualPath
    ensures ok <==> (virtualPath != "" && virtualPath[0] == '/') || |cwd| + |virtualPath| + 1 <= maxPathLen
    ensures var path := if virtualPath != "" && virtualPath[0] == '/' then virtualPath else cwd + virtualPath;
            newCwd == if ok then Dir(Meaning(path)) else cwd
    ensures var path := if virtualPath != "" && virtualPath[0] == '/' then virtualPath else cwd + virtualPath;
            ok ==> (|newCwd| + 1 <= maxPathLen <==>
                      |Canonical(Meaning(path))| + (if Meaning(path) == [] then 1 else 2) <= maxPathLen)
  {
    hide Meaning, Dir, Canonical;
    var abspath;
    ok, abspath := VirtualAbspath(cwd, virtualPath, maxPathLen);
    newCwd := cwd;
    if ok {
      ghost var path := if virtualPath != "" && virtualPath[0] == '/' then virtualPath else cwd + virtualPath;
      ghost var stack := Meaning(path);
      DirIsCanonical(stack);
      MeaningIsProper(path);
      RootIsShort(stack);
      newCwd := abspath;
      if |newCwd| > 1 {
        newCwd := newCwd + "/";
      }
    }
  }

  /** A relative path of two characters less than the limit is just short enough to be accepted: with the slash
      behind it the directory is one character too long. */
  lemma OneTooLong(name: string, maxPathLen: nat)
    requires Proper(name) && |name| + 2 == maxPathLen
    ensures |"/"| + |name| + 1 <= maxPathLen < |Dir(Meaning("/" + name))| + 1
  {
    hide Meaning;
    assert "/" + name == Canonical([name]);
    CanonicalMeans([name]);
    DirIsCanonical([name]);
  }

  lemma RootIsShort(stack: seq<string>)
    requires AllProper(stack)
    ensures |Canonical(stack)| > 1 <==> stack != []
  {
    if stack != [] {
      assert Proper(stack[|stack| - 1]);
    }
  }

  /** A mounted device: "/name" for clients, "name:/" for the system. */
  datatype Device = Device(alias: string, prefix: string)

  function Lower(c: char): char {
    if 'A' <= c <= 'Z' then (c as int + 32) as char else c
  }

  /** strcasecmp says equal. */
  predicate EqualFolded(a: string, b: string) {
    |a| == |b| && forall i :: 0 <= i < |a| ==> Lower(a[i]) == Lower(b[i])
  }

  /** strncasecmp over the length of the alias says equal, and a slash follows. */
  predicate FoldedBefore(alias: string, path: string) {
    |alias| < |path| && EqualFolded(alias, path[..|alias|]) && path[|alias|] == '/'
  }

  predicate IsAlias(alias: string) {
    |alias| > 1 && alias[0] == '/' && '/' !in alias[1..]
  }

  /** The components after the first, joined. */
  function Rest(stack: seq<string>): string {
    if |stack| <= 1 then "" else Canonical(stack[1..])[1..]
  }

  lemma {:induction false} CanonicalHead(stack: seq<string>)
    requires stack != []
    ensures Canonical(stack) == "/" + stack[0] + if |stack| == 1 then "" else Canonical(stack[1..])
    decreases |stack|
  {
    hide Dir, Canonical;
    var init, last := stack[..|stack| - 1], stack[|stack| - 1];
    assert stack == init + [last];
    CanonicalLast(init, last);
    if |stack| == 1 {
      Glue("", last);
    } else {
      CanonicalHead(init);
      assert stack[1..] == init[1..] + [last];
      CanonicalLast(init[1..], last);
      Regroup(init[0], if |init| == 1 then "" else Canonical(init[1..]), last);
    }
  }

  lemma Glue(s: string, last: string)
    requires s == ""
    ensures s + "/" + last == "/" + last + ""
  {
  }

  lemma Regroup(head: string, mid: string, last: string)
    ensures "/" + head + mid + "/" + last == "/" + head + (mid + "/" + last)
  {
  }

  /** No slash in a path that an alias matches, but for the first. */
  lemma NoSlashInside(alias: string, path: string)
    requires IsAlias(alias) && |alias| <= |path| && EqualFolded(alias, path[..|alias|])
    ensures forall k :: 0 < k < |alias| ==> path[k] != '/'
  {
    forall k | 0 < k < |alias|
      ensures path[k] != '/'
    {
      assert alias[k] == alias[1..][k - 1] && path[..|alias|][k] == path[k];
    }
  }

  /** An alias is found in a canonical path exactly if it is its first component, whatever the case of the
      letters: a longer or shorter name does not match. */
  lemma AliasMatches(alias: string, stack: seq<string>)
    requires IsAlias(alias) && AllProper(stack) && stack != []
    ensures EqualFolded(alias, Canonical(stack)) || FoldedBefore(alias, Canonical(stack)) <==>
              EqualFolded(alias, "/" + stack[0])
    ensures EqualFolded(alias, "/" + stack[0]) ==>
              var rest := Canonical(stack)[|alias|..];
              (if |stack| == 1 then rest == "" == Rest(stack)
               else rest != "" && rest[0] == '/' && rest[1..] == Rest(stack))
  {
    hide Canonical, Dir;
    CanonicalHead(stack);
    assert Proper(stack[0]);
    var path, head := Canonical(stack), "/" + stack[0];
    assert path[..|head|] == head;
    if EqualFolded(alias, path) {
      assert path[..|alias|] == path;
      NoSlashInside(alias, path);
    }
    if FoldedBefore(alias, path) {
      SlashAt(path, head, alias);
    }
  }

  /** A slash behind the alias is the first one behind the first component. */
  lemma SlashAt(path: string, head: string, alias: string)
    requires IsAlias(alias) && FoldedBefore(alias, path) && head != "" && '/' !in head[1..] && head <= path
    requires |path| == |head| || path[|head|] == '/'
    ensures |alias| == |head| && EqualFolded(alias, head)
  {
    NoSlashInside(alias, path);
    forall k | 0 < k < |head|
      ensures path[k] != '/'
    {
      assert path[k] == head[k] == head[1..][k - 1];
    }
    assert path[..|alias|] == head;
  }

  /** With aliases that differ in more than the case of letters a path is on one device at most. */
  lemma OneMatch(devices: seq<Device>, name: string, i: nat, j: nat)
    requires forall a, b :: 0 <= a < b < |devices| ==> !EqualFolded(devices[a].alias, devices[b].alias)
    requires i < |devices| && EqualFolded(devices[i].alias, "/" + name)
    requires j < |devices| && EqualFolded(devices[j].alias, "/" + name)
    ensures j == i
  {
  }

  /** Which letters the comparison takes for the same. */
  lemma FoldedAre(a: string, b: string)
    ensures EqualFolded(a, b) <==>
              |a| == |b| && forall i :: 0 <= i < |a| ==>
                a[i] == b[i] || ('A' <= a[i] <= 'Z' && b[i] as int == a[i] as int + 32)
                || ('A' <= b[i] <= 'Z' && a[i] as int == b[i] as int + 32)
  {
    hide Lower;
    if |a| == |b| {
      forall i | 0 <= i < |a|
        ensures Lower(a[i]) == Lower(b[i]) <==>
                  a[i] == b[i] || ('A' <= a[i] <= 'Z' && b[i] as int == a[i] as int + 32)
                  || ('A' <= b[i] <= 'Z' && a[i] as int == b[i] as int + 32)
      {
        SameLetter(a[i], b[i]);
      }
    }
  }

  lemma SameLetter(c: char, d: char)
    ensures Lower(c) == Lower(d) <==>
              c == d || ('A' <= c <= 'Z' && d as int == c as int + 32) || ('A' <= d <= 'Z' && c as int == d as int + 32)
  {
  }

  /** The system path for a client path, which is on the first device with a fitting alias, the `i`-th. "" stands for
      the root that lists the devices. */
  method ToRealPath(cwd: string, virtualPath: string, devices: seq<Device>, maxPathLen: nat)
    returns (r: RealPath, ghost i: nat)
    requires cwd != "" && cwd[0] == '/' && '\0' !in cwd && '\0' !in virtualPath
    requires forall i :: 0 <= i < |devices| ==> IsAlias(devices[i].alias)
    ensures ':' in virtualPath
            || ((virtualPath == "" || virtualPath[0] != '/') && |cwd| + |virtualPath| + 1 > maxPathLen)
            ==> r == NoPath(ENOENT)
    ensures ':' !in virtualPath
            && ((virtualPath != "" && virtualPath[0] == '/') || |cwd| + |virtualPath| + 1 <= maxPathLen) ==>
              var path := if virtualPath != "" && virtualPath[0] == '/' then virtualPath else cwd + virtualPath;
              var stack := Meaning(path);
              if stack == [] then r == Real("")
              else
                && i <= |devices| && (forall j :: 0 <= j < i ==> !EqualFolded(devices[j].alias, "/" + stack[0]))
                && if i == |devices| then r == NoPath(ENODEV)
                   else EqualFolded(devices[i].alias, "/" + stack[0])
                        && var full := devices[i].prefix + Rest(stack);
                           r == if |full| + 1 <= maxPathLen then Real(full) else NoPath(ENOENT)
  {
    i := 0;
    hide Canonical, Meaning, Dir, EqualFolded, FoldedBefore, Rest;
    if ':' in virtualPath {
      return NoPath(ENOENT), i;
    }
    var ok, path := VirtualAbspath(cwd, virtualPath, maxPathLen);
    if !ok {
      return NoPath(ENOENT), i;
    }
    ghost var joined := if virtualPath != "" && virtualPath[0] == '/' then virtualPath else cwd + virtualPath;
    ghost var stack := Meaning(joined);
    MeaningIsProper(joined);
    CanonicalRoot();
    RootIsShort(stack);
    if path == "/" {
      return Real(""), i;
    }
    r, i := OnDevice(path, devices, maxPathLen, stack);
  }

  /** The part of the look-up behind the test for the root. */
  method OnDevice(path: string, devices: seq<Device>, maxPathLen: nat, ghost stack: seq<string>)
    returns (r: RealPath, i: nat)
    requires AllProper(stack) && stack != [] && path == Canonical(stack)
    requires forall i :: 0 <= i < |devices| ==> IsAlias(devices[i].alias)
    ensures i <= |devices| && forall j :: 0 <= j < i ==> !EqualFolded(devices[j].alias, "/" + stack[0])
    ensures if i == |devices| then r == NoPath(ENODEV)
            else EqualFolded(devices[i].alias, "/" + stack[0])
                 && var full := devices[i].prefix + Rest(stack);
                    r == if |full| + 1 <= maxPathLen then Real(full) else NoPath(ENOENT)
  {
    hide Canonical, Dir, EqualFolded, FoldedBefore, Rest;
    i := 0;
    while i < |devices|
      invariant i <= |devices| && forall j :: 0 <= j < i ==> !EqualFolded(devices[j].alias, "/" + stack[0])
    {
      var alias := devices[i].alias;
      AliasMatches(alias, stack);
      if EqualFolded(alias, path) || FoldedBefore(alias, path) {
        AliasFits(alias, stack);
        var rest := path[|alias|..];
        if rest != "" && rest[0] == '/' {
          rest := rest[1..];
        }
        var full := devices[i].prefix + rest;
        if |full| + 1 <= maxPathLen {
          return Real(full), i;
        }
        return NoPath(ENOENT), i;
      }
      i := i + 1;
    }
    r := NoPath(ENODEV);
  }

  lemma AliasFits(alias: string, stack: seq<string>)
    requires stack != [] && EqualFolded(alias, "/" + stack[0])
    ensures |alias| <= |Canonical(stack)|
  {
    CanonicalHead(stack);
  }

  /** What is behind the prefix is a proper path again: it means the components after the first. */
  lemma RestMeans(stack: seq<string>)
    requires AllProper(stack) && stack != []
    ensures Meaning("/" + Rest(stack)) == stack[1..]
  {
    hide Meaning, Dir;
    if |stack| == 1 {
      assert "/" + "" == "/";
      RootMeans();
    } else {
      CanonicalMeans(stack[1..]);
      var s := Canonical(stack[1..]);
      assert "/" + s[1..] == s;
    }
  }
}
