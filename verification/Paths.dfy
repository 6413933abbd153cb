/** Paths as stacks of components: what "." and ".." and repeated slashes mean. */
module Paths {

  /** The parts between the separators; one more than there are separators. */
  function Split(s: string): (parts: seq<string>)
    ensures |parts| > 0
    decreases |s|
  {
    if s == "" then [""]
    else
      var front, c := Split(s[..|s| - 1]), s[|s| - 1];
      if c == '/' then front + [""] else front[..|front| - 1] + [front[|front| - 1] + [c]]
  }

  lemma {:induction false} PartsHaveNoSlash(s: string)
    ensures forall i :: 0 <= i < |Split(s)| ==> '/' !in Split(s)[i]
    decreases |s|
  {
    if s != "" {
      PartsHaveNoSlash(s[..|s| - 1]);
    }
  }

  /** One more component: empty ones and "." change nothing, ".." leaves a directory, and the root stays
      the root. */
  function Push(stack: seq<string>, part: string): seq<string> {
    if part == "" || part == "." then stack
    else if part == ".." then if stack == [] then [] else stack[..|stack| - 1]
    else stack + [part]
  }

  function Resolve(parts: seq<string>): seq<string> {
    if parts == [] then [] else Push(Resolve(parts[..|parts| - 1]), parts[|parts| - 1])
  }

  /** The directory a path names. */
  function Meaning(path: string): seq<string> {
    Resolve(Split(path))
  }

  /** "/" and then every component followed by "/". */
  function Dir(stack: seq<string>): (s: string)
    ensures |s| > 0 && s[0] == '/' && s[|s| - 1] == '/'
  {
    if stack == [] then "/" else Dir(stack[..|stack| - 1]) + stack[|stack| - 1] + "/"
  }

  /** The canonical path: no slash at the end, but for the root. */
  function Canonical(stack: seq<string>): (s: string)
    ensures |s| > 0 && s[0] == '/'
  {
    if stack == [] then "/" else Dir(stack[..|stack| - 1]) + stack[|stack| - 1]
  }

  predicate Proper(part: string) {
    part != "" && part != "." && part != ".." && '/' !in part
  }

  predicate AllProper(stack: seq<string>) {
    forall i :: 0 <= i < |stack| ==> Proper(stack[i])
  }

  lemma {:induction false} ResolveIsProper(parts: seq<string>)
    requires forall i :: 0 <= i < |parts| ==> '/' !in parts[i]
    ensures AllProper(Resolve(parts))
  {
    if parts != [] {
      ResolveIsProper(parts[..|parts| - 1]);
    }
  }

  /** One more character of a path. */
  lemma SplitMore(s: string, c: char)
    ensures var p := Split(s);
            Split(s + [c]) == if c == '/' then p + [""] else p[..|p| - 1] + [p[|p| - 1] + [c]]
  {
    assert (s + [c])[..|s|] == s;
  }

  lemma ResolveMore(parts: seq<string>, part: string)
    ensures Resolve(parts + [part]) == Push(Resolve(parts), part)
  {
    assert (parts + [part])[..|parts|] == parts;
  }

  /** A component without separators is split off as it is. */
  lemma {:induction false} SplitComponent(s: string, part: string)
    requires '/' !in part
    ensures Split(s + "/" + part) == Split(s) + [part]
  {
    if part == "" {
      assert s + "/" + part == s + "/";
      SplitMore(s, '/');
    } else {
      var init, c := part[..|part| - 1], part[|part| - 1];
      SplitComponent(s, init);
      assert s + "/" + part == s + "/" + init + [c];
      SplitMore(s + "/" + init, c);
      assert part == init + [c];
    }
  }

  /** The parts of a canonical path: nothing before the first slash, then the components. */
  function Rooted(stack: seq<string>): (parts: seq<string>)
    ensures |parts| == |stack| + 1
  {
    [""] + stack
  }

  lemma RootedMore(stack: seq<string>, last: string)
    ensures Rooted(stack) + [last] == Rooted(stack + [last])
  {
  }

  lemma {:induction false} RootedMeans(stack: seq<string>)
    requires AllProper(stack)
    ensures Resolve(Rooted(stack)) == stack
  {
    hide Rooted, Resolve;
    if stack == [] {
      RootedNone();
      ResolveOne("");
    } else {
      var init, last := stack[..|stack| - 1], stack[|stack| - 1];
      assert Proper(last) && stack == init + [last];
      RootedMeans(init);
      RootedMore(init, last);
      ResolveMore(Rooted(init), last);
    }
  }

  lemma RootedNone()
    ensures Rooted([]) == [""]
  {
  }

  lemma ResolveOne(part: string)
    ensures Resolve([part]) == Push([], part)
  {
    ResolveMore([], part);
    assert [] + [part] == [part];
  }

  /** The canonical path of a stack of components is split into them again. */
  lemma {:induction false} CanonicalSplit(stack: seq<string>)
    requires AllProper(stack)
    ensures stack != [] ==> Split(Canonical(stack)) == Rooted(stack)
  {
    hide Split, Rooted, Dir, Canonical;
    if stack != [] {
      var init, last := stack[..|stack| - 1], stack[|stack| - 1];
      assert Proper(last) && stack == init + [last];
      CanonicalSplit(init);
      CanonicalLast(init, last);
      var front := if init == [] then "" else Canonical(init);
      SplitComponent(front, last);
      RootedMore(init, last);
      RootedNone();
      SplitEmpty();
    }
  }

  lemma CanonicalLast(init: seq<string>, last: string)
    ensures Canonical(init + [last]) == (if init == [] then "" else Canonical(init)) + "/" + last
  {
    DirIsCanonical(init);
    assert (init + [last])[..|init|] == init;
    assert "" + "/" == "/";
  }

  lemma SplitEmpty()
    ensures Split("") == [""]
  {
  }

  /** The canonical path of a stack of proper components means that stack. */
  lemma CanonicalMeans(stack: seq<string>)
    requires AllProper(stack)
    ensures Meaning(Canonical(stack)) == stack
  {
    if stack == [] {
      RootMeans();
    } else {
      CanonicalSplit(stack);
      RootedMeans(stack);
    }
  }

  lemma RootMeans()
    ensures Meaning("/") == []
  {
    hide Split, Resolve;
    SplitEmpty();
    SplitMore("", '/');
    assert "" + ['/'] == "/";
    ResolveMore([""], "");
    ResolveOne("");
  }

  lemma DirIsCanonical(stack: seq<string>)
    ensures Dir(stack) == if stack == [] then "/" else Canonical(stack) + "/"
  {
  }

  /** Normalising twice is normalising once. */
  lemma Idempotent(path: string)
    ensures Canonical(Meaning(Canonical(Meaning(path)))) == Canonical(Meaning(path))
  {
    PartsHaveNoSlash(path);
    ResolveIsProper(Split(path));
    CanonicalMeans(Meaning(path));
  }

  /** A canonical path ends in a slash only if it is the root. */
  lemma NoTrailingSlash(stack: seq<string>)
    requires AllProper(stack)
    ensures var s := Canonical(stack); s[|s| - 1] == '/' <==> stack == []
  {
    if stack != [] {
      var last := stack[|stack| - 1];
      assert Proper(last) && Canonical(stack)[|Canonical(stack)| - 1] == last[|last| - 1];
    }
  }

  /** What one more component does: an empty one and "." nothing, ".." drops the last directory if there is one, and
      any other goes down. */
  lemma OneMore(path: string, part: string)
    requires '/' !in part
    ensures Meaning("") == []
    ensures part == "" || part == "." ==> Meaning(path + "/" + part) == Meaning(path)
    ensures part == ".." ==>
              Meaning(path + "/" + part) == if Meaning(path) == [] then [] else Meaning(path)[..|Meaning(path)| - 1]
    ensures part != "" && part != "." && part != ".." ==> Meaning(path + "/" + part) == Meaning(path) + [part]
  {
    hide Split, Resolve;
    SplitComponent(path, part);
    ResolveMore(Split(path), part);
    SplitEmpty();
    ResolveOne("");
  }

  /** The canonical path of a directory in another is that of the other, a slash, and its name. */
  lemma CanonicalMore(stack: seq<string>, name: string)
    requires AllProper(stack) && Proper(name)
    ensures Canonical([]) == "/" && Canonical([name]) == "/" + name
    ensures stack != [] ==> Canonical(stack + [name]) == Canonical(stack) + "/" + name
    ensures Meaning(Canonical(stack + [name]) + "/..") == stack
  {
    hide Canonical, Dir, Split, Resolve;
    CanonicalLast(stack, name);
    CanonicalLast([], name);
    assert [] + [name] == [name] && "" + "/" + name == "/" + name;
    CanonicalNone();
    CanonicalMeans(stack + [name]);
    OneMore(Canonical(stack + [name]), "..");
    assert Canonical(stack + [name]) + "/" + ".." == Canonical(stack + [name]) + "/..";
  }

  lemma CanonicalNone()
    ensures Canonical([]) == "/"
  {
  }

  /** Going on from a directory: a path relative to it means what its components do to the stack. */
  function Follow(stack: seq<string>, parts: seq<string>): seq<string>
    decreases |parts|
  {
    if parts == [] then stack else Push(Follow(stack, parts[..|parts| - 1]), parts[|parts| - 1])
  }

  lemma {:induction false} FollowResolve(a: seq<string>, b: seq<string>)
    ensures Resolve(a + b) == Follow(Resolve(a), b)
    decreases |b|
  {
    if b == [] {
      assert a + b == a;
    } else {
      FollowResolve(a, b[..|b| - 1]);
      assert a + b == a + b[..|b| - 1] + [b[|b| - 1]];
      ResolveMore(a + b[..|b| - 1], b[|b| - 1]);
    }
  }

  lemma {:induction false} SplitConcat(s: string, t: string)
    ensures Split(s + "/" + t) == Split(s) + Split(t)
    decreases |t|
  {
    hide Split;
    if t == "" {
      SplitMore(s, '/');
      SplitEmpty();
      assert s + "/" + t == s + ['/'];
    } else {
      var init, c := t[..|t| - 1], t[|t| - 1];
      SplitConcat(s, init);
      assert t == init + [c];
      SplitMore(init, c);
      LastSlash(s, init, c);
      SplitMore(s + "/" + init, c);
      LastOf(Split(s), Split(init), c);
    }
  }

  lemma LastSlash(s: string, init: string, c: char)
    ensures s + "/" + (init + [c]) == s + "/" + init + [c]
  {
  }

  lemma LastOf(a: seq<string>, b: seq<string>, c: char)
    requires |b| > 0
    ensures a + b + [""] == a + (b + [""])
    ensures (a + b)[..|a + b| - 1] + [(a + b)[|a + b| - 1] + [c]] == a + (b[..|b| - 1] + [b[|b| - 1] + [c]])
  {
    var x, y := (a + b)[..|a + b| - 1] + [(a + b)[|a + b| - 1] + [c]], a + (b[..|b| - 1] + [b[|b| - 1] + [c]]);
    assert |x| == |y|;
    assert forall i :: 0 <= i < |x| ==> x[i] == y[i];
  }

  /** A path appended to a working directory is followed from there. */
  lemma RelativeMeans(stack: seq<string>, path: string)
    requires AllProper(stack)
    ensures Meaning(Dir(stack) + path) == Follow(stack, Split(path))
  {
    hide Split, Resolve, Dir, Canonical, Follow, Rooted;
    var front := if stack == [] then "" else Canonical(stack);
    DirIsCanonical(stack);
    SplitConcat(front, path);
    assert "" + "/" == "/";
    SplitEmpty();
    RootedNone();
    CanonicalSplit(stack);
    RootedMeans(stack);
    FollowResolve(Split(front), Split(path));
  }
}
