/** Path resolution: the names that `lfs_dir_find` looks up, and the form that
    `path_normalize` gives to a path before. */
module Path {
  import opened Wrappers

  // ----- components -----

  /** `strspn(name, "/")` and `strcspn(name, "/")`, as positions. */
  function SkipSlashes(s: string, i: nat): (j: nat)
    requires i <= |s|
    ensures i <= j <= |s| && (j < |s| ==> s[j] != '/') && forall k :: i <= k < j ==> s[k] == '/'
    decreases |s| - i
  {
    if i < |s| && s[i] == '/' then SkipSlashes(s, i + 1) else i
  }

  function NameEnd(s: string, i: nat): (j: nat)
    requires i <= |s|
    ensures i <= j <= |s| && (j < |s| ==> s[j] == '/') && forall k :: i <= k < j ==> s[k] != '/'
    decreases |s| - i
  {
    if i < |s| && s[i] != '/' then NameEnd(s, i + 1) else i
  }

  /** The names between the slashes from position i on. */
  function Components(s: string, i: nat): (r: seq<string>)
    requires i <= |s|
    decreases |s| - i
  {
    var j := SkipSlashes(s, i);
    if j == |s| then [] else [s[j..NameEnd(s, j)]] + Components(s, NameEnd(s, j))
  }

  lemma ComponentsSkip(s: string, i: nat)
    requires i <= |s|
    ensures Components(s, SkipSlashes(s, i)) == Components(s, i)
  {
  }

  // ----- resolution -----

  /** Going through the names with a stack of the directories entered. */
  function Stack(stack: seq<string>, names: seq<string>): (r: seq<string>)
    decreases |names|
  {
    if names == [] then stack
    else if names[0] == ".." then Stack(if stack == [] then [] else stack[..|stack| - 1], names[1..])
    else Stack(stack + [names[0]], names[1..])
  }

  function Without(names: seq<string>, name: string): (r: seq<string>)
    ensures name !in r && forall n :: n in r ==> n in names
    ensures name !in names ==> r == names
  {
    if names == [] then []
    else if names[0] == name then Without(names[1..], name)
    else [names[0]] + Without(names[1..], name)
  }

  /** What a path means: "." is nowhere else, ".." is one up. */
  function Resolve(names: seq<string>): seq<string> {
    Stack([], Without(names, "."))
  }

  // ----- lfs_dir_find -----

  /** How many names it takes until the one in front of them has been left again. */
  function Match(names: seq<string>, depth: nat): (r: Option<nat>)
    requires depth > 0
    ensures r.Some? ==> 0 < r.value <= |names|
    decreases |names|
  {
    if names == [] then None
    else if names[0] == ".." && depth == 1 then Some(1)
    else
      var rest := Match(names[1..], if names[0] == ".." then depth - 1 else depth + 1);
      if rest.Some? then Some(rest.value + 1) else None
  }

  /** The names that are looked up. */
  function Visited(names: seq<string>): (r: seq<string>)
    decreases |names|
  {
    if names == [] then []
    else if names[0] == "." || names[0] == ".." then Visited(names[1..])
    else
      var skip := Match(names[1..], 1);
      if skip.Some? then Visited(names[1..][skip.value..]) else [names[0]] + Visited(names[1..])
  }

  /** A directory that is left again is gone from the stack... */
  lemma {:induction false} MatchedLeaves(base: seq<string>, stack: seq<string>, names: seq<string>)
    requires stack != [] && Match(names, |stack|).Some?
    ensures Stack(base + stack, names) == Stack(base, names[Match(names, |stack|).value..])
    decreases |names|
  {
    var st := base + stack;
    assert st[..|st| - 1] == base + stack[..|stack| - 1];
    assert st + [names[0]] == base + (stack + [names[0]]);
    var k := Match(names, |stack|).value;
    if names[0] == ".." {
      if |stack| == 1 {
        assert base + [] == base;
        assert names[1..] == names[k..];
      } else {
        MatchedLeaves(base, stack[..|stack| - 1], names[1..]);
        assert names[1..][k - 1..] == names[k..];
      }
    } else {
      MatchedLeaves(base, stack + [names[0]], names[1..]);
      assert names[1..][k - 1..] == names[k..];
    }
  }

  /** ...and one that is not stays at the bottom. */
  lemma {:induction false} UnmatchedStays(c: string, stack: seq<string>, names: seq<string>)
    requires Match(names, |stack| + 1).None?
    ensures Stack([c] + stack, names) == [c] + Stack(stack, names)
    decreases |names|
  {
    if names != [] {
      var st := [c] + stack;
      if names[0] == ".." {
        assert st[..|st| - 1] == [c] + stack[..|stack| - 1];
        UnmatchedStays(c, stack[..|stack| - 1], names[1..]);
      } else {
        assert st + [names[0]] == [c] + (stack + [names[0]]);
        UnmatchedStays(c, stack + [names[0]], names[1..]);
      }
    }
  }

  /** A "." at the bottom makes no other difference than to be there or not. */
  lemma {:induction false} DotBelow(stack: seq<string>, names: seq<string>)
    ensures Stack(["."] + stack, names) == ["."] + Stack(stack, names) ||
            Stack(["."] + stack, names) == Stack(stack, names)
    decreases |names|
  {
    if names != [] {
      var st := ["."] + stack;
      if names[0] == ".." {
        if stack == [] {
          assert st[..|st| - 1] == [];
        } else {
          assert st[..|st| - 1] == ["."] + stack[..|stack| - 1];
          DotBelow(stack[..|stack| - 1], names[1..]);
        }
      } else {
        assert st + [names[0]] == ["."] + (stack + [names[0]]);
        DotBelow(stack + [names[0]], names[1..]);
      }
    }
  }

  lemma WithoutFirst(c: string, names: seq<string>, name: string)
    ensures Without([c] + names, name) == if c == name then Without(names, name) else [c] + Without(names, name)
  {
    assert ([c] + names)[1..] == names;
  }

  /** The look-ahead for ".." agrees with a stack on which "." is a name like any
      other, and is left out in the end. */
  lemma {:induction false} VisitedIsStack(names: seq<string>)
    ensures Visited(names) == Without(Stack([], names), ".")
    decreases |names|
  {
    if names != [] {
      var c, rest := names[0], names[1..];
      assert [] + [c] == [c] && [c] + [] == [c];
      if c == ".." {
        VisitedIsStack(rest);
      } else if c == "." {
        VisitedIsStack(rest);
        DotBelow([], rest);
        assert ["."] + [] == ["."];
        WithoutFirst(".", Stack([], rest), ".");
      } else if Match(rest, 1).Some? {
        MatchedLeaves([], [c], rest);
        VisitedIsStack(rest[Match(rest, 1).value..]);
      } else {
        UnmatchedStays(c, [], rest);
        VisitedIsStack(rest);
        WithoutFirst(c, Stack([], rest), ".");
      }
    }
  }

  lemma {:induction false} StackFrom(stack: seq<string>, names: seq<string>)
    ensures forall n :: n in Stack(stack, names) ==> n in stack || (n in names && n != "..")
    decreases |names|
  {
    if names != [] {
      var next := if names[0] != ".." then stack + [names[0]] else if stack == [] then [] else stack[..|stack| - 1];
      StackFrom(next, names[1..]);
    }
  }

  lemma {:induction false} WithoutAppend(a: seq<string>, b: seq<string>, name: string)
    ensures Without(a + b, name) == Without(a, name) + Without(b, name)
  {
    if a == [] {
      assert a + b == b;
    } else {
      assert (a + b)[1..] == a[1..] + b;
      WithoutAppend(a[1..], b, name);
    }
  }

  lemma {:induction false} StackPlain(stack: seq<string>, names: seq<string>)
    requires ".." !in names
    ensures Stack(stack, names) == stack + names
    decreases |names|
  {
    if names != [] {
      var c, rest := names[0], names[1..];
      assert names == [c] + rest;
      StackPlain(stack + [c], rest);
      assert (stack + [c]) + rest == stack + names;
    }
  }

  lemma {:induction false} StackAppend(stack: seq<string>, a: seq<string>, b: seq<string>)
    ensures Stack(stack, a + b) == Stack(Stack(stack, a), b)
    decreases |a|
  {
    if a == [] {
      assert a + b == b;
    } else {
      assert (a + b)[1..] == a[1..] + b;
      StackAppend(if a[0] != ".." then stack + [a[0]] else if stack == [] then [] else stack[..|stack| - 1], a[1..], b);
    }
  }

  function Pop(stack: seq<string>): seq<string> {
    if stack == [] then [] else stack[..|stack| - 1]
  }

  lemma StackNext(stack: seq<string>, names: seq<string>, c: string)
    ensures Stack(stack, names + [c]) == if c == ".." then Pop(Stack(stack, names)) else Stack(stack, names) + [c]
  {
    StackAppend(stack, names, [c]);
    assert [c][1..] == [];
  }

  /** The ".." at i leaves a "." for the scan, where the path leaves a directory. */
  ghost predicate LeavesDot(names: seq<string>, i: nat)
    requires i < |names|
  {
    var stack := Stack([], names[..i]);
    names[i] == ".." && stack != [] && stack[|stack| - 1] == "." && Resolve(names[..i]) != []
  }

  /** The stack is empty but for dots. */
  predicate AtRoot(names: seq<string>) {
    forall i :: 0 <= i < |Stack([], names)| ==> Stack([], names)[i] == "."
  }

  lemma AtRootIff(names: seq<string>)
    ensures AtRoot(names) <==> Visited(names) == []
  {
    hide Stack, Visited;
    VisitedIsStack(names);
    NothingButDots(Stack([], names));
  }

  lemma {:induction false} NothingButDots(s: seq<string>)
    ensures Without(s, ".") == [] <==> forall i :: 0 <= i < |s| ==> s[i] == "."
  {
    if s != [] {
      NothingButDots(s[1..]);
      WithoutFirst(s[0], s[1..], ".");
      assert [s[0]] + s[1..] == s;
    }
  }

  /** Later the scan is back at the root. */
  ghost predicate BackAtRoot(names: seq<string>, i: nat) {
    exists j :: i < j <= |names| && AtRoot(names[..j])
  }

  /** Whatever went wrong was made up for. */
  ghost predicate Recovers(names: seq<string>) {
    forall i :: 0 <= i < |names| && LeavesDot(names, i) ==> BackAtRoot(names, i)
  }

  lemma VisitedNext(names: seq<string>, c: string)
    ensures var stack, visited := Stack([], names), Visited(names);
      Visited(names + [c]) ==
        if c == "." then visited
        else if c != ".." then visited + [c]
        else if stack != [] && stack[|stack| - 1] == "." then visited
        else Pop(visited)
    ensures Stack([], names) == [] ==> Visited(names) == []
    ensures Stack([], names) != [] && Stack([], names)[|Stack([], names)| - 1] != "." ==> Visited(names) != []
  {
    hide Stack, Visited;
    var stack := Stack([], names);
    VisitedIsStack(names);
    VisitedIsStack(names + [c]);
    StackNext([], names, c);
    if stack != [] {
      var top := stack[|stack| - 1];
      assert stack == Pop(stack) + [top];
      WithoutAppend(Pop(stack), [top], ".");
      WithoutOne(top, ".");
    }
    WithoutAppend(stack, [c], ".");
    WithoutOne(c, ".");
  }

  lemma WithoutOne(c: string, name: string)
    ensures Without([c], name) == if c == name then [] else [c]
  {
    assert [c] + [] == [c];
    WithoutFirst(c, [], name);
  }

  lemma ResolveNext(names: seq<string>, c: string)
    ensures Resolve(names + [c]) ==
      if c == "." then Resolve(names) else if c == ".." then Pop(Resolve(names)) else Resolve(names) + [c]
  {
    hide Stack;
    WithoutAppend(names, [c], ".");
    WithoutOne(c, ".");
    assert Without(names, ".") + [] == Without(names, ".");
    StackNext([], Without(names, "."), c);
  }

  lemma RecoversNext(names: seq<string>, c: string)
    ensures var next := names + [c];
      Recovers(next) <==> AtRoot(next) || (Recovers(names) && !LeavesDot(next, |names|))
  {
    hide AtRoot, Resolve, LeavesDot;
    var next, n := names + [c], |names|;
    assert forall j :: 0 <= j <= n ==> next[..j] == names[..j];
    assert next[..n + 1] == next;
    forall i | 0 <= i < n ensures LeavesDot(next, i) <==> LeavesDot(names, i) {
      LeavesPrefix(names, c, i);
    }
    if AtRoot(next) {
      forall i | 0 <= i < |next| ensures BackAtRoot(next, i) {
        assert i < |next| <= |next| && AtRoot(next[..n + 1]);
      }
    } else {
      forall i | 0 <= i < n ensures BackAtRoot(next, i) <==> BackAtRoot(names, i) {
        BackPrefix(names, c, i);
      }
      assert !BackAtRoot(next, n);
      if Recovers(next) {
        forall i | 0 <= i < |names| && LeavesDot(names, i) ensures BackAtRoot(names, i) {
          assert LeavesDot(next, i);
        }
      }
    }
  }

  lemma LeavesPrefix(names: seq<string>, c: string, i: nat)
    requires i < |names|
    ensures LeavesDot(names + [c], i) <==> LeavesDot(names, i)
  {
    assert (names + [c])[..i] == names[..i];
  }

  lemma BackPrefix(names: seq<string>, c: string, i: nat)
    requires i < |names| && !AtRoot(names + [c])
    ensures BackAtRoot(names + [c], i) <==> BackAtRoot(names, i)
  {
    hide AtRoot;
    var next := names + [c];
    assert forall j :: 0 <= j <= |names| ==> next[..j] == names[..j];
    assert next[..|next|] == next;
    if BackAtRoot(next, i) {
      var j :| i < j <= |next| && AtRoot(next[..j]);
      assert AtRoot(names[..j]);
    }
    if BackAtRoot(names, i) {
      var j :| i < j <= |names| && AtRoot(names[..j]);
      assert AtRoot(next[..j]);
    }
  }

  /** Exactly when the lookups are those of the path's meaning: when no ".." left a "."
      instead of a directory, or the walk came back to the root after the last that
      did. They never are fewer. */
  lemma {:induction false} VisitedResolves(names: seq<string>)
    ensures |Resolve(names)| <= |Visited(names)|
    ensures Visited(names) == Resolve(names) <==> Recovers(names)
    ensures |Visited(names)| == |Resolve(names)| ==> Visited(names) == Resolve(names)
  {
    hide Stack, Visited, Resolve;
    if names == [] {
      NothingVisited();
    } else {
      var before, c := names[..|names| - 1], names[|names| - 1];
      assert names == before + [c];
      VisitedResolves(before);
      VisitedNext(before, c);
      ResolveNext(before, c);
      RecoversNext(before, c);
      AtRootIff(names);
      assert names[..|before|] == before;
    }
  }

  lemma NothingVisited()
    ensures Visited([]) == [] && Resolve([]) == []
  {
  }

  /** Without "." in the path they are. */
  lemma PlainResolves(names: seq<string>)
    requires "." !in names
    ensures Visited(names) == Resolve(names)
  {
    VisitedIsStack(names);
    StackFrom([], names);
  }

  /** Behind "a/./.." there is still "a". */
  lemma DotsMislead()
    ensures Visited(["a", ".", ".."]) == ["a"] && Resolve(["a", ".", ".."]) == []
  {
    var names := ["a", ".", ".."];
    assert names[1..] == [".", ".."] && [".", ".."][1..] == [".."] && [".."][1..] == [];
    assert Without([".."], ".") == [".."];
    assert Without([".", ".."], ".") == [".."];
    assert Without(names, ".") == ["a"] + [".."];
    assert (["a"] + [".."])[1..] == [".."];
    assert Stack(["a"], [".."]) == Stack([], []);
    assert [] + ["a"] == ["a"];
  }

  /** Position q is k names behind position i. */
  ghost predicate Behind(path: string, i: nat, k: nat, q: nat)
    requires i <= |path|
  {
    q <= |path| && k <= |Components(path, i)| && Components(path, q) == Components(path, i)[k..]
  }

  /** The scan for a ".." that matches the name in front: where the path goes on. */
  method MatchedBy(path: string, start: nat) returns (r: Option<nat>)
    requires start <= |path|
    ensures var names := Components(path, start);
      if Match(names, 1).None? then r == None else r.Some? && Behind(path, start, Match(names, 1).value, r.value)
    ensures r.Some? ==> start < r.value
  {
    hide SkipSlashes, NameEnd, Match, Components;
    ghost var names := Components(path, start);
    ghost var k := 0;
    var suffix, depth := start, 1;
    assert names[0..] == names;
    while true
      invariant start <= suffix <= |path| && depth > 0 && k <= |names| && Components(path, suffix) == names[k..]
      invariant Match(names, 1) == Plus(k, Match(names[k..], depth))
      decreases |path| - suffix
    {
      var at := SkipSlashes(path, suffix);
      if at == |path| {
        NamesEnd(path, suffix);
        return None;
      }
      var end := NameEnd(path, at);
      NameNotEmpty(path, suffix);
      assert names[k] == names[k..][0] == path[at..end];
      MatchStep(names, k, depth);
      suffix, k := end, k + 1;
      if path[at..end] == ".." {
        depth := depth - 1;
        if depth == 0 {
          return Some(suffix);
        }
      } else {
        depth := depth + 1;
      }
    }
  }

  function Plus(k: nat, m: Option<nat>): Option<nat> {
    if m.Some? then Some(k + m.value) else None
  }

  lemma NamesEnd(path: string, i: nat)
    requires i <= |path| && SkipSlashes(path, i) == |path|
    ensures Components(path, i) == [] && forall depth: nat :: depth > 0 ==> Match([], depth) == None
  {
  }

  lemma MatchStep(names: seq<string>, k: nat, depth: nat)
    requires k < |names| && depth > 0
    ensures names[k..][1..] == names[k + 1..]
    ensures Plus(k, Match(names[k..], depth)) ==
      if names[k] == ".." && depth == 1 then Some(k + 1)
      else Plus(k + 1, Match(names[k + 1..], if names[k] == ".." then depth - 1 else depth + 1))
  {
    assert names[k..][1..] == names[k + 1..];
  }

  lemma NameNotEmpty(s: string, i: nat)
    requires i <= |s| && SkipSlashes(s, i) < |s|
    ensures var j := SkipSlashes(s, i); var k := NameEnd(s, j);
      i <= j < k && s[j..k] != "" && Components(s, i) == [s[j..k]] + Components(s, k)
  {
  }

  /** The walk of `lfs_dir_find`, as long as it finds directories. */
  method Find(path: string) returns (visited: seq<string>)
    ensures visited == Visited(Components(path, 0))
  {
    hide SkipSlashes, NameEnd, Match;
    visited := [];
    var name := 0;
    while true
      invariant name <= |path| && Visited(Components(path, 0)) == visited + Visited(Components(path, name))
      decreases |path| - name
    {
      ghost var names := Components(path, name);
      var at := SkipSlashes(path, name);
      var end := NameEnd(path, at);
      if path[at..end] == "." || path[at..end] == ".." {
        NameNotEmpty(path, name);
        assert names[1..] == Components(path, end);
        name := end;
        continue;
      }
      var skip := MatchedBy(path, end);
      if at < |path| {
        NameNotEmpty(path, name);
        assert names[1..] == Components(path, end);
      } else {
        NoNames(path, end);
      }
      if skip.Some? {
        name := skip.value;
        continue;
      }
      if at == |path| {
        break;
      }
      visited := visited + [path[at..end]];
      name := end;
    }
  }

  lemma NoNames(s: string, end: nat)
    requires end == NameEnd(s, |s|)
    ensures Components(s, end) == [] && Match([], 1) == None
  {
  }

  // ----- path_normalize -----

  /** `split("/")`: what is between slashes, also where that is nothing. */
  function Pieces(s: string, i: nat): (r: seq<string>)
    requires i <= |s|
    decreases |s| - i
  {
    var k := NameEnd(s, i);
    if k == |s| then [s[i..k]] else [s[i..k]] + Pieces(s, k + 1)
  }

  lemma {:induction false} PiecesAreComponents(s: string, i: nat)
    requires i <= |s|
    ensures Without(Pieces(s, i), "") == Components(s, i)
    decreases |s| - i
  {
    hide Without, Components, NameEnd;
    var k := NameEnd(s, i);
    var rest := if k == |s| then [] else Pieces(s, k + 1);
    assert Pieces(s, i) == [s[i..k]] + rest;
    WithoutFirst(s[i..k], rest, "");
    FirstComponent(s, i);
    if k < |s| {
      PiecesAreComponents(s, k + 1);
      assert SkipSlashes(s, k) == SkipSlashes(s, k + 1);
      ComponentsSkip(s, k);
      ComponentsSkip(s, k + 1);
    } else {
      NothingLeft(s);
    }
  }

  lemma FirstComponent(s: string, i: nat)
    requires i <= |s|
    ensures var k := NameEnd(s, i);
      Components(s, i) == if k == i then Components(s, k) else [s[i..k]] + Components(s, k)
  {
    if NameEnd(s, i) > i {
      assert SkipSlashes(s, i) == i;
    }
  }

  lemma NothingLeft(s: string)
    ensures Components(s, |s|) == [] && Without([], "") == []
  {
    NoNames(s, |s|);
  }

  /** `join("/")`. */
  function Joined(names: seq<string>): (r: string) {
    if names == [] then "" else if |names| == 1 then names[0] else names[0] + "/" + Joined(names[1..])
  }

  /** Names as they can occur in a normalized path. */
  ghost predicate Clean(names: seq<string>) {
    forall k :: 0 <= k < |names| ==> CleanName(names[k])
  }

  predicate CleanName(name: string) {
    name != "" && name != "." && name != ".." && forall j :: 0 <= j < |name| ==> name[j] != '/'
  }

  /** The form of a normalized path. */
  function Form(names: seq<string>, absolute: bool): string {
    if names == [] then "/" else if absolute then "/" + Joined(names) else Joined(names)
  }

  function Absolute(path: string): bool {
    path != "" && path[0] == '/'
  }

  lemma FirstName(s: string, i: nat, name: string)
    requires i + |name| <= |s| && s[i..i + |name|] == name && CleanName(name)
    requires i + |name| < |s| ==> s[i + |name|] == '/'
    ensures Components(s, i) == [name] + Components(s, i + |name|)
  {
    assert forall j :: 0 <= j < |name| ==> s[i + j] == s[i..i + |name|][j] == name[j];
    assert SkipSlashes(s, i) == i;
    EndOfName(s, i, i + |name|);
  }

  lemma {:induction false} EndOfName(s: string, i: nat, end: nat)
    requires i <= end <= |s| && (forall j :: i <= j < end ==> s[j] != '/') && (end < |s| ==> s[end] == '/')
    ensures NameEnd(s, i) == end
    decreases end - i
  {
    if i < end {
      EndOfName(s, i + 1, end);
    }
  }

  lemma LastName(prefix: string, name: string)
    requires CleanName(name)
    ensures Components(prefix + name, |prefix|) == [name]
  {
    var s := prefix + name;
    FirstName(s, |prefix|, name);
    NoNames(s, |s|);
  }

  lemma NextName(prefix: string, name: string, rest: string)
    requires CleanName(name)
    ensures var s := prefix + name + "/" + rest; var end := |prefix| + |name| + 1;
      end <= |s| && Components(s, |prefix|) == [name] + Components(s, end)
  {
    hide Components;
    var s, end := prefix + name + "/" + rest, |prefix| + |name|;
    assert s[|prefix|..end] == name && s[end] == '/';
    FirstName(s, |prefix|, name);
    assert SkipSlashes(s, end) == SkipSlashes(s, end + 1);
    ComponentsSkip(s, end);
    ComponentsSkip(s, end + 1);
  }

  /** Joined names are found again. */
  lemma {:induction false} JoinedComponents(prefix: string, names: seq<string>)
    requires Clean(names)
    ensures Components(prefix + Joined(names), |prefix|) == names
    decreases |names|
  {
    hide CleanName, Components;
    if |names| == 0 {
      assert prefix + "" == prefix;
      NoNames(prefix, |prefix|);
    } else if |names| == 1 {
      LastName(prefix, names[0]);
    } else {
      var name, rest := names[0], Joined(names[1..]);
      var prefix' := prefix + name + "/";
      assert prefix + Joined(names) == prefix' + rest;
      NextName(prefix, name, rest);
      JoinedComponents(prefix', names[1..]);
    }
  }

  lemma FormComponents(names: seq<string>, absolute: bool)
    requires Clean(names)
    ensures Components(Form(names, absolute), 0) == names
  {
    if names == [] {
      assert SkipSlashes("/", 0) == SkipSlashes("/", 1);
    } else if absolute {
      JoinedComponents("/", names);
      var s := "/" + Joined(names);
      assert SkipSlashes(s, 0) == SkipSlashes(s, 1);
      ComponentsSkip(s, 0);
      ComponentsSkip(s, 1);
    } else {
      JoinedComponents("", names);
      assert "" + Joined(names) == Joined(names);
    }
  }

  lemma {:induction false} ComponentsAreNames(s: string, i: nat)
    requires i <= |s|
    ensures forall n :: n in Components(s, i) ==> n != "" && forall j :: 0 <= j < |n| ==> n[j] != '/'
    decreases |s| - i
  {
    var j := SkipSlashes(s, i);
    if j < |s| {
      ComponentsAreNames(s, NameEnd(s, j));
    }
  }

  /** What a path resolves to is clean. */
  lemma ResolvedIsClean(path: string)
    ensures Clean(Resolve(Components(path, 0)))
  {
    var names := Components(path, 0);
    ComponentsAreNames(path, 0);
    StackFrom([], Without(names, "."));
    forall k | 0 <= k < |Resolve(names)| ensures CleanName(Resolve(names)[k]) {
      assert Resolve(names)[k] in Resolve(names);
    }
  }

  lemma CleanStays(names: seq<string>)
    requires Clean(names)
    ensures Without(names, ".") == names && Resolve(names) == names
  {
    hide Stack;
    StackPlain([], names);
  }

  /** Slashes only between names, and in front of them. */
  ghost predicate Tight(path: string) {
    path != "" && (|path| > 1 ==> path[|path| - 1] != '/') &&
    forall i :: 0 < i < |path| ==> !(path[i - 1] == '/' && path[i] == '/')
  }

  lemma FormIsTight(names: seq<string>, absolute: bool)
    ensures var form := Form(Resolve(names), absolute);
      (Clean(Resolve(names)) ==> Tight(form) && (Absolute(form) <==> absolute || Resolve(names) == []))
  {
    hide Resolve;
    if Clean(Resolve(names)) && Resolve(names) != [] {
      JoinedIsTight(Resolve(names));
      JoinedStart(Resolve(names));
    }
  }

  lemma {:induction false} JoinedIsTight(names: seq<string>)
    requires Clean(names) && names != []
    ensures Tight(Joined(names)) && Joined(names)[|Joined(names)| - 1] != '/'
  {
    var name, rest := names[0], names[1..];
    assert CleanName(name);
    if rest != [] {
      JoinedIsTight(rest);
      JoinedStart(rest);
      var tail, r := Joined(rest), Joined(names);
      assert r == name + "/" + tail;
      forall i | 0 < i < |r| ensures !(r[i - 1] == '/' && r[i] == '/') {
        if i < |name| {
          assert r[i] == name[i];
        } else if i == |name| {
          assert r[i - 1] == name[i - 1];
        } else if i == |name| + 1 {
          assert r[i] == tail[0];
        } else {
          assert r[i] == tail[i - |name| - 1] && r[i - 1] == tail[i - |name| - 2];
        }
      }
    }
  }

  /** `path_normalize`. */
  method Normalize(path: string) returns (r: string)
    ensures r == Form(Resolve(Components(path, 0)), Absolute(path))
    ensures Tight(r) && (Absolute(r) <==> Absolute(path) || Resolve(Components(path, 0)) == [])
  {
    FormIsTight(Components(path, 0), Absolute(path));
    hide Pieces, Components;
    if path == "." || path == ".." {
      OnlyDots(path);
      return "/";
    }
    var steps, stack := Pieces(path, 0), [];
    PiecesAreComponents(path, 0);
    for k := 0 to |steps|
      invariant Resolve(Components(path, 0)) == Stack(stack, Without(Without(steps[k..], ""), "."))
    {
      var step := steps[k];
      NextStep(steps, k);
      if step == "." || step == "" {
        continue;
      }
      if step == ".." {
        stack := if stack == [] then [] else stack[..|stack| - 1];
        continue;
      }
      stack := stack + [step];
    }
    r := Joined(stack);
    ResolvedIsClean(path);
    JoinedStart(stack);
    if r == "" {
      r := "/";
    }
    if Absolute(path) && !Absolute(r) {
      r := "/" + r;
    }
  }

  lemma NextStep(steps: seq<string>, k: nat)
    requires k < |steps|
    ensures var rest, more := Without(Without(steps[k..], ""), "."), Without(Without(steps[k + 1..], ""), ".");
      rest == if steps[k] == "" || steps[k] == "." then more else [steps[k]] + more
  {
    assert steps[k..] == [steps[k]] + steps[k + 1..];
    WithoutFirst(steps[k], steps[k + 1..], "");
    WithoutFirst(steps[k], Without(steps[k + 1..], ""), ".");
  }

  lemma JoinedStart(names: seq<string>)
    requires Clean(names)
    ensures !Absolute(Joined(names)) && (Joined(names) == "" <==> names == [])
  {
    if names != [] {
      assert CleanName(names[0]);
    }
  }

  lemma OnlyDots(path: string)
    requires path == "." || path == ".."
    ensures Resolve(Components(path, 0)) == []
  {
    EndOfName(path, 0, |path|);
    NoNames(path, |path|);
    assert path[0..|path|] == path;
    assert Components(path, 0) == [path] + [];
    assert [path] + [] == [path] && [path][1..] == [];
    WithoutFirst(path, [], ".");
    assert Without([], ".") == [];
    if path == ".." {
      assert Without([path], ".") == [path];
      assert Stack([], [path]) == Stack([], []);
    }
  }

  /** Normalizing leaves a path that means the same, without ".", ".." and empty
      names, which a second time does not change, and for which the lookups are
      those of the path's meaning. */
  lemma NormalizedMeans(path: string)
    ensures var names := Resolve(Components(path, 0));
      var form := Form(names, Absolute(path));
      Components(form, 0) == names && Clean(names) && Resolve(names) == names &&
      Form(Resolve(Components(form, 0)), Absolute(form)) == form &&
      Visited(Components(form, 0)) == names
  {
    var names := Resolve(Components(path, 0));
    ResolvedIsClean(path);
    FormComponents(names, Absolute(path));
    CleanStays(names);
    JoinedStart(names);
    PlainResolves(names);
  }
}
