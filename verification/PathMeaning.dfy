/** What a path name means: the place that it leads to from a working directory, by names and ".." alone. The
    path that sanitize_path gives is the shortest with the same meaning. */
module PathMeaning {
  import opened SanitizePath

  // ---------------------------------------------------------------- walking

  // A place is the list of names from the root. At the root, ".." leads to the root.
  function Go(place: seq<string>, e: string): seq<string> {
    if e == "." then place
    else if e == ".." then if place == [] then [] else place[..|place| - 1]
    else place + [e]
  }

  function Walk(place: seq<string>, es: seq<string>): seq<string>
    decreases |es|
  {
    if es == [] then place else Walk(Go(place, es[0]), es[1..])
  }

  // Where the path leads from the working directory cwd.
  function Destination(cwd: seq<string>, path: string): seq<string> {
    Walk(if Rooted(path) then [] else cwd, Elements(path))
  }

  // Both are absolute or both relative, and lead to the same place from everywhere.
  ghost predicate Equivalent(s: string, t: string) {
    (Rooted(s) <==> Rooted(t)) && forall cwd :: Destination(cwd, s) == Destination(cwd, t)
  }

  lemma {:induction false} WalkAppend(place: seq<string>, a: seq<string>, b: seq<string>)
    ensures Walk(place, a + b) == Walk(Walk(place, a), b)
    decreases |a|
  {
    if a == [] {
      assert a + b == b;
    } else {
      assert (a + b)[0] == a[0] && (a + b)[1..] == a[1..] + b;
      WalkAppend(Go(place, a[0]), a[1..], b);
    }
  }

  lemma WalkMore(place: seq<string>, stack: seq<string>, e: string)
    ensures Walk(place, stack + [e]) == Go(Walk(place, stack), e)
  {
    WalkAppend(place, stack, [e]);
    assert [e][1..] == [];
  }

  // ---------------------------------------------------------------- the meaning is kept

  lemma ApplyWalks(rooted: bool, stack: seq<string>, e: string, place: seq<string>)
    requires Clean(rooted, stack) && (rooted ==> place == [])
    ensures Walk(place, Apply(rooted, stack, e)) == Go(Walk(place, stack), e)
  {
    if e == ".." && stack != [] && stack[|stack| - 1] != ".." {
      var n := |stack| - 1;
      assert stack == stack[..n] + [stack[n]];
      WalkMore(place, stack[..n], stack[n]);
    } else if e != "." && !(e == ".." && rooted) {
      WalkMore(place, stack, e);
    }
  }

  lemma {:induction false} ResolveWalks(rooted: bool, stack: seq<string>, es: seq<string>, place: seq<string>)
    requires Clean(rooted, stack) && (forall i :: 0 <= i < |es| ==> Element(es[i])) && (rooted ==> place == [])
    ensures Walk(place, Resolve(rooted, stack, es)) == Walk(Walk(place, stack), es)
    decreases |es|
  {
    if es != [] {
      ApplyWalks(rooted, stack, es[0], place);
      ApplyClean(rooted, stack, es[0]);
      ResolveWalks(rooted, Apply(rooted, stack, es[0]), es[1..], place);
    }
  }

  // The stack of a path, which is clean.
  function StackOf(s: string): seq<string> {
    Resolve(Rooted(s), [], Elements(s))
  }

  lemma StackIsClean(s: string)
    ensures Clean(Rooted(s), StackOf(s))
  {
    ElementsAre(s);
    ResolveClean(Rooted(s), [], Elements(s));
  }

  lemma StackWalks(s: string, cwd: seq<string>)
    ensures Destination(cwd, s) == Walk(if Rooted(s) then [] else cwd, StackOf(s))
  {
    ElementsAre(s);
    ResolveWalks(Rooted(s), [], Elements(s), if Rooted(s) then [] else cwd);
  }

  lemma SanitizedParts(s: string)
    ensures Rooted(Sanitized(s)) == Rooted(s) && StackOf(Sanitized(s)) == StackOf(s)
  {
    var stack := StackOf(s);
    StackIsClean(s);
    if !Rooted(s) && stack == [] {
      assert ElementLength(".") == 1 && "."[1..] == [] && "."[..1] == ".";
      assert Elements(".") == ["."];
    } else {
      RenderRooted(Rooted(s), stack);
      ElementsOfRender(Rooted(s), stack);
      ResolveItself(Rooted(s), stack, 0);
      assert stack[..0] == [] && stack[0..] == stack;
    }
  }

  /** The sanitized path leads to the same place as the path, from every working directory. */
  lemma SameDestination(s: string)
    ensures Equivalent(Sanitized(s), s)
  {
    SanitizedParts(s);
    forall cwd ensures Destination(cwd, Sanitized(s)) == Destination(cwd, s) {
      StackWalks(s, cwd);
      StackWalks(Sanitized(s), cwd);
    }
  }

  // ---------------------------------------------------------------- equal meaning, equal path

  // A clean stack first goes up and then down.
  lemma {:induction false} CleanWalk(stack: seq<string>, place: seq<string>)
    requires Clean(false, stack) && Ups(stack) <= |place|
    ensures Walk(place, stack) == place[..|place| - Ups(stack)] + stack[Ups(stack)..]
    decreases |stack|
  {
    if stack != [] {
      TailClean(stack);
      CleanWalk(stack[1..], Go(place, stack[0]));
      if stack[0] != ".." { assert Ups(stack[1..]) == 0; }
    }
  }

  lemma TailClean(stack: seq<string>)
    requires Clean(false, stack) && stack != []
    ensures Clean(false, stack[1..]) && Ups(stack[1..]) == if stack[0] == ".." then Ups(stack) - 1 else 0
  {
    var rest := stack[1..];
    if stack[0] != ".." {
      assert forall i :: 0 <= i < |rest| ==> rest[i] == stack[i + 1];
    }
  }

  // A directory whose names cannot be path elements.
  function Strange(n: nat): seq<string> {
    seq(n, _ => "/")
  }

  lemma WalksApart(p: seq<string>, q: seq<string>, n: nat)
    requires Clean(false, p) && Clean(false, q) && n >= Ups(p) > Ups(q)
    ensures Walk(Strange(n), p) != Walk(Strange(n), q)
  {
    CleanWalk(p, Strange(n));
    CleanWalk(q, Strange(n));
    var v, w, k := Walk(Strange(n), p), Walk(Strange(n), q), n - Ups(p);
    assert k < |w| && w[k] == "/";
    assert k < |v| ==> v[k] == p[Ups(p)] && Element(p[Ups(p)]);
  }

  lemma SameStack(p: seq<string>, q: seq<string>, n: nat)
    requires Clean(false, p) && Clean(false, q) && n == Ups(p) + Ups(q)
    requires Walk(Strange(n), p) == Walk(Strange(n), q)
    ensures p == q
  {
    if Ups(p) > Ups(q) {
      WalksApart(p, q, n);
    } else if Ups(q) > Ups(p) {
      WalksApart(q, p, n);
    } else {
      var u, rest := Ups(p), Strange(n)[..n - Ups(p)];
      CleanWalk(p, Strange(n));
      CleanWalk(q, Strange(n));
      assert p[u..] == (rest + p[u..])[|rest|..] == (rest + q[u..])[|rest|..] == q[u..];
      assert p == p[..u] + p[u..] && q == q[..u] + q[u..];
      assert p[..u] == q[..u];
    }
  }

  lemma {:induction false} NamesWalk(stack: seq<string>, place: seq<string>)
    requires forall i :: 0 <= i < |stack| ==> stack[i] != "." && stack[i] != ".."
    ensures Walk(place, stack) == place + stack
    decreases |stack|
  {
    if stack != [] { NamesWalk(stack[1..], place + [stack[0]]); }
  }

  lemma EquivalentStacks(s: string, t: string)
    requires Equivalent(s, t)
    ensures StackOf(s) == StackOf(t)
  {
    var p, q := StackOf(s), StackOf(t);
    StackIsClean(s);
    StackIsClean(t);
    if Rooted(s) {
      assert Destination([], s) == Destination([], t);
      StackWalks(s, []);
      StackWalks(t, []);
      NamesWalk(p, []);
      NamesWalk(q, []);
      assert [] + p == p && [] + q == q;
    } else {
      var n := Ups(p) + Ups(q);
      assert Destination(Strange(n), s) == Destination(Strange(n), t);
      StackWalks(s, Strange(n));
      StackWalks(t, Strange(n));
      SameStack(p, q, n);
    }
  }

  lemma SanitizedEquivalent(s: string, t: string)
    requires Sanitized(s) == Sanitized(t)
    ensures Equivalent(s, t)
  {
    SameDestination(s);
    SameDestination(t);
  }

  /** Two paths are sanitized alike exactly when they are equivalent. */
  lemma SanitizedIsCanonical(s: string, t: string)
    ensures Sanitized(s) == Sanitized(t) <==> Equivalent(s, t)
  {
    if Sanitized(s) == Sanitized(t) { SanitizedEquivalent(s, t); }
    if Equivalent(s, t) { EquivalentStacks(s, t); }
  }

  // ---------------------------------------------------------------- no equivalent path is shorter

  // The length of the elements, each with a slash.
  function Weight(es: seq<string>): nat {
    if es == [] then 0 else |es[0]| + 1 + Weight(es[1..])
  }

  lemma {:induction false} WeightMore(es: seq<string>, e: string)
    ensures Weight(es + [e]) == Weight(es) + |e| + 1
    decreases |es|
  {
    if es != [] {
      assert (es + [e])[0] == es[0] && (es + [e])[1..] == es[1..] + [e];
      WeightMore(es[1..], e);
    } else {
      assert es + [e] == [e] && [e][1..] == [];
    }
  }

  lemma ApplyWeight(rooted: bool, stack: seq<string>, e: string)
    ensures Weight(Apply(rooted, stack, e)) <= Weight(stack) + |e| + 1
  {
    WeightMore(stack, e);
    if stack != [] {
      var n := |stack| - 1;
      assert stack == stack[..n] + [stack[n]];
      WeightMore(stack[..n], stack[n]);
    }
  }

  lemma {:induction false} ResolveWeight(rooted: bool, stack: seq<string>, es: seq<string>)
    ensures Weight(Resolve(rooted, stack, es)) <= Weight(stack) + Weight(es)
    decreases |es|
  {
    if es != [] {
      ApplyWeight(rooted, stack, es[0]);
      ResolveWeight(rooted, Apply(rooted, stack, es[0]), es[1..]);
    }
  }

  lemma {:induction false} ElementsWeight(s: string)
    ensures Weight(Elements(s)) <= |s| + if s != [] && s[0] != '/' then 1 else 0
    decreases |s|
  {
    if s != [] {
      if s[0] == '/' {
        ElementsWeight(s[1..]);
      } else {
        var k := ElementLength(s);
        ElementsWeight(s[k..]);
        assert k < |s| ==> s[k..][0] == '/';
        var es := [s[..k]] + Elements(s[k..]);
        assert es[0] == s[..k] && es[1..] == Elements(s[k..]);
      }
    }
  }

  lemma {:induction false} JoinWeight(stack: seq<string>)
    requires stack != []
    ensures |Join(stack)| + 1 == Weight(stack)
    decreases |stack|
  {
    var n := |stack| - 1;
    assert stack == stack[..n] + [stack[n]];
    WeightMore(stack[..n], stack[n]);
    if n > 0 { JoinWeight(stack[..n]); }
  }

  /** Sanitizing never makes a path longer, but for the empty one, which becomes ".". */
  lemma NeverLonger(s: string)
    requires s != ""
    ensures |Sanitized(s)| <= |s|
  {
    var stack := StackOf(s);
    ElementsWeight(s);
    ResolveWeight(Rooted(s), [], Elements(s));
    if stack != [] { JoinWeight(stack); }
  }

  /** No path that is not empty is equivalent to s and shorter than the sanitized path. */
  lemma SanitizedIsShortest(s: string, t: string)
    requires t != "" && Equivalent(s, t)
    ensures |Sanitized(s)| <= |t|
  {
    SanitizedIsCanonical(s, t);
    NeverLonger(t);
  }
}
