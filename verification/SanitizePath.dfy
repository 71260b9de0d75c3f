/** sanitize_path of src/utils.c: the shortest path name equivalent to the input by purely lexical
    processing, against a specification that keeps a stack of path elements. */
module SanitizePath {

  const MAX_PATH_LEN := 1024
  const NUL := '\0'

  // ---------------------------------------------------------------- specification: a stack of elements

  // Length of the element at the front of s: up to the next slash.
  function ElementLength(s: string): (k: nat)
    ensures k <= |s| && (forall i :: 0 <= i < k ==> s[i] != '/') && (k < |s| ==> s[k] == '/')
  {
    if s == [] || s[0] == '/' then 0 else 1 + ElementLength(s[1..])
  }

  // The non-empty path elements of s, in order.
  function Elements(s: string): seq<string>
    decreases |s|
  {
    if s == [] then []
    else if s[0] == '/' then Elements(s[1..])
    else
      var k := ElementLength(s);
      [s[..k]] + Elements(s[k..])
  }

  // One element: "." is dropped; ".." drops the element before it, or is kept at the front of a relative
  // path, or is dropped at the root.
  function Apply(rooted: bool, stack: seq<string>, e: string): seq<string> {
    if e == "." then stack
    else if e == ".." then
      if stack != [] && stack[|stack| - 1] != ".." then stack[..|stack| - 1]
      else if rooted then stack
      else stack + [e]
    else stack + [e]
  }

  function Resolve(rooted: bool, stack: seq<string>, es: seq<string>): seq<string>
    decreases |es|
  {
    if es == [] then stack else Resolve(rooted, Apply(rooted, stack, es[0]), es[1..])
  }

  function Join(stack: seq<string>): string {
    if stack == [] then ""
    else if |stack| == 1 then stack[0]
    else Join(stack[..|stack| - 1]) + "/" + stack[|stack| - 1]
  }

  function Render(rooted: bool, stack: seq<string>): string {
    (if rooted then "/" else "") + Join(stack)
  }

  lemma RenderMore(rooted: bool, stack: seq<string>, e: string)
    ensures Render(rooted, stack + [e]) == if stack == [] then Render(rooted, []) + e
            else Render(rooted, stack) + "/" + e
  {
    assert (stack + [e])[..|stack|] == stack;
    if stack == [] {
      assert Join([e]) == e && Join([]) == "";
    } else {
      assert Join(stack + [e]) == Join(stack) + "/" + e;
    }
  }

  predicate Rooted(s: string) {
    s != [] && s[0] == '/'
  }

  function Sanitized(s: string): string {
    var stack := Resolve(Rooted(s), [], Elements(s));
    if !Rooted(s) && stack == [] then "." else Render(Rooted(s), stack)
  }

  // ---------------------------------------------------------------- clean stacks

  // A non-empty element without slashes.
  predicate Element(e: string) {
    e != [] && forall i :: 0 <= i < |e| ==> e[i] != '/'
  }

  // What Resolve leaves: no ".", and ".." only at the front of a relative path.
  predicate Clean(rooted: bool, stack: seq<string>) {
    (forall i :: 0 <= i < |stack| ==> Element(stack[i]) && stack[i] != "." && (rooted ==> stack[i] != "..")) &&
    (forall i :: Ups(stack) <= i < |stack| ==> stack[i] != "..")
  }

  lemma ApplyClean(rooted: bool, stack: seq<string>, e: string)
    requires Clean(rooted, stack) && Element(e)
    ensures Clean(rooted, Apply(rooted, stack, e))
  {
  }

  lemma {:induction false} ElementsAre(s: string)
    ensures forall i :: 0 <= i < |Elements(s)| ==> Element(Elements(s)[i])
    decreases |s|
  {
    if s != [] {
      if s[0] == '/' {
        ElementsAre(s[1..]);
      } else {
        ElementsAre(s[ElementLength(s)..]);
      }
    }
  }

  lemma {:induction false} ResolveClean(rooted: bool, stack: seq<string>, es: seq<string>)
    requires Clean(rooted, stack) && forall i :: 0 <= i < |es| ==> Element(es[i])
    ensures Clean(rooted, Resolve(rooted, stack, es))
    decreases |es|
  {
    if es != [] {
      assert Element(es[0]);
      ApplyClean(rooted, stack, es[0]);
      ResolveClean(rooted, Apply(rooted, stack, es[0]), es[1..]);
    }
  }

  // ---------------------------------------------------------------- idempotence

  // A clean stack stands for itself.
  lemma {:induction false} ResolveItself(rooted: bool, stack: seq<string>, n: nat)
    requires Clean(rooted, stack) && n <= |stack|
    ensures Resolve(rooted, stack[..n], stack[n..]) == stack
    decreases |stack| - n
  {
    if n < |stack| {
      var e := stack[n];
      assert Element(e);
      assert stack[n..][0] == e && stack[n..][1..] == stack[n + 1..];
      assert stack[..n] + [e] == stack[..n + 1];
      ResolveItself(rooted, stack, n + 1);
    }
  }

  // Reading back a path element by element.
  lemma {:induction false} ElementsAppend(s: string, e: string)
    requires Element(e) && (s == [] || s[|s| - 1] == '/')
    ensures Elements(s + e) == Elements(s) + [e]
    decreases |s|
  {
    if s == [] {
      assert s + e == e && ElementLength(e) == |e|;
      assert e[|e|..] == [] && e[..|e|] == e;
    } else if s[0] == '/' {
      assert (s + e)[1..] == s[1..] + e;
      ElementsAppend(s[1..], e);
    } else {
      var k := ElementLength(s);
      assert k < |s|;
      ElementsAppend(s[k..], e);
      ElementsRest(s, e, k);
    }
  }

  lemma ElementsRest(s: string, e: string, k: nat)
    requires s != [] && s[0] != '/' && k == ElementLength(s) < |s| && Elements(s[k..] + e) == Elements(s[k..]) + [e]
    ensures Elements(s + e) == Elements(s) + [e]
  {
    LengthPrefix(s, e);
    FirstElement(s, k);
    FirstElement(s + e, k);
    SplitAppended(s, e, k);
    Reassociate(s[..k], Elements(s[k..]), e);
  }

  lemma FirstElement(s: string, k: nat)
    requires s != [] && s[0] != '/' && k == ElementLength(s)
    ensures k <= |s| && Elements(s) == [s[..k]] + Elements(s[k..])
  {
  }

  lemma SplitAppended(s: string, e: string, k: nat)
    requires k <= |s|
    ensures (s + e)[..k] == s[..k] && (s + e)[k..] == s[k..] + e
  {
  }

  lemma Reassociate(x: string, es: seq<string>, e: string)
    ensures [x] + (es + [e]) == [x] + es + [e]
  {
  }

  lemma {:induction false} LengthPrefix(s: string, t: string)
    requires ElementLength(s) < |s|
    ensures ElementLength(s + t) == ElementLength(s)
  {
    if s[0] != '/' {
      assert (s + t)[1..] == s[1..] + t;
      LengthPrefix(s[1..], t);
    }
  }

  // A slash at the end adds no element.
  lemma {:induction false} ElementsSlash(s: string)
    ensures Elements(s + "/") == Elements(s)
    decreases |s|
  {
    if s == [] {
      assert s + "/" == "/" && "/"[1..] == [];
    } else if s[0] == '/' {
      assert (s + "/")[1..] == s[1..] + "/";
      ElementsSlash(s[1..]);
    } else {
      var k := ElementLength(s);
      LengthSlash(s);
      assert (s + "/")[..k] == s[..k] && (s + "/")[k..] == s[k..] + "/";
      ElementsSlash(s[k..]);
    }
  }

  lemma {:induction false} LengthSlash(s: string)
    ensures ElementLength(s + "/") == ElementLength(s)
  {
    if s != [] && s[0] != '/' {
      assert (s + "/")[1..] == s[1..] + "/";
      LengthSlash(s[1..]);
    }
  }

  // Rendering and reading back gives the stack.
  lemma {:induction false} ElementsOfRender(rooted: bool, stack: seq<string>)
    requires forall i :: 0 <= i < |stack| ==> Element(stack[i])
    ensures Elements(Render(rooted, stack)) == stack
    decreases |stack|
  {
    if stack == [] {
      ElementsSlash("");
      assert "" + "/" == "/" && Render(rooted, []) == if rooted then "/" else "";
    } else {
      var n := |stack| - 1;
      var init, e := stack[..n], stack[n];
      assert stack == init + [e] && Element(e);
      ElementsOfRender(rooted, init);
      RenderMore(rooted, init, e);
      AddElement(rooted, init, e);
    }
  }

  lemma AddElement(rooted: bool, init: seq<string>, e: string)
    requires Element(e) && Elements(Render(rooted, init)) == init
    ensures Elements(Render(rooted, init + [e])) == init + [e]
  {
    RenderMore(rooted, init, e);
    var r := Render(rooted, init);
    if init == [] {
      assert r == if rooted then "/" else "";
      ElementsAppend(r, e);
    } else {
      ElementsSlash(r);
      ElementsAppend(r + "/", e);
    }
  }

  lemma RenderRooted(rooted: bool, stack: seq<string>)
    requires Clean(rooted, stack) && (rooted || stack != [])
    ensures Rooted(Render(rooted, stack)) == rooted
    decreases |stack|
  {
    if !rooted && |stack| > 1 {
      RenderRooted(rooted, stack[..|stack| - 1]);
    } else if !rooted {
      assert Element(stack[0]);
    }
  }

  /** Sanitizing twice is sanitizing once. */
  lemma Idempotent(s: string)
    ensures Sanitized(Sanitized(s)) == Sanitized(s)
  {
    var stack := Resolve(Rooted(s), [], Elements(s));
    ElementsAre(s);
    ResolveClean(Rooted(s), [], Elements(s));
    if !Rooted(s) && stack == [] {
      assert ElementLength(".") == 1 && "."[1..] == [] && "."[..1] == ".";
      assert Elements(".") == ["."];
    } else {
      RenderRooted(Rooted(s), stack);
      ElementsOfRender(Rooted(s), stack);
      ResolveItself(Rooted(s), stack, 0);
      assert stack[..0] == [] && stack[0..] == stack;
    }
  }

  // ---------------------------------------------------------------- the in-place algorithm

  // How many ".." elements are at the front.
  function Ups(stack: seq<string>): (u: nat)
    ensures u <= |stack| && (forall i :: 0 <= i < u ==> stack[i] == "..") && (u < |stack| ==> stack[u] != "..")
  {
    if stack == [] || stack[0] != ".." then 0 else 1 + Ups(stack[1..])
  }

  // dotdot: where backtracking must stop.
  ghost predicate StopsAt(rooted: bool, stack: seq<string>, dotdot: nat) {
    dotdot == |Render(rooted, stack[..Ups(stack)])|
  }

  // The state of the loop: text, the w bytes written, renders the stack, and the stack with the elements
  // still to be read gives the result.
  ghost predicate Holds(rooted: bool, input: string, text: string, r: nat, dotdot: nat, stack: seq<string>) {
    && r <= |input| && |text| <= r && text == Render(rooted, stack)
    && Clean(rooted, stack) && StopsAt(rooted, stack, dotdot)
    && Resolve(rooted, stack, Elements(input[r..])) == Resolve(rooted, [], Elements(input))
    && (r < |input| && input[r] != '/' && stack != [] ==> |text| < r)
  }

  // A slash is skipped.
  lemma SkipSlash(rooted: bool, input: string, text: string, r: nat, dotdot: nat, stack: seq<string>)
    requires Holds(rooted, input, text, r, dotdot, stack) && r < |input| && input[r] == '/'
    ensures Holds(rooted, input, text, r + 1, dotdot, stack)
  {
    assert input[r..][1..] == input[r + 1..];
  }

  // The element at r, and what is left after it.
  lemma NextElement(input: string, r: nat, k: nat)
    requires r < |input| && input[r] != '/' && r + k <= |input| && k > 0
    requires (forall i :: r <= i < r + k ==> input[i] != '/') && (r + k < |input| ==> input[r + k] == '/')
    ensures Element(input[r..r + k]) && Elements(input[r..]) == [input[r..r + k]] + Elements(input[r + k..])
  {
    var s := input[r..];
    LengthIs(s, k);
    assert s[..k] == input[r..r + k] && s[k..] == input[r + k..];
  }

  lemma {:induction false} LengthIs(s: string, k: nat)
    requires k <= |s| && (forall i :: 0 <= i < k ==> s[i] != '/') && (k < |s| ==> s[k] == '/')
    ensures ElementLength(s) == k
  {
    if k > 0 { LengthIs(s[1..], k - 1); }
  }

  // Reading one element e of length k: the stack becomes Apply of it.
  lemma ReadElement(rooted: bool, input: string, r: nat, r2: nat, e: string, stack: seq<string>)
    requires Spans(input, r, r2) && e == input[r..r2]
    ensures Element(e)
    ensures Resolve(rooted, stack, Elements(input[r..])) ==
            Resolve(rooted, Apply(rooted, stack, e), Elements(input[r2..]))
  {
    NextElement(input, r, r2 - r);
    var rest := Elements(input[r2..]);
    assert ([e] + rest)[0] == e && ([e] + rest)[1..] == rest;
  }

  // The rendered prefixes of a stack of elements grow with the stack.
  lemma {:induction false} RenderGrows(rooted: bool, stack: seq<string>, n: nat)
    requires n < |stack| && forall i :: 0 <= i < |stack| ==> Element(stack[i])
    ensures |Render(rooted, stack[..n])| < |Render(rooted, stack)|
    decreases |stack|
  {
    var k := |stack| - 1;
    assert stack == stack[..k] + [stack[k]] && Element(stack[k]);
    RenderMore(rooted, stack[..k], stack[k]);
    if n < k {
      assert stack[..k][..n] == stack[..n];
      RenderGrows(rooted, stack[..k], n);
    }
  }

  // Dropping the last element, which is not "..", moves neither the ".." elements nor their end.
  lemma UpsKept(rooted: bool, stack: seq<string>, dotdot: nat)
    requires Ups(stack) < |stack| && StopsAt(rooted, stack, dotdot)
    ensures var init := stack[..|stack| - 1]; Ups(init) == Ups(stack) && StopsAt(rooted, init, dotdot)
  {
    var init := stack[..|stack| - 1];
    assert Ups(init) == Ups(stack);
    assert init[..Ups(stack)] == stack[..Ups(stack)];
  }

  lemma StopsBefore(rooted: bool, stack: seq<string>, dotdot: nat)
    requires Clean(rooted, stack) && Ups(stack) < |stack| && StopsAt(rooted, stack, dotdot)
    ensures var init := stack[..|stack| - 1];
            dotdot <= |Render(rooted, init)| && (init == [] ==> dotdot == |Render(rooted, init)|)
  {
    var init := stack[..|stack| - 1];
    UpsKept(rooted, stack, dotdot);
    assert forall i :: 0 <= i < |init| ==> init[i] == stack[i];
    if Ups(init) < |init| {
      RenderGrows(rooted, init, Ups(init));
    } else {
      assert init[..|init|] == init;
    }
  }

  // Where the last element begins, with the slash before it if there is one.
  lemma LastElement(rooted: bool, stack: seq<string>, dotdot: nat)
    requires Clean(rooted, stack) && Ups(stack) < |stack| && StopsAt(rooted, stack, dotdot)
    ensures var text, p := Render(rooted, stack), |Render(rooted, stack[..|stack| - 1])|;
            dotdot <= p < |text| && (text[p] == '/' || dotdot == p) && NoSlashAfter(text, p)
  {
    StopsBefore(rooted, stack, dotdot);
    LastText(rooted, stack[..|stack| - 1], stack[|stack| - 1]);
    assert stack == stack[..|stack| - 1] + [stack[|stack| - 1]];
  }

  ghost predicate NoSlashAfter(text: string, p: nat) {
    forall i :: p < i < |text| ==> text[i] != '/'
  }

  lemma LastText(rooted: bool, init: seq<string>, e: string)
    requires Element(e)
    ensures var text, p := Render(rooted, init + [e]), |Render(rooted, init)|;
            p < |text| && (init == [] || text[p] == '/') && NoSlashAfter(text, p)
  {
    RenderMore(rooted, init, e);
    AfterElement(Render(rooted, init), e);
  }

  lemma AfterElement(a: string, e: string)
    requires Element(e)
    ensures NoSlashAfter(a + e, |a|) && (a + "/" + e)[|a|] == '/' && NoSlashAfter(a + "/" + e, |a|)
  {
    forall i | |a| < i < |a + e| ensures (a + e)[i] != '/' {
      assert (a + e)[i] == e[i - |a|];
    }
    var text := a + "/" + e;
    forall i | |a| < i < |text| ensures text[i] != '/' {
      assert text[i] == e[i - |a| - 1];
    }
  }

  // Where ret backtracks to from w: the start of the last element, or the slash before it.
  method Backtrack(ret: array<char>, w: nat, dotdot: nat, ghost rooted: bool, ghost stack: seq<string>) returns (v: nat)
    requires w <= ret.Length && ret[..w] == Render(rooted, stack) && Clean(rooted, stack)
    requires Ups(stack) < |stack| && StopsAt(rooted, stack, dotdot)
    ensures v < w && v == |Render(rooted, stack[..|stack| - 1])|
  {
    ghost var text := ret[..w];
    ghost var p := |Render(rooted, stack[..|stack| - 1])|;
    LastElement(rooted, stack, dotdot);
    v := w - 1;
    while v > dotdot && ret[v] != '/'
      invariant p <= v < w && ret[..w] == text
    {
      assert ret[v] == text[v];
      v := v - 1;
    }
    assert ret[v] == text[v];
  }

  // The element that starts at r ends at r2.
  ghost predicate Spans(input: string, r: nat, r2: nat) {
    r < r2 <= |input| && (forall i :: r <= i < r2 ==> input[i] != '/') && (r2 < |input| ==> input[r2] == '/')
  }

  // After reading the element from r to r2, the new stack is rendered in text2.
  lemma Moved(rooted: bool, input: string, text: string, r: nat, dotdot: nat, stack: seq<string>, r2: nat, e: string,
              s2: seq<string>, text2: string, dotdot2: nat)
    requires Holds(rooted, input, text, r, dotdot, stack) && Spans(input, r, r2)
    requires e == input[r..r2] && s2 == Apply(rooted, stack, e)
    requires |text2| <= r2 && text2 == Render(rooted, s2) && StopsAt(rooted, s2, dotdot2)
    ensures Holds(rooted, input, text2, r2, dotdot2, s2)
  {
    ReadElement(rooted, input, r, r2, e, stack);
    ApplyClean(rooted, stack, e);
  }

  lemma RenderEmpty(rooted: bool, stack: seq<string>)
    requires Clean(rooted, stack)
    ensures |Render(rooted, stack)| == (if rooted then 1 else 0) <==> stack == []
  {
    if stack != [] {
      RenderGrows(rooted, stack, 0);
      assert stack[..0] == [];
    }
  }

  lemma UpsMore(rooted: bool, stack: seq<string>, e: string, dotdot: nat)
    requires StopsAt(rooted, stack, dotdot)
    ensures e != ".." ==> StopsAt(rooted, stack + [e], dotdot)
    ensures e == ".." && Ups(stack) == |stack| ==> StopsAt(rooted, stack + [e], |Render(rooted, stack + [e])|)
  {
    UpsOfMore(stack, e);
    var u := Ups(stack);
    assert (stack + [e])[..u] == stack[..u];
    assert (stack + [e])[..|stack| + 1] == stack + [e];
  }

  lemma {:induction false} UpsOfMore(stack: seq<string>, e: string)
    ensures Ups(stack + [e]) == if Ups(stack) == |stack| && e == ".." then |stack| + 1 else Ups(stack)
  {
    if stack != [] && stack[0] == ".." {
      assert (stack + [e])[1..] == stack[1..] + [e];
      UpsOfMore(stack[1..], e);
    } else if stack == [] {
      assert ([e])[1..] == [];
    }
  }

  // The slash before a further element.
  method PutSlash(ret: array<char>, w: nat, ghost rooted: bool, ghost stack: seq<string>, slash: bool) returns (w2: nat)
    requires w < ret.Length && ret[..w] == Render(rooted, stack) && (slash <==> stack != [])
    modifies ret
    ensures w2 == w + (if slash then 1 else 0) && ret[..w2] == Lead(rooted, stack)
  {
    w2 := w;
    if slash {
      ret[w2] := '/';
      w2 := w2 + 1;
    }
  }

  // What stands before a further element.
  ghost function Lead(rooted: bool, stack: seq<string>): string {
    Render(rooted, stack) + if stack == [] then "" else "/"
  }

  lemma LeadThenElement(rooted: bool, stack: seq<string>, e: string)
    ensures Lead(rooted, stack) + e == Render(rooted, stack + [e])
  {
    RenderMore(rooted, stack, e);
  }

  // An ordinary element is copied.
  method CopyElement(input: string, ret: array<char>, r: nat, w: nat, ghost lead: string) returns (r2: nat, w2: nat)
    requires r < |input| && input[r] != '/' && w <= r && ret.Length == |input| + 1 && ret[..w] == lead
    modifies ret
    ensures Spans(input, r, r2) && w2 == w + (r2 - r) && ret[..w2] == lead + input[r..r2]
  {
    r2, w2 := r, w;
    while r2 < |input| && input[r2] != '/'
      invariant r <= r2 <= |input| && w2 == w + (r2 - r) && forall i :: r <= i < r2 ==> input[i] != '/'
      invariant ret[..w2] == lead + input[r..r2]
    {
      ret[w2] := input[r2];
      assert input[r..r2 + 1] == input[r..r2] + [input[r2]];
      r2, w2 := r2 + 1, w2 + 1;
    }
  }

  // The branch for an ordinary element.
  method TurnElement(input: string, ret: array<char>, rooted: bool, r: nat, w: nat, dotdot: nat,
                     ghost stack: seq<string>)
    returns (r2: nat, w2: nat, ghost stack2: seq<string>)
    requires ret.Length == |input| + 1 && w <= r < |input| && input[r] != '/' && !IsDot(input, r) && !IsDotDot(input, r)
    requires Holds(rooted, input, ret[..w], r, dotdot, stack)
    modifies ret
    ensures r < r2 <= |input| && w2 <= r2 && Holds(rooted, input, ret[..w2], r2, dotdot, stack2)
  {
    ghost var before := ret[..w];
    RenderEmpty(rooted, stack);
    w2 := PutSlash(ret, w, rooted, stack, (rooted && w != 1) || (!rooted && w != 0));
    r2, w2 := CopyElement(input, ret, r, w2, Lead(rooted, stack));
    ghost var e := input[r..r2];
    stack2 := stack + [e];
    OrdinaryElement(input, r, r2, e);
    MovedElement(rooted, input, before, r, dotdot, stack, r2, e, ret[..w2]);
  }

  lemma MovedElement(rooted: bool, input: string, text: string, r: nat, dotdot: nat, stack: seq<string>, r2: nat,
                     e: string, text2: string)
    requires Holds(rooted, input, text, r, dotdot, stack) && Spans(input, r, r2)
    requires e == input[r..r2] && e != "" && e != "." && e != ".." && |text2| <= r2 && text2 == Lead(rooted, stack) + e
    ensures Holds(rooted, input, text2, r2, dotdot, stack + [e])
  {
    PushedElement(rooted, stack, e, dotdot, text2);
    Moved(rooted, input, text, r, dotdot, stack, r2, e, stack + [e], text2, dotdot);
  }

  lemma PushedElement(rooted: bool, stack: seq<string>, e: string, dotdot: nat, text: string)
    requires StopsAt(rooted, stack, dotdot) && e != "" && e != "." && e != ".." && text == Lead(rooted, stack) + e
    ensures Apply(rooted, stack, e) == stack + [e] && text == Render(rooted, stack + [e])
    ensures StopsAt(rooted, stack + [e], dotdot)
  {
    LeadThenElement(rooted, stack, e);
    UpsMore(rooted, stack, e, dotdot);
  }

  lemma MovedDot(rooted: bool, input: string, text: string, r: nat, dotdot: nat, stack: seq<string>)
    requires Holds(rooted, input, text, r, dotdot, stack) && r < |input| && IsDot(input, r)
    ensures Holds(rooted, input, text, r + 1, dotdot, stack)
  {
    DotText(input, r);
    Moved(rooted, input, text, r, dotdot, stack, r + 1, ".", stack, text, dotdot);
  }

  lemma Ends(rooted: bool, input: string, text: string, dotdot: nat, stack: seq<string>)
    requires Holds(rooted, input, text, |input|, dotdot, stack)
    ensures text == Render(rooted, stack) && stack == Resolve(rooted, [], Elements(input)) && Clean(rooted, stack)
  {
    assert input[|input|..] == [];
  }

  predicate IsDot(input: string, r: nat)
    requires r < |input|
  {
    input[r] == '.' && (r + 1 == |input| || input[r + 1] == '/')
  }

  predicate IsDotDot(input: string, r: nat)
    requires r < |input|
  {
    input[r] == '.' && r + 1 < |input| && input[r + 1] == '.' && (r + 2 == |input| || input[r + 2] == '/')
  }

  lemma DotText(input: string, r: nat)
    requires r < |input| && IsDot(input, r)
    ensures input[r..r + 1] == "."
  {
  }

  lemma DotDotText(input: string, r: nat)
    requires r < |input| && IsDotDot(input, r)
    ensures input[r..r + 2] == ".."
  {
  }

  lemma OrdinaryElement(input: string, r: nat, r2: nat, e: string)
    requires Spans(input, r, r2) && !IsDot(input, r) && !IsDotDot(input, r) && e == input[r..r2]
    ensures e != "" && e != "." && e != ".."
  {
    assert e[0] == input[r] && (|e| > 1 ==> e[1] == input[r + 1]);
  }

  // The branch for "..".
  method TurnDotDot(input: string, ret: array<char>, rooted: bool, r: nat, w: nat, dotdot: nat,
                    ghost stack: seq<string>)
    returns (w2: nat, dotdot2: nat, ghost stack2: seq<string>)
    requires ret.Length == |input| + 1 && w <= r < |input| && IsDotDot(input, r) &&
             Holds(rooted, input, ret[..w], r, dotdot, stack)
    modifies ret
    ensures w2 <= r + 2 && Holds(rooted, input, ret[..w2], r + 2, dotdot2, stack2)
  {
    ghost var before := ret[..w];
    w2, dotdot2 := w, dotdot;
    stack2 := Apply(rooted, stack, "..");
    CanBacktrack(rooted, stack, dotdot);
    if w > dotdot {
      w2 := PopElement(ret, w, dotdot, rooted, stack);
    } else if !rooted {
      w2 := PushDotDot(ret, w, dotdot, stack);
      dotdot2 := w2;
    }
    MovedDotDot(rooted, input, before, r, dotdot, stack, stack2, ret[..w2], dotdot2);
  }

  lemma MovedDotDot(rooted: bool, input: string, text: string, r: nat, dotdot: nat, stack: seq<string>,
                    s2: seq<string>, text2: string, dotdot2: nat)
    requires Holds(rooted, input, text, r, dotdot, stack) && r < |input| && IsDotDot(input, r) &&
             s2 == Apply(rooted, stack, "..")
    requires |text2| <= r + 2 && text2 == Render(rooted, s2) && StopsAt(rooted, s2, dotdot2)
    ensures Holds(rooted, input, text2, r + 2, dotdot2, s2)
  {
    DotDotText(input, r);
    Moved(rooted, input, text, r, dotdot, stack, r + 2, "..", s2, text2, dotdot2);
  }

  // The last element is dropped.
  method PopElement(ret: array<char>, w: nat, dotdot: nat, ghost rooted: bool,
                    ghost stack: seq<string>) returns (w2: nat)
    requires w <= ret.Length && ret[..w] == Render(rooted, stack) && Clean(rooted, stack)
    requires Ups(stack) < |stack| && StopsAt(rooted, stack, dotdot)
    ensures var init := stack[..|stack| - 1];
            w2 < w && ret[..w2] == Render(rooted, init) && StopsAt(rooted, init, dotdot)
  {
    UpsKept(rooted, stack, dotdot);
    w2 := Backtrack(ret, w, dotdot, rooted, stack);
    ShorterRender(rooted, stack);
    assert ret[..w2] == ret[..w][..w2];
  }

  // A relative path keeps ".." in front.
  method PushDotDot(ret: array<char>, w: nat, ghost dotdot: nat, ghost stack: seq<string>) returns (w2: nat)
    requires w + 3 <= ret.Length || (stack == [] && w + 2 <= ret.Length)
    requires Clean(false, stack) && ret[..w] == Render(false, stack) && StopsAt(false, stack, dotdot) &&
             Ups(stack) == |stack|
    modifies ret
    ensures w2 == w + 2 + (if stack == [] then 0 else 1) && ret[..w2] == Render(false, stack + [".."]) &&
            StopsAt(false, stack + [".."], w2)
  {
    RenderEmpty(false, stack);
    w2 := PutSlash(ret, w, false, stack, w > 0);
    ghost var lead := ret[..w2];
    ret[w2] := '.';
    ret[w2 + 1] := '.';
    w2 := w2 + 2;
    assert ret[..w2] == lead + "..";
    LeadThenElement(false, stack, "..");
    UpsMore(false, stack, "..", dotdot);
  }

  // w > dotdot says exactly that the last element is not "..".
  lemma CanBacktrack(rooted: bool, stack: seq<string>, dotdot: nat)
    requires Clean(rooted, stack) && StopsAt(rooted, stack, dotdot)
    ensures |Render(rooted, stack)| > dotdot <==> Ups(stack) < |stack|
    ensures Ups(stack) < |stack| <==> stack != [] && stack[|stack| - 1] != ".."
    ensures |Render(rooted, stack)| >= dotdot
  {
    if Ups(stack) < |stack| {
      RenderGrows(rooted, stack, Ups(stack));
    } else {
      assert stack[..|stack|] == stack;
    }
  }

  lemma ShorterRender(rooted: bool, stack: seq<string>)
    requires stack != []
    ensures var init := stack[..|stack| - 1];
            |Render(rooted, init)| <= |Render(rooted, stack)| &&
              Render(rooted, stack)[..|Render(rooted, init)|] == Render(rooted, init)
  {
    var n := |stack| - 1;
    assert stack == stack[..n] + [stack[n]];
    RenderMore(rooted, stack[..n], stack[n]);
  }

  // The start of the loop.
  lemma Begins(input: string, rooted: bool, text: string, r: nat)
    requires input != [] && rooted == Rooted(input) && r == (if rooted then 1 else 0) &&
             text == if rooted then "/" else ""
    ensures Holds(rooted, input, text, r, r, [])
  {
    assert Render(rooted, []) == text;
    assert input[0..] == input && input[..0] == [];
  }

  // The branches that write nothing: a slash, and ".".
  method TurnSkip(input: string, ret: array<char>, rooted: bool, r: nat, w: nat, dotdot: nat, ghost stack: seq<string>)
    returns (r2: nat)
    requires ret.Length == |input| + 1 && w <= r < |input| && (input[r] == '/' || IsDot(input, r))
    requires Holds(rooted, input, ret[..w], r, dotdot, stack)
    ensures r2 == r + 1 && Holds(rooted, input, ret[..w], r2, dotdot, stack)
  {
    if input[r] == '/' {
      SkipSlash(rooted, input, ret[..w], r, dotdot, stack);
    } else {
      MovedDot(rooted, input, ret[..w], r, dotdot, stack);
    }
    r2 := r + 1;
  }

  // One turn of the loop.
  method Turn(input: string, ret: array<char>, rooted: bool, r: nat, w: nat, dotdot: nat, ghost stack: seq<string>)
    returns (r2: nat, w2: nat, dotdot2: nat, ghost stack2: seq<string>)
    requires ret.Length == |input| + 1 && w <= r < |input| && Holds(rooted, input, ret[..w], r, dotdot, stack)
    modifies ret
    ensures r < r2 <= |input| && w2 <= r2 && Holds(rooted, input, ret[..w2], r2, dotdot2, stack2)
  {
    r2, w2, dotdot2, stack2 := r, w, dotdot, stack;
    if input[r] == '/' || IsDot(input, r) {
      r2 := TurnSkip(input, ret, rooted, r, w, dotdot, stack);
    } else if IsDotDot(input, r) {
      w2, dotdot2, stack2 := TurnDotDot(input, ret, rooted, r, w, dotdot, stack);
      r2 := r + 2;
    } else {
      r2, w2, stack2 := TurnElement(input, ret, rooted, r, w, dotdot, stack);
    }
  }

  // The loop over the input.
  method Loop(input: string, ret: array<char>, rooted: bool, start: nat) returns (w: nat, ghost stack: seq<string>)
    requires input != [] && rooted == Rooted(input) && ret.Length == |input| + 1 && start == (if rooted then 1 else 0)
    requires ret[..start] == if rooted then "/" else ""
    modifies ret
    ensures w <= |input| && ret[..w] == Render(rooted, stack) && stack == Resolve(rooted, [], Elements(input)) &&
            Clean(rooted, stack)
  {
    var r, dotdot := start, start;
    w, stack := start, [];
    Begins(input, rooted, ret[..w], r);
    while r < |input|
      invariant w <= r <= |input| && Holds(rooted, input, ret[..w], r, dotdot, stack)
      decreases |input| - r
    {
      r, w, dotdot, stack := Turn(input, ret, rooted, r, w, dotdot, stack);
    }
    Ends(rooted, input, ret[..w], dotdot, stack);
  }

  /** sanitize_path of the first MAX_PATH_LEN bytes: the buffer of n + 1 bytes suffices, holds the
      specified path and is zero from there to its end, so that a non-empty input gives a terminated
      string. An empty input gives a buffer of one byte, "." without a terminator. */
  method Sanitize(input: string) returns (ret: array<char>, w: nat)
    ensures var n := if |input| < MAX_PATH_LEN then |input| else MAX_PATH_LEN;
            fresh(ret) && ret.Length == n + 1 && w <= n + 1 && ret[..w] == Sanitized(input[..n]) &&
            (forall i :: w <= i <= n ==> ret[i] == NUL) && (w <= n <==> input != [])
  {
    var n := if |input| < MAX_PATH_LEN then |input| else MAX_PATH_LEN;
    var path := input[..n];
    ret := new char[n + 1](_ => NUL);
    if n == 0 {
      ret[0] := '.';
      return ret, 1;
    }
    var rooted := path[0] == '/';
    var start := 0;
    if rooted {
      ret[0] := '/';
      start := 1;
    }
    ghost var stack;
    w, stack := Loop(path, ret, rooted, start);
    RenderEmpty(rooted, stack);
    if w == 0 {
      ret[0] := '.';
      w := 1;
    }
    for i := w to n + 1
      invariant ret[..w] == Sanitized(path) && forall k :: w <= k < i ==> ret[k] == NUL
    {
      ret[i] := NUL;
    }
  }
}
