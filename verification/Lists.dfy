/** Lists of numbered objects, as sequences without repetition. */
module Lists {

  ghost predicate Distinct(s: seq<nat>) {
    forall i, j :: 0 <= i < j < |s| ==> s[i] != s[j]
  }

  // The list without the first occurrence of x.
  function Delete(s: seq<nat>, x: nat): (r: seq<nat>)
    ensures forall y :: y in r ==> y in s
  {
    if s == [] then [] else if s[0] == x then s[1..] else [s[0]] + Delete(s[1..], x)
  }

  lemma ConsDistinct(x: nat, s: seq<nat>)
    requires Distinct(s) && x !in s
    ensures Distinct([x] + s)
  {
  }

  lemma {:induction false} DeleteDistinct(s: seq<nat>, x: nat)
    requires Distinct(s)
    ensures Distinct(Delete(s, x)) && forall y :: y in Delete(s, x) <==> y in s && y != x
  {
    if s != [] {
      assert forall y :: y in s <==> y == s[0] || y in s[1..];
      DeleteDistinct(s[1..], x);
      ConsDistinct(s[0], Delete(s[1..], x));
    }
  }
}
