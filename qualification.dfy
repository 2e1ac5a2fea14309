/** The dependency-matching rule of TinyECS.cs: a system qualifies for an
    entity when `deps.Intersect(types).Count() == deps.Count()`.
    Component types are integer ids. */
module Qualification {

  /** LINQ's `Intersect`: it builds a set from its second argument and then
      yields, in order, each element of the first argument that it can still
      remove from that set. So the result holds no element twice. */
  function Intersect(first: seq<int>, remaining: set<int>): seq<int>
    decreases |first|
  {
    if first == [] then []
    else if first[0] in remaining then [first[0]] + Intersect(first[1..], remaining - {first[0]})
    else Intersect(first[1..], remaining)
  }

  predicate NoDuplicates(s: seq<int>)
  {
    forall i, j :: 0 <= i < j < |s| ==> s[i] != s[j]
  }

  /** The set of the entries of a sequence. */
  function Elements(s: seq<int>): set<int>
  {
    set x | x in s
  }

  /** The qualification test written at TinyECS.cs:117 and TinyECS.cs:199. */
  predicate Qualifies(deps: seq<int>, types: seq<int>)
  {
    |Intersect(deps, Elements(types))| == |deps|
  }

  /** What `Intersect` yields: exactly the elements common to both
      arguments, each once, never more of them than the first has. */
  lemma {:induction false} IntersectMembers(first: seq<int>, remaining: set<int>)
    ensures |Intersect(first, remaining)| <= |first|
    ensures NoDuplicates(Intersect(first, remaining))
    ensures forall x :: x in Intersect(first, remaining) <==> x in first && x in remaining
  {
    if first != [] {
      var rest := if first[0] in remaining then remaining - {first[0]} else remaining;
      IntersectMembers(first[1..], rest);
      assert forall x :: x in first <==> x == first[0] || x in first[1..];
    }
  }

  /** `Intersect` keeps every entry of its first argument exactly when those
      entries are distinct and all belong to the second argument. */
  lemma {:induction false} IntersectKeepsAll(first: seq<int>, remaining: set<int>)
    ensures |Intersect(first, remaining)| == |first|
            <==> NoDuplicates(first) && forall x :: x in first ==> x in remaining
  {
    if first != [] {
      var x, tail := first[0], first[1..];
      assert forall y :: y in first <==> y == x || y in tail;
      assert NoDuplicates(first) <==> x !in tail && NoDuplicates(tail) by {
        if NoDuplicates(first) {
          forall j | 0 <= j < |tail| ensures tail[j] != x { assert first[j + 1] == tail[j]; }
          forall i, j | 0 <= i < j < |tail| ensures tail[i] != tail[j] {
            assert first[i + 1] == tail[i] && first[j + 1] == tail[j];
          }
        }
        if x !in tail && NoDuplicates(tail) {
          forall i, j | 0 <= i < j < |first| ensures first[i] != first[j] {
            if i == 0 { assert first[j] == tail[j - 1]; }
            else { assert first[i] == tail[i - 1] && first[j] == tail[j - 1]; }
          }
        }
      }
      if x in remaining {
        IntersectKeepsAll(tail, remaining - {x});
      } else {
        IntersectMembers(tail, remaining);
      }
    }
  }

  /** Qualification is containment of every dependency in the entity's
      types, together with the dependency list having no repeated entry. */
  lemma QualifiesIffContained(deps: seq<int>, types: seq<int>)
    ensures Qualifies(deps, types) <==> NoDuplicates(deps) && forall d :: d in deps ==> d in types
  {
    IntersectKeepsAll(deps, Elements(types));
  }

  /** For a duplicate-free dependency list, qualification is the subset test. */
  lemma QualifiesIffSubset(deps: seq<int>, types: seq<int>)
    requires NoDuplicates(deps)
    ensures Qualifies(deps, types) <==> Elements(deps) <= Elements(types)
  {
    QualifiesIffContained(deps, types);
    assert forall d :: d in deps <==> d in Elements(deps);
    assert forall t :: t in types <==> t in Elements(types);
  }

  /** A dependency list naming some type twice never qualifies, whatever
      the entity holds: `Intersect` yields that type once only. */
  lemma DuplicateNeverQualifies(deps: seq<int>, types: seq<int>)
    requires !NoDuplicates(deps)
    ensures !Qualifies(deps, types)
  {
    QualifiesIffContained(deps, types);
  }

  /** Adding types never disqualifies; only removing them can. */
  lemma QualifiesMonotone(deps: seq<int>, types: seq<int>, more: seq<int>)
    requires Qualifies(deps, types)
    requires Elements(types) <= Elements(more)
    ensures Qualifies(deps, more)
  {
    QualifiesIffContained(deps, types);
    QualifiesIffContained(deps, more);
    assert forall d :: d in types ==> d in Elements(types);
  }
}
