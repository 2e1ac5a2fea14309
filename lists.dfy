/** The .NET `List<T>` operations TinyECS.cs relies on, as functions on
    sequences, and the exceptions they raise, as values. */
module Lists {

  /** The exceptions the core can raise. */
  datatype Error =
    | ArgumentOutOfRange  // a list indexed at -1 (IndexOf found nothing)
    | CollectionModified  // a list changed under its own `foreach`
    | NullReference       // a callback invoked after it was set to null

  datatype Result<T> = Ok(value: T) | Err(error: Error)

  datatype Outcome = Pass | Fail(error: Error)

  /** `List.IndexOf`: the first index holding `x`, or -1 when there is none. */
  function IndexOf<T(==)>(s: seq<T>, x: T): (r: int)
    ensures -1 <= r < |s|
    ensures r == -1 <==> x !in s
    ensures 0 <= r ==> s[r] == x && forall j :: 0 <= j < r ==> s[j] != x
  {
    if s == [] then -1
    else if s[0] == x then 0
    else
      var k := IndexOf(s[1..], x);
      if k == -1 then -1 else k + 1
  }

  /** `List.RemoveAt`: the entries before `i` stay, those after it move one
      place down. */
  function RemoveAt<T>(s: seq<T>, i: nat): (r: seq<T>)
    requires i < |s|
    ensures |r| == |s| - 1
    ensures forall j :: 0 <= j < i ==> r[j] == s[j]
    ensures forall j :: i <= j < |r| ==> r[j] == s[j + 1]
  {
    s[..i] + s[i + 1..]
  }

  /** `List.Remove`: deletes the first occurrence of `x`; a list without
      `x` is left as it is (the source ignores the returned flag). */
  function RemoveFirst<T(==)>(s: seq<T>, x: T): (r: seq<T>)
    ensures |r| == if x in s then |s| - 1 else |s|
    ensures x in s ==> forall j :: 0 <= j < IndexOf(s, x) ==> r[j] == s[j]
    ensures x in s ==> forall j :: IndexOf(s, x) <= j < |r| ==> r[j] == s[j + 1]
  {
    if x in s then RemoveAt(s, IndexOf(s, x)) else s
  }

  /** Removal takes away exactly one copy of the element, if it had one. */
  lemma RemoveAtMultiset<T>(s: seq<T>, i: nat)
    requires i < |s|
    ensures multiset(RemoveAt(s, i)) == multiset(s) - multiset{s[i]}
  {
    assert s == s[..i] + [s[i]] + s[i + 1..];
  }

  lemma RemoveFirstMultiset<T>(s: seq<T>, x: T)
    ensures multiset(RemoveFirst(s, x)) == multiset(s) - multiset{x}
  {
    if x in s {
      RemoveAtMultiset(s, IndexOf(s, x));
    }
  }

  /** A freshly appended element is found at the end only when it was absent
      before; otherwise the earlier occurrence keeps shadowing it. */
  lemma IndexOfAfterAppend<T>(s: seq<T>, x: T)
    ensures IndexOf(s + [x], x) == if x in s then IndexOf(s, x) else |s|
  {
    if x in s {
      var k := IndexOf(s, x);
      assert (s + [x])[k] == x;
    } else {
      assert (s + [x])[|s|] == x;
    }
  }

  /** Removing what was just appended restores the list when the element
      was new; otherwise the earlier occurrence goes and the new one stays
      at the end. */
  lemma RemoveFirstAfterAppend<T>(s: seq<T>, x: T)
    ensures RemoveFirst(s + [x], x) == if x in s then RemoveFirst(s, x) + [x] else s
  {
  }
}
