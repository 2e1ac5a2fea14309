/** What the loops of TinyECS.cs compute, as functions on sequences: the
    systems an `AddComponent` appends to an entity's `systemDepencies`
    list, and the calls to `UpdateEntity` the dispatch loops make. Each
    function is written from the back, in the order its loop appends. */
module Dispatch {
  import opened Qualification

  /** A registered system: its identity and the component types it lists in
      `ComponentDependencies()` (taken to return the same list each call). */
  datatype System = System(id: int, deps: seq<int>)

  /** One call `system.UpdateEntity(entity)`. */
  datatype Call<E> = Call(system: System, entity: E)

  /** The inner loop of TinyECS.cs:193-195: one copy of `s` for each entry of
      `types` that `s` lists among its dependencies. */
  function Copies(s: System, types: seq<int>): seq<System>
    decreases |types|
  {
    if types == [] then []
    else Copies(s, types[..|types| - 1]) + (if types[|types| - 1] in s.deps then [s] else [])
  }

  /** The nested loops of TinyECS.cs:192-195: the copies of every system, in
      registration order. */
  function Gained(systems: seq<System>, types: seq<int>): seq<System>
    decreases |systems|
  {
    if systems == [] then []
    else Gained(systems[..|systems| - 1], types) + Copies(systems[|systems| - 1], types)
  }

  /** The loop of TinyECS.cs:198-200: a call for every entry of `list` that
      qualifies for `types`, in list order, repeated entries repeated. */
  function Dispatched<E>(list: seq<System>, types: seq<int>, e: E): seq<Call<E>>
    decreases |list|
  {
    if list == [] then []
    else
      var last := list[|list| - 1];
      Dispatched(list[..|list| - 1], types, e) + (if Qualifies(last.deps, types) then [Call(last, e)] else [])
  }

  /** The loop of TinyECS.cs:170-171: a call for every entry of `list`, in
      list order, with no qualification test. */
  function Replay<E>(list: seq<System>, e: E): (r: seq<Call<E>>)
    decreases |list|
    ensures |r| == |list|
    ensures forall i :: 0 <= i < |list| ==> r[i] == Call(list[i], e)
  {
    if list == [] then [] else Replay(list[..|list| - 1], e) + [Call(list[|list| - 1], e)]
  }

  /** A system gets a copy exactly when it shares a type with the entity. */
  lemma {:induction false} CopiesMembers(s: System, types: seq<int>)
    ensures forall x :: x in Copies(s, types) <==> x == s && exists t :: t in types && t in s.deps
  {
    if types != [] {
      var init, t := types[..|types| - 1], types[|types| - 1];
      CopiesMembers(s, init);
      assert types == init + [t];
      assert forall u :: u in types <==> u in init || u == t;
    }
  }

  /** The systems appended by an `AddComponent` are exactly the registered
      systems that list at least one of the entity's component types. */
  lemma {:induction false} GainedMembers(systems: seq<System>, types: seq<int>)
    ensures forall x :: x in Gained(systems, types) <==> x in systems && exists t :: t in types && t in x.deps
  {
    if systems != [] {
      var init, last := systems[..|systems| - 1], systems[|systems| - 1];
      GainedMembers(init, types);
      CopiesMembers(last, types);
      assert systems == init + [last];
      assert forall x :: x in systems <==> x in init || x == last;
    }
  }

  /** The inner loop appends one copy per entry of the entity's types that
      the system depends on, repeated entries counted each time. */
  lemma {:induction false} CopiesCount(s: System, types: seq<int>)
    ensures |Copies(s, types)| == |set j | 0 <= j < |types| && types[j] in s.deps|
  {
    if types != [] {
      var n := |types| - 1;
      var init := types[..n];
      CopiesCount(s, init);
      var before := set j | 0 <= j < n && init[j] in s.deps;
      var after := set j | 0 <= j < |types| && types[j] in s.deps;
      assert after == before + (if types[n] in s.deps then {n} else {}) by {
        forall j | 0 <= j < n ensures init[j] == types[j] { }
      }
      assert n !in before;
    }
  }

  /** Every entry `Copies` appends is the system itself. */
  lemma {:induction false} CopiesMultiset(s: System, types: seq<int>, x: System)
    ensures multiset(Copies(s, types))[x] == if x == s then |Copies(s, types)| else 0
  {
    if types != [] {
      CopiesMultiset(s, types[..|types| - 1], x);
    }
  }

  /** Multiplicity in what an `AddComponent` lists: each registration of a
      system contributes one copy per matching entry of the entity's types. */
  lemma {:induction false} GainedCount(systems: seq<System>, types: seq<int>, x: System)
    ensures multiset(Gained(systems, types))[x] == multiset(systems)[x] * |Copies(x, types)|
  {
    if systems != [] {
      var n := |systems| - 1;
      GainedSplit(systems, types, x);
      GainedCount(systems[..n], types, x);
      CopiesMultiset(systems[n], types, x);
      CountStep(multiset(Gained(systems, types))[x], multiset(Gained(systems[..n], types))[x],
                multiset(Copies(systems[n], types))[x], multiset(systems)[x], multiset(systems[..n])[x],
                |Copies(x, types)|, x == systems[n]);
    }
  }

  /** How one system's count changes when the last system is dropped. */
  lemma GainedSplit(systems: seq<System>, types: seq<int>, x: System)
    requires systems != []
    ensures var n := |systems| - 1;
            && multiset(Gained(systems, types))[x]
               == multiset(Gained(systems[..n], types))[x] + multiset(Copies(systems[n], types))[x]
            && multiset(systems)[x] == multiset(systems[..n])[x] + (if x == systems[n] then 1 else 0)
  {
    GainedSplitMultiset(systems, types);
    LastSplitMultiset(systems);
  }

  /** The copies of the last system come last in `Gained`. */
  lemma GainedSplitMultiset(systems: seq<System>, types: seq<int>)
    requires systems != []
    ensures var n := |systems| - 1;
            multiset(Gained(systems, types)) == multiset(Gained(systems[..n], types)) + multiset(Copies(systems[n], types))
  {
    var n := |systems| - 1;
    assert Gained(systems, types) == Gained(systems[..n], types) + Copies(systems[n], types);
  }

  /** A non-empty sequence is its prefix plus its last element, as multisets. */
  lemma LastSplitMultiset<T>(s: seq<T>)
    requires s != []
    ensures multiset(s) == multiset(s[..|s| - 1]) + multiset{s[|s| - 1]}
  {
    assert s == s[..|s| - 1] + [s[|s| - 1]];
  }

  /** The arithmetic of one step of `GainedCount`: `total` copies, `copies`
      of them from the last system, `count` registrations, `before` of them
      in the prefix, `c` copies per registration. */
  lemma CountStep(total: int, prefix: int, copies: int, count: int, before: int, c: int, last: bool)
    requires total == prefix + copies && prefix == before * c
    requires copies == (if last then c else 0) && count == before + (if last then 1 else 0)
    ensures total == count * c
  {
  }

  /** How many times one `AddComponent` calls a system: once per copy
      already listed plus once per copy it lists now, when the system
      qualifies; never otherwise. */
  lemma AddCallCount<E>(before: seq<System>, systems: seq<System>, types: seq<int>, e: E, s: System)
    ensures multiset(Dispatched(before + Gained(systems, types), types, e))[Call(s, e)]
            == if Qualifies(s.deps, types)
               then multiset(before)[s] + multiset(systems)[s] * |Copies(s, types)|
               else 0
  {
    DispatchedCount(before + Gained(systems, types), types, e, s);
    GainedCount(systems, types, s);
  }

  /** A system whose dependency list is empty shares no type with any
      entity, so an `AddComponent` never lists it, and never notifies it. */
  lemma EmptyDepsNeverGained(systems: seq<System>, types: seq<int>, s: System)
    requires s.deps == []
    ensures s !in Gained(systems, types)
  {
    GainedMembers(systems, types);
  }

  /** The dispatch loop calls exactly the listed systems that qualify, and
      only for the entity being dispatched. */
  lemma {:induction false} DispatchedMembers<E>(list: seq<System>, types: seq<int>, e: E)
    ensures forall c :: c in Dispatched(list, types, e) <==>
                          c.entity == e && c.system in list && Qualifies(c.system.deps, types)
  {
    if list != [] {
      var init, last := list[..|list| - 1], list[|list| - 1];
      DispatchedMembers(init, types, e);
      assert list == init + [last];
      assert forall x :: x in list <==> x in init || x == last;
    }
  }

  /** A qualifying system is called once per copy of it in the list; a
      system that does not qualify is not called at all. */
  lemma {:induction false} DispatchedCount<E>(list: seq<System>, types: seq<int>, e: E, s: System)
    ensures multiset(Dispatched(list, types, e))[Call(s, e)]
            == if Qualifies(s.deps, types) then multiset(list)[s] else 0
  {
    if list != [] {
      var init, last := list[..|list| - 1], list[|list| - 1];
      DispatchedCount(init, types, e, s);
      assert list == init + [last];
    }
  }

  /** Completeness of the notification after an `AddComponent`: whatever the
      entity had listed before, every registered system with at least one
      dependency that qualifies for the entity's new types is called. */
  lemma AddNotifiesQualified<E>(before: seq<System>, systems: seq<System>, types: seq<int>, e: E, s: System)
    requires s in systems && s.deps != [] && Qualifies(s.deps, types)
    ensures Call(s, e) in Dispatched(before + Gained(systems, types), types, e)
  {
    QualifiesIffContained(s.deps, types);
    var t := s.deps[0];
    assert t in s.deps;
    assert t in types;
    GainedMembers(systems, types);
    assert s in Gained(systems, types);
    DispatchedMembers(before + Gained(systems, types), types, e);
  }

  /** The calls of `ForceUpdate`'s inner loop for one system: the entities
      it qualifies for, in the order of `es`; `types[j]` holds the
      component types of `es[j]` (TinyECS.cs:116-118). */
  function Row<E>(s: System, es: seq<E>, types: seq<seq<int>>): (r: seq<Call<E>>)
    requires |types| == |es|
    decreases |es|
    ensures |r| <= |es|
  {
    if es == [] then []
    else
      var n := |es| - 1;
      Row(s, es[..n], types[..n]) + (if Qualifies(s.deps, types[n]) then [Call(s, es[n])] else [])
  }

  /** The calls of the whole `ForceUpdate` sweep: system-major, in
      registration order, entity-minor (TinyECS.cs:115-118). */
  function Sweep<E>(systems: seq<System>, es: seq<E>, types: seq<seq<int>>): seq<Call<E>>
    requires |types| == |es|
    decreases |systems|
  {
    if systems == [] then []
    else Sweep(systems[..|systems| - 1], es, types) + Row(systems[|systems| - 1], es, types)
  }

  /** One system's row calls it for exactly the entities it qualifies for. */
  lemma {:induction false} RowMembers<E>(s: System, es: seq<E>, types: seq<seq<int>>)
    requires |types| == |es|
    ensures forall c :: c in Row(s, es, types) <==>
              c.system == s && exists j :: 0 <= j < |es| && c.entity == es[j] && Qualifies(s.deps, types[j])
  {
    if es != [] {
      var n := |es| - 1;
      RowMembers(s, es[..n], types[..n]);
      forall c ensures c in Row(s, es, types) <==>
                 c.system == s && exists j :: 0 <= j < |es| && c.entity == es[j] && Qualifies(s.deps, types[j])
      {
        if c.system == s && exists j :: 0 <= j < |es| && c.entity == es[j] && Qualifies(s.deps, types[j]) {
          var j :| 0 <= j < |es| && c.entity == es[j] && Qualifies(s.deps, types[j]);
          if j < n {
            assert es[..n][j] == es[j] && types[..n][j] == types[j];
          }
        }
        if c in Row(s, es[..n], types[..n]) {
          var j :| 0 <= j < n && c.entity == es[..n][j] && Qualifies(s.deps, types[..n][j]);
          assert es[..n][j] == es[j] && types[..n][j] == types[j];
        }
      }
    }
  }

  /** The sweep calls each registered system for exactly the entities it
      qualifies for. */
  lemma {:induction false} SweepMembers<E>(systems: seq<System>, es: seq<E>, types: seq<seq<int>>)
    requires |types| == |es|
    ensures forall c :: c in Sweep(systems, es, types) <==>
              c.system in systems
              && exists j :: 0 <= j < |es| && c.entity == es[j] && Qualifies(c.system.deps, types[j])
  {
    if systems != [] {
      var n := |systems| - 1;
      SweepMembers(systems[..n], es, types);
      RowMembers(systems[n], es, types);
      assert systems == systems[..n] + [systems[n]];
      assert forall x :: x in systems <==> x in systems[..n] || x == systems[n];
    }
  }

  /** Registration order: the sweep over `first + later` makes every call for
      a system of `first` before any call for a system of `later`. */
  lemma {:induction false} SweepSplit<E>(first: seq<System>, later: seq<System>, es: seq<E>, types: seq<seq<int>>)
    requires |types| == |es|
    ensures Sweep(first + later, es, types) == Sweep(first, es, types) + Sweep(later, es, types)
    decreases |later|
  {
    if later != [] {
      var n := |later| - 1;
      SweepSplit(first, later[..n], es, types);
      assert (first + later)[..|first + later| - 1] == first + later[..n];
    } else {
      assert first + later == first;
    }
  }

  lemma RowStep<E>(s: System, es: seq<E>, types: seq<seq<int>>, j: nat)
    requires |types| == |es| && j < |es|
    ensures Row(s, es[..j + 1], types[..j + 1])
            == Row(s, es[..j], types[..j]) + (if Qualifies(s.deps, types[j]) then [Call(s, es[j])] else [])
  {
    assert es[..j + 1][..j] == es[..j];
    assert types[..j + 1][..j] == types[..j];
  }

  lemma SweepStep<E>(systems: seq<System>, es: seq<E>, types: seq<seq<int>>, i: nat)
    requires |types| == |es| && i < |systems|
    ensures Sweep(systems[..i + 1], es, types) == Sweep(systems[..i], es, types) + Row(systems[i], es, types)
  {
    assert systems[..i + 1][..i] == systems[..i];
  }

  lemma CopiesStep(s: System, types: seq<int>, j: nat)
    requires j < |types|
    ensures Copies(s, types[..j + 1]) == Copies(s, types[..j]) + (if types[j] in s.deps then [s] else [])
  {
    assert types[..j + 1][..j] == types[..j];
  }

  lemma GainedStep(systems: seq<System>, types: seq<int>, i: nat)
    requires i < |systems|
    ensures Gained(systems[..i + 1], types) == Gained(systems[..i], types) + Copies(systems[i], types)
  {
    assert systems[..i + 1][..i] == systems[..i];
  }

  lemma DispatchedStep<E>(list: seq<System>, types: seq<int>, e: E, k: nat)
    requires k < |list|
    ensures Dispatched(list[..k + 1], types, e)
            == Dispatched(list[..k], types, e) + (if Qualifies(list[k].deps, types) then [Call(list[k], e)] else [])
  {
    assert list[..k + 1][..k] == list[..k];
  }

  lemma CopiesAppend(s: System, types: seq<int>, t: int)
    ensures Copies(s, types + [t]) == Copies(s, types) + (if t in s.deps then [s] else [])
  {
  }

  lemma GainedAppend(systems: seq<System>, s: System, types: seq<int>)
    ensures Gained(systems + [s], types) == Gained(systems, types) + Copies(s, types)
  {
  }

  lemma DispatchedAppend<E>(list: seq<System>, x: System, types: seq<int>, e: E)
    ensures Dispatched(list + [x], types, e)
            == Dispatched(list, types, e) + (if Qualifies(x.deps, types) then [Call(x, e)] else [])
  {
  }

  lemma ReplayStep<E>(list: seq<System>, e: E, k: nat)
    requires k < |list|
    ensures Replay(list[..k + 1], e) == Replay(list[..k], e) + [Call(list[k], e)]
  {
  }
}
