/** The scenarios of TestTinyECS/TinyECSUnityTests.cs, restated as lemmas
    and methods about the model. Component types: 1 for CustomComponent_A,
    2 for CustomComponent_B, 3 for CustomComponent_C. The lemmas hold for
    any systems with the dependency facts the test systems have;
    `QualifiesInScenarios` supplies those facts for the test systems. */
module Scenarios {
  import opened Qualification
  import opened Lists
  import opened Dispatch
  import opened TinyEcs

  /** A component whose field the client changes in place, as
      CustomComponent_A's `value_A`. */
  class ComponentA {
    var valueA: int
    constructor ()
      ensures valueA == 25
    {
      valueA := 25;
    }
  }

  /** Which of the two systems qualify for the type lists of the scenarios;
      `a` stands for CustomSystem_A, which depends on A and B, and `b` for
      CustomSystem_B, which depends on B and C. */
  lemma QualifiesInScenarios(a: System, b: System)
    requires a.deps == [1, 2] && b.deps == [2, 3]
    ensures !Qualifies(a.deps, [1]) && Qualifies(a.deps, [1, 2])
    ensures !Qualifies(a.deps, [2]) && !Qualifies(b.deps, [2])
    ensures Qualifies(b.deps, [2, 3])
    ensures !Qualifies(b.deps, [1, 2]) && !Qualifies(a.deps, [2, 3])
  {
    QualifiesIffContained(a.deps, [1]);
    QualifiesIffContained(a.deps, [1, 2]);
    QualifiesIffContained(b.deps, [1, 2]);
    QualifiesIffContained(b.deps, [2]);
    QualifiesIffContained(a.deps, [2, 3]);
    QualifiesIffContained(b.deps, [2, 3]);
    QualifiesIffContained(a.deps, [2]);
    assert 1 in a.deps && 2 in a.deps && 3 in b.deps;
  }

  /** TinyECSUnityTests.cs:43-48, what each `AddComponent` appends to the
      first entity's list, for any two systems that share types with it as
      CustomSystem_A and CustomSystem_B do: A lists `a` once, then B lists
      `a` twice and `b` once, so the list becomes `[a, a, a, b]`. */
  lemma GainedForFirstEntity(a: System, b: System)
    requires 1 in a.deps && 2 in a.deps
    requires 1 !in b.deps && 2 in b.deps
    ensures Gained([a, b], [1]) == [a]
    ensures Gained([a, b], [1, 2]) == [a, a, b]
  {
    assert [] + [1] == [1] && [1] + [2] == [1, 2];
    CopiesAppend(a, [], 1);
    CopiesAppend(b, [], 1);
    CopiesAppend(a, [1], 2);
    CopiesAppend(b, [1], 2);
    assert [] + [a] == [a] && [a] + [b] == [a, b];
    GainedAppend([], a, [1]);
    GainedAppend([a], b, [1]);
    GainedAppend([], a, [1, 2]);
    GainedAppend([a], b, [1, 2]);
  }

  /** TinyECSUnityTests.cs:50-56, the same for the second entity: B lists
      both systems, then C lists `a` once and `b` twice, so the list becomes
      `[a, b, a, b, b]`. */
  lemma GainedForSecondEntity(a: System, b: System)
    requires 2 in a.deps && 3 !in a.deps
    requires 2 in b.deps && 3 in b.deps
    ensures Gained([a, b], [2]) == [a, b]
    ensures Gained([a, b], [2, 3]) == [a, b, b]
  {
    assert [] + [2] == [2] && [2] + [3] == [2, 3];
    CopiesAppend(a, [], 2);
    CopiesAppend(b, [], 2);
    CopiesAppend(a, [2], 3);
    CopiesAppend(b, [2], 3);
    assert [] + [a] == [a] && [a] + [b] == [a, b];
    GainedAppend([], a, [2]);
    GainedAppend([a], b, [2]);
    GainedAppend([], a, [2, 3]);
    GainedAppend([a], b, [2, 3]);
  }

  /** The calls the first entity's two `AddComponent`s make, with `one` its
      types after the first and `two` after the second: none, then one call
      of `a` per listed copy, and none of `b`. */
  lemma DispatchedForFirstEntity<E>(a: System, b: System, one: seq<int>, two: seq<int>, e: E)
    requires !Qualifies(a.deps, one) && Qualifies(a.deps, two) && !Qualifies(b.deps, two)
    ensures Dispatched([a], one, e) == []
    ensures Dispatched([a, a, a, b], two, e) == [Call(a, e), Call(a, e), Call(a, e)]
  {
    var c := Call(a, e);
    assert Dispatched([a], one, e) == [] by {
      DispatchedAppend([], a, one, e);
      assert [] + [a] == [a];
    }
    assert Dispatched([a], two, e) == [c] by {
      DispatchedAppend([], a, two, e);
      assert [] + [a] == [a];
    }
    assert Dispatched([a, a], two, e) == [c, c] by {
      DispatchedAppend([a], a, two, e);
      assert [a] + [a] == [a, a];
    }
    assert Dispatched([a, a, a], two, e) == [c, c, c] by {
      DispatchedAppend([a, a], a, two, e);
      assert [a, a] + [a] == [a, a, a];
    }
    assert Dispatched([a, a, a, b], two, e) == [c, c, c] by {
      DispatchedAppend([a, a, a], b, two, e);
      assert [a, a, a] + [b] == [a, a, a, b];
    }
  }

  /** The calls the second entity's two `AddComponent`s make: none, then
      one call of `b` per listed copy, and none of `a`. */
  lemma DispatchedForSecondEntity<E>(a: System, b: System, one: seq<int>, two: seq<int>, e: E)
    requires !Qualifies(a.deps, one) && !Qualifies(b.deps, one)
    requires !Qualifies(a.deps, two) && Qualifies(b.deps, two)
    ensures Dispatched([a, b], one, e) == []
    ensures Dispatched([a, b, a, b, b], two, e) == [Call(b, e), Call(b, e), Call(b, e)]
  {
    var c := Call(b, e);
    assert Dispatched([a], one, e) == [] by {
      DispatchedAppend([], a, one, e);
      assert [] + [a] == [a];
    }
    assert Dispatched([a, b], one, e) == [] by {
      DispatchedAppend([a], b, one, e);
      assert [a] + [b] == [a, b];
    }
    assert Dispatched([a], two, e) == [] by {
      DispatchedAppend([], a, two, e);
      assert [] + [a] == [a];
    }
    assert Dispatched([a, b], two, e) == [c] by {
      DispatchedAppend([a], b, two, e);
      assert [a] + [b] == [a, b];
    }
    assert Dispatched([a, b, a], two, e) == [c] by {
      DispatchedAppend([a, b], a, two, e);
      assert [a, b] + [a] == [a, b, a];
    }
    assert Dispatched([a, b, a, b], two, e) == [c, c] by {
      DispatchedAppend([a, b, a], b, two, e);
      assert [a, b, a] + [b] == [a, b, a, b];
    }
    assert Dispatched([a, b, a, b, b], two, e) == [c, c, c] by {
      DispatchedAppend([a, b, a, b], b, two, e);
      assert [a, b, a, b] + [b] == [a, b, a, b, b];
    }
  }

  /** TinyECSUnityTests.cs:87-93: with CustomSystem_A registered alone, the
      entity's `AddComponent`s of A and then B list `a` once and then twice
      more. */
  lemma GainedWithOneSystem(a: System)
    requires 1 in a.deps && 2 in a.deps
    ensures Gained([a], [1]) == [a]
    ensures Gained([a], [1, 2]) == [a, a]
  {
  }

  /** TinyECSUnityTests.cs:87-97, through the contracts of `AddComponent`
      and `Update`: the entity then lists `a` three times, so `Update()`
      calls system A three times. */
  lemma UpdateScenario<E>(a: System, e: E)
    requires 1 in a.deps && 2 in a.deps
    ensures var afterB := Gained([a], [1]) + Gained([a], [1, 2]);
            && afterB == [a, a, a]
            && Replay(afterB, e) == [Call(a, e), Call(a, e), Call(a, e)]
  {
  }

  /** TinyECSUnityTests.cs:94-102: the client changes the stored component
      object's field in place; `Update()` then calls every listed system
      again, and `GetComponent` hands them the changed object. */
  method ChangeInPlaceThenUpdate(e: Entity<object>, component: ComponentA) returns (got: Result<object>)
    requires e.Valid() && 1 in e.componentTypes
    requires e.componentValues[IndexOf(e.componentTypes, 1)] == component
    modifies component, e.owner`log
    ensures e.owner.log == old(e.owner.log) + Replay(e.systemDependencies, e)
    ensures got == Ok(component as object) && component.valueA == 12
  {
    component.valueA := 12;
    e.Update();
    got := e.GetComponent(1);
  }

  /** TinyECSUnityTests.cs:71-76: `AddComponent` hands back the value it
      stored, and, for a type the entity did not have, `GetComponent`
      returns that same value afterwards. */
  method AddThenGet<V>(e: Entity<V>, t: int, value: V) returns (added: V, got: Result<V>)
    requires e.Valid() && t !in e.componentTypes
    modifies e, e.owner`log
    ensures added == value && got == Ok(value)
  {
    added := e.AddComponent(t, value);
    IndexOfAfterAppend(old(e.componentTypes), t);
    got := e.GetComponent(t);
  }

  /** An entity that already has a component of type `t` keeps returning the
      first one: a second `AddComponent` of `t` appends and does not
      replace. */
  method AddDuplicateThenGet<V>(e: Entity<V>, t: int, value: V) returns (got: Result<V>)
    requires e.Valid() && t in e.componentTypes
    modifies e, e.owner`log
    ensures got == Ok(old(e.componentValues[IndexOf(e.componentTypes, t)]))
    ensures |e.componentTypes| == old(|e.componentTypes|) + 1
  {
    var _ := e.AddComponent(t, value);
    IndexOfAfterAppend(old(e.componentTypes), t);
    got := e.GetComponent(t);
  }

  /** Completeness of the notification on `AddComponent`: every registered
      system with at least one dependency that qualifies once `t` is added
      is called for the entity during that call. */
  method AddNotifies<V>(e: Entity<V>, t: int, value: V, s: System)
    requires e.Valid() && s in e.owner.systems && s.deps != []
    requires Qualifies(s.deps, e.componentTypes + [t])
    modifies e, e.owner`log
    ensures |e.owner.log| >= old(|e.owner.log|) && Call(s, e) in e.owner.log[old(|e.owner.log|)..]
  {
    ghost var before := e.systemDependencies;
    var _ := e.AddComponent(t, value);
    AddNotifiesQualified(before, e.owner.systems, e.componentTypes, e, s);
    assert e.owner.log[old(|e.owner.log|)..] == Dispatched(e.systemDependencies, e.componentTypes, e);
  }

  /** Removing a component notifies nobody, and a system that needed it is
      no longer called by a later `ForceUpdate`. */
  method RemoveSilences<V>(m: Manager<V>, e: Entity<V>, s: System)
    requires e.Valid() && e in m.entities && s in m.systems && NoDuplicates(s.deps)
    requires |s.deps| > 0 && s.deps[0] in e.componentTypes
    requires forall k :: 0 <= k < |e.componentTypes| && k != IndexOf(e.componentTypes, s.deps[0])
                         ==> e.componentTypes[k] != s.deps[0]
    modifies e`componentTypes, e`componentValues, m`log
    ensures m.log == old(m.log) + Sweep(m.systems, m.entities, TypesOf(m.entities))
    ensures Call(s, e) !in Sweep(m.systems, m.entities, TypesOf(m.entities))
  {
    var outcome := e.RemoveComponent(s.deps[0]);
    assert s.deps[0] !in e.componentTypes;
    assert !Qualifies(s.deps, e.componentTypes) by {
      QualifiesIffContained(s.deps, e.componentTypes);
    }
    m.ForceUpdate();
    SweepMembers(m.systems, m.entities, TypesOf(m.entities));
  }

  /** `RemoveComponent` undoes the lists part of an `AddComponent` of a new
      type, but not its listing: the systems it appended stay in the
      entity's `systemDepencies`, so a later `Update()` still calls them. */
  method AddThenRemove<V>(e: Entity<V>, t: int, value: V) returns (outcome: Outcome)
    requires e.Valid() && t !in e.componentTypes
    modifies e, e.owner`log
    ensures outcome == Pass
    ensures e.componentTypes == old(e.componentTypes) && e.componentValues == old(e.componentValues)
    ensures e.systemDependencies == old(e.systemDependencies) + Gained(e.owner.systems, old(e.componentTypes) + [t])
  {
    var _ := e.AddComponent(t, value);
    outcome := e.RemoveComponent(t);
    RemoveFirstAfterAppend(old(e.componentTypes), t);
    IndexOfAfterAppend(old(e.componentTypes), t);
    assert RemoveAt(old(e.componentValues) + [value], |old(e.componentValues)|) == old(e.componentValues);
  }

  /** Removing an entity just created leaves the manager's list as it was.
      No client can run this sequence: `RemoveEntity` is private and
      `Destroy` never reaches it. It shows what `List.Remove` does to the
      list of entities. */
  method CreateThenRemove<V>(m: Manager<V>) returns (e: Entity<V>)
    modifies m`entities
    ensures m.entities == old(m.entities) && m.systems == old(m.systems)
  {
    e := m.CreateEntity();
    m.RemoveEntity(e);
    RemoveFirstAfterAppend(old(m.entities), e);
  }
}
