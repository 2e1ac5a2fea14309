/** The registry of TinyECS.cs: `ECSManager` and its nested `TinyEntity`.
    Both update lists in place, so both are classes. Every call to a
    client system's `UpdateEntity` is recorded in the manager's ghost
    `log`; what a system does when called is not modelled. */
module TinyEcs {
  import opened Qualification
  import opened Lists
  import opened Dispatch

  /** The component types of each entity, in the order of `es`. */
  function TypesOf<V>(es: seq<Entity<V>>): (r: seq<seq<int>>)
    reads es
    ensures |r| == |es|
    ensures forall j :: 0 <= j < |es| ==> r[j] == es[j].componentTypes
  {
    seq(|es|, j requires 0 <= j < |es| reads es => es[j].componentTypes)
  }

  /** `ECSManager`: the systems in registration order, the live entities in
      creation order, and the record of the calls made to the systems. */
  class Manager<V> {
    var systems: seq<System>
    var entities: seq<Entity<V>>
    ghost var log: seq<Call<Entity<V>>>

    constructor ()
      ensures systems == [] && entities == [] && log == []
    {
      systems, entities, log := [], [], [];
    }

    /** TinyECS.cs:102-105: appends, and notifies no entity. */
    method AddSystem(system: System)
      modifies this`systems
      ensures systems == old(systems) + [system]
      ensures entities == old(entities) && log == old(log)
    {
      systems := systems + [system];
    }

    /** TinyECS.cs:113-119: calls every system for every entity it
        qualifies for, and changes nothing else. */
    method ForceUpdate()
      modifies this`log
      ensures log == old(log) + Sweep(systems, entities, TypesOf(entities))
    {
      ghost var types := TypesOf(entities);
      ghost var calls := [];
      var i := 0;
      while i < |systems|
        invariant 0 <= i <= |systems|
        invariant calls == Sweep(systems[..i], entities, types)
        invariant log == old(log)
      {
        var system := systems[i];
        ghost var swept := calls;
        var j := 0;
        while j < |entities|
          invariant 0 <= j <= |entities|
          invariant calls == swept + Row(system, entities[..j], types[..j])
          invariant log == old(log)
        {
          var entity := entities[j];
          assert types[j] == entity.componentTypes;
          RowStep(system, entities, types, j);
          if Qualifies(system.deps, entity.componentTypes) {
            calls := calls + [Call(system, entity)];
          }
          j := j + 1;
        }
        assert entities[..j] == entities && types[..j] == types;
        SweepStep(systems, entities, types, i);
        i := i + 1;
      }
      assert systems[..i] == systems;
      log := log + calls;
      assert TypesOf(entities) == types;
    }

    /** TinyECS.cs:129-134: a new entity with empty lists, wired to this
        manager, appended to `entities`. */
    method CreateEntity() returns (entity: Entity<V>)
      modifies this`entities
      ensures fresh(entity) && entity.owner == this && entity.Valid()
      ensures entity.componentTypes == [] && entity.componentValues == [] && entity.systemDependencies == []
      ensures entities == old(entities) + [entity]
      ensures systems == old(systems) && log == old(log)
    {
      entity := new Entity(this);
      entities := entities + [entity];
    }

    /** TinyECS.cs:143-146: `List.Remove`, the first occurrence only. The
        method is private and its only caller, `Destroy`, sets the callback
        to null (TinyECS.cs:216) before calling it (TinyECS.cs:218), so the
        code never reaches it; it is modelled for what it would do. */
    method RemoveEntity(entity: Entity<V>)
      modifies this`entities
      ensures entities == RemoveFirst(old(entities), entity)
      ensures multiset(entities) == multiset(old(entities)) - multiset{entity}
    {
      RemoveFirstMultiset(entities, entity);
      entities := RemoveFirst(entities, entity);
    }

    /** TinyECS.cs:148-151: the callback an entity invokes after each
        `AddComponent`. */
    method ApplyForSystems(entity: Entity<V>)
      requires entity.owner == this
      modifies entity`systemDependencies, this`log
      ensures entity.systemDependencies == old(entity.systemDependencies) + Gained(systems, entity.componentTypes)
      ensures log == old(log) + Dispatched(entity.systemDependencies, entity.componentTypes, entity)
    {
      entity.ResetSystemDependencies(systems);
    }
  }

  /** `TinyEntity`: two index-aligned lists holding the components, and the
      list of systems it has been matched to. `owner` stands for both
      callbacks it receives from the manager that created it. */
  class Entity<V> {
    const owner: Manager<V>
    var componentTypes: seq<int>
    var componentValues: seq<V>
    var systemDependencies: seq<System>

    /** The two component lists stay index-aligned. */
    ghost predicate Valid()
      reads this
    {
      |componentTypes| == |componentValues|
    }

    /** TinyECS.cs:155-166. */
    constructor (owner: Manager<V>)
      ensures this.owner == owner && Valid()
      ensures componentTypes == [] && componentValues == [] && systemDependencies == []
    {
      this.owner := owner;
      componentTypes, componentValues, systemDependencies := [], [], [];
    }

    /** TinyECS.cs:168-172: calls every listed system, once per entry, with
        no qualification test, and changes no state. */
    method Update()
      modifies owner`log
      ensures owner.log == old(owner.log) + Replay(systemDependencies, this)
    {
      var k := 0;
      while k < |systemDependencies|
        invariant 0 <= k <= |systemDependencies|
        invariant owner.log == old(owner.log) + Replay(systemDependencies[..k], this)
      {
        ReplayStep(systemDependencies, this, k);
        owner.log := owner.log + [Call(systemDependencies[k], this)];
        k := k + 1;
      }
      assert systemDependencies[..k] == systemDependencies;
    }

    /** TinyECS.cs:174-179: appends the new component (even when one of the
        same type is already there), then lets the manager re-match and
        dispatch. The value that `Activator.CreateInstance` would build is
        passed in. */
    method AddComponent(t: int, value: V) returns (component: V)
      requires Valid()
      modifies this, owner`log
      ensures Valid() && component == value
      ensures componentTypes == old(componentTypes) + [t]
      ensures componentValues == old(componentValues) + [value]
      ensures systemDependencies == old(systemDependencies) + Gained(owner.systems, componentTypes)
      ensures owner.log == old(owner.log) + Dispatched(systemDependencies, componentTypes, this)
    {
      component := CreateNewComponentInstance(t, value);
      owner.ApplyForSystems(this);
    }

    /** TinyECS.cs:181-187: the value at the first index of type `t`. With
        no such index, `IndexOf` gives -1 and indexing the list fails. */
    method GetComponent(t: int) returns (r: Result<V>)
      requires Valid()
      ensures r.Ok? <==> t in componentTypes
      ensures r.Ok? ==> r.value == componentValues[IndexOf(componentTypes, t)]
      ensures r.Err? ==> r.error == ArgumentOutOfRange
    {
      r := GetComponentValueByType(t);
    }

    /** TinyECS.cs:189-201: appends one copy of each system per component
        type it depends on, then calls every entry of the whole list that
        qualifies. The two loops are the two helpers below. */
    method ResetSystemDependencies(systems: seq<System>)
      modifies this`systemDependencies, owner`log
      ensures systemDependencies == old(systemDependencies) + Gained(systems, componentTypes)
      ensures owner.log == old(owner.log) + Dispatched(systemDependencies, componentTypes, this)
    {
      AppendSharingSystems(systems);
      DispatchListedSystems();
    }

    /** TinyECS.cs:192-195. */
    method AppendSharingSystems(systems: seq<System>)
      modifies this`systemDependencies
      ensures systemDependencies == old(systemDependencies) + Gained(systems, componentTypes)
    {
      var i := 0;
      while i < |systems|
        invariant 0 <= i <= |systems|
        invariant systemDependencies == old(systemDependencies) + Gained(systems[..i], componentTypes)
      {
        var system := systems[i];
        ghost var listed := systemDependencies;
        var j := 0;
        while j < |componentTypes|
          invariant 0 <= j <= |componentTypes|
          invariant systemDependencies == listed + Copies(system, componentTypes[..j])
        {
          CopiesStep(system, componentTypes, j);
          if componentTypes[j] in system.deps {
            systemDependencies := systemDependencies + [system];
          }
          j := j + 1;
        }
        assert componentTypes[..j] == componentTypes;
        GainedStep(systems, componentTypes, i);
        i := i + 1;
      }
      assert systems[..i] == systems;
    }

    /** TinyECS.cs:198-200. */
    method DispatchListedSystems()
      modifies owner`log
      ensures owner.log == old(owner.log) + Dispatched(systemDependencies, componentTypes, this)
    {
      var k := 0;
      while k < |systemDependencies|
        invariant 0 <= k <= |systemDependencies|
        invariant owner.log == old(owner.log) + Dispatched(systemDependencies[..k], componentTypes, this)
      {
        var system := systemDependencies[k];
        DispatchedStep(systemDependencies, componentTypes, this, k);
        if Qualifies(system.deps, componentTypes) {
          owner.log := owner.log + [Call(system, this)];
        }
        k := k + 1;
      }
      assert systemDependencies[..k] == systemDependencies;
    }

    /** TinyECS.cs:203-206: deletes the first entry of type `t` from both
        lists and notifies no system; with no such entry the index is -1 and
        the list update fails before anything changes. */
    method RemoveComponent(t: int) returns (outcome: Outcome)
      requires Valid()
      modifies this`componentTypes, this`componentValues
      ensures Valid()
      ensures outcome.Pass? <==> t in old(componentTypes)
      ensures outcome.Pass? ==>
                var i := IndexOf(old(componentTypes), t);
                componentTypes == RemoveAt(old(componentTypes), i)
                && componentValues == RemoveAt(old(componentValues), i)
      ensures outcome.Fail? ==> outcome.error == ArgumentOutOfRange && unchanged(this)
      ensures owner.log == old(owner.log)
    {
      outcome := RemoveComponentFromLists(t);
    }

    /** TinyECS.cs:208-219, which never completes. With components, the
        `foreach` removes the first one and then fails because its own list
        changed. Without, the removal callback is set to null and then
        invoked. */
    method Destroy() returns (error: Error)
      requires Valid()
      modifies this`componentTypes, this`componentValues
      ensures Valid()
      ensures old(componentTypes) == [] ==> error == NullReference && unchanged(this)
      ensures old(componentTypes) != [] ==>
                error == CollectionModified
                && componentTypes == old(componentTypes)[1..]
                && componentValues == old(componentValues)[1..]
      ensures owner.entities == old(owner.entities)
    {
      if componentTypes == [] {
        return NullReference;
      }
      var outcome := RemoveComponentFromLists(componentTypes[0]);
      return CollectionModified;
    }

    /** TinyECS.cs:226-231. */
    method CreateNewComponentInstance(t: int, value: V) returns (component: V)
      requires Valid()
      modifies this`componentTypes, this`componentValues
      ensures Valid() && component == value
      ensures componentTypes == old(componentTypes) + [t]
      ensures componentValues == old(componentValues) + [value]
    {
      AddComponentToLists(t, value);
      component := value;
    }

    /** TinyECS.cs:238-241. */
    method GetComponentValueByType(t: int) returns (r: Result<V>)
      requires Valid()
      ensures r.Ok? <==> t in componentTypes
      ensures r.Ok? ==> r.value == componentValues[IndexOf(componentTypes, t)]
      ensures r.Err? ==> r.error == ArgumentOutOfRange
    {
      r := GetComponentValueByIndex(IndexOf(componentTypes, t));
    }

    /** TinyECS.cs:243-246: the list indexer, which fails out of range. */
    method GetComponentValueByIndex(index: int) returns (r: Result<V>)
      ensures r.Ok? <==> 0 <= index < |componentValues|
      ensures r.Ok? ==> r.value == componentValues[index]
      ensures r.Err? ==> r.error == ArgumentOutOfRange
    {
      if 0 <= index < |componentValues| {
        r := Ok(componentValues[index]);
      } else {
        r := Err(ArgumentOutOfRange);
      }
    }

    /** TinyECS.cs:248-252. */
    method AddComponentToLists(t: int, value: V)
      requires Valid()
      modifies this`componentTypes, this`componentValues
      ensures Valid()
      ensures componentTypes == old(componentTypes) + [t]
      ensures componentValues == old(componentValues) + [value]
    {
      componentTypes := componentTypes + [t];
      componentValues := componentValues + [value];
    }

    /** TinyECS.cs:254-257. */
    method RemoveComponentFromLists(t: int) returns (outcome: Outcome)
      requires Valid()
      modifies this`componentTypes, this`componentValues
      ensures Valid()
      ensures outcome.Pass? <==> t in old(componentTypes)
      ensures outcome.Pass? ==>
                var i := IndexOf(old(componentTypes), t);
                componentTypes == RemoveAt(old(componentTypes), i)
                && componentValues == RemoveAt(old(componentValues), i)
      ensures outcome.Fail? ==> outcome.error == ArgumentOutOfRange && unchanged(this)
    {
      outcome := RemoveComponentFromListsAtIndex(IndexOf(componentTypes, t));
    }

    /** TinyECS.cs:264-271: the first indexer assignment fails out of range
        before either list changes. */
    method RemoveComponentFromListsAtIndex(index: int) returns (outcome: Outcome)
      requires Valid()
      modifies this`componentTypes, this`componentValues
      ensures Valid()
      ensures outcome.Pass? <==> 0 <= index < old(|componentTypes|)
      ensures outcome.Pass? ==>
                componentTypes == RemoveAt(old(componentTypes), index)
                && componentValues == RemoveAt(old(componentValues), index)
      ensures outcome.Fail? ==> outcome.error == ArgumentOutOfRange && unchanged(this)
    {
      if !(0 <= index < |componentTypes|) {
        return Fail(ArgumentOutOfRange);
      }
      componentTypes := RemoveAt(componentTypes, index);
      componentValues := RemoveAt(componentValues, index);
      outcome := Pass;
    }
  }
}
