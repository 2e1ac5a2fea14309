# TinyECS registry, modelled in Dafny

TinyECS is a small Entity-Component-System registry. An `ECSManager` keeps an
ordered list of systems and a list of entities. Each entity (`TinyEntity`)
stores its components in two parallel lists, `ComponentTypes` and
`ComponentValues`. It also keeps a list `systemDepencies` of systems, which
only ever grows. A system names the component types it depends on. It
*qualifies* for an entity when
`deps.Intersect(types).Count() == deps.Count()`.

Every `AddComponent` calls back into the manager. The manager then:

1. appends to the entity's `systemDepencies`, for each registered system,
   one copy per entry of `ComponentTypes` that the system depends on;
2. calls `UpdateEntity` for every entry of that list that qualifies.

`Update()` calls every listed entry again, with no check. `ForceUpdate()`
sweeps every system against every entity.

The model has five modules:

- `Qualification` (`qualification.dfy`): LINQ's `Intersect` written out, the
  qualification predicate, and what it means.
- `Lists` (`lists.dfy`): the .NET `List` operations the code relies on
  (`IndexOf`, `RemoveAt`, `Remove`) as functions. It also holds the
  exceptions the code can raise, as values.
- `Dispatch` (`dispatch.dfy`): what each loop computes, as functions on
  sequences. `Gained` is what an `AddComponent` lists. `Dispatched`,
  `Replay` and `Sweep` are the calls made by the dispatch loop, by
  `Update()` and by `ForceUpdate()`.
- `TinyEcs` (`ecs.dfy`): `ECSManager` as class `Manager` and `TinyEntity` as
  class `Entity`. Their fields are updated in place by methods with loops.
  Each method is proved against the functions of `Dispatch`. Every call to a
  system's `UpdateEntity` is appended to the manager's ghost `log`.
- `Scenarios` (`scenarios.dfy`): the unit tests of
  `TestTinyECS/TinyECSUnityTests.cs`, stated through the contracts above,
  and some client sequences (add then get, add then remove). It also shows
  what removing a just-created entity does to the manager's list, although
  no client can reach `RemoveEntity` (see below).

The model uses these representations:

- Component types are integer ids.
- Component values have a type parameter `V`.
- A system is the value `System(id, deps)`.
- Both entity callbacks, `ApplyForSystems` and `RemoveEntity`, are the
  entity's `owner` manager.

## Model

| member | source | states |
|---|---|---|
| Qualification.Intersect | TinyECS.cs:117 | LINQ `Intersect`: elements of the first list that occur in the second, each yielded once, in first-list order |
| Qualification.Qualifies | TinyECS.cs:199 | the qualification test: the intersection has as many entries as the dependency list |
| Qualification.IntersectMembers | TinyECS.cs:117 | the intersection never has more entries than the dependency list and never repeats one; a type is in it exactly when it is in both lists |
| Qualification.IntersectKeepsAll | TinyECS.cs:117 | the intersection keeps every dependency exactly when the dependencies are distinct and all among the entity's types |
| Qualification.QualifiesIffContained | TinyECS.cs:117 | a system qualifies if and only if its dependencies are distinct and every one occurs in the entity's component types |
| Qualification.QualifiesIffSubset | TinyECS.cs:199 | for a duplicate-free dependency list, qualification is exactly the subset test on the two sets of types |
| Qualification.DuplicateNeverQualifies | TinyECS.cs:117 | a dependency list that repeats a type never qualifies, whatever the entity holds |
| Qualification.QualifiesMonotone | TinyECS.cs:199 | adding component types never disqualifies a system |
| Lists.IndexOf | TinyECS.cs:240 | `List.IndexOf`: -1 exactly when absent, otherwise the first index holding the element |
| Lists.RemoveAt | TinyECS.cs:269-270 | `List.RemoveAt`: one entry shorter; entries before the index stay, entries after it move down one place in order |
| Lists.RemoveFirst | TinyECS.cs:145 | `List.Remove`: when the element is present, one entry shorter, entries before its first index unchanged and entries after it moved down one place; otherwise the list unchanged |
| Lists.RemoveAtMultiset | TinyECS.cs:269-270 | `RemoveAt` takes away exactly the one entry at the index |
| Lists.RemoveFirstMultiset | TinyECS.cs:143-146 | `List.Remove` takes away exactly one occurrence of the element, if any |
| Lists.IndexOfAfterAppend | TinyECS.cs:248-252 | after appending, lookup finds the new entry only if the type was absent; otherwise the earlier entry still shadows it |
| Lists.RemoveFirstAfterAppend | TinyECS.cs:143-146 | removing an element just appended restores the list when it was new; otherwise the earlier occurrence goes and the new one stays |
| Dispatch.Copies | TinyECS.cs:193-195 | the inner loop for one system: the copies it appends, counted by `CopiesCount` and `CopiesMultiset` |
| Dispatch.Gained | TinyECS.cs:192-195 | the nested loops: the copies of every registered system, in registration order; what it holds is stated by `GainedMembers` and `GainedCount` |
| Dispatch.Dispatched | TinyECS.cs:198-200 | the dispatch loop: one call per qualifying list entry, in list order; stated by `DispatchedMembers` and `DispatchedCount` |
| Dispatch.Row | TinyECS.cs:116-118 | the inner loop of `ForceUpdate` for one system: never more calls than entities; its calls are stated by `RowMembers` |
| Dispatch.Sweep | TinyECS.cs:115-118 | the whole `ForceUpdate` sweep, row after row; stated by `SweepMembers` and `SweepSplit` |
| Dispatch.CopiesCount | TinyECS.cs:193-195 | the inner loop appends one copy of the system per index of `ComponentTypes` whose type the system depends on |
| Dispatch.CopiesMultiset | TinyECS.cs:193-195 | the inner loop appends copies of that one system only |
| Dispatch.GainedCount | TinyECS.cs:192-195 | a system registered `k` times is listed `k` times its number of copies by one `AddComponent` |
| Dispatch.AddCallCount | TinyECS.cs:189-201 | during one `AddComponent`, a qualifying system is called once per copy listed before plus once per copy listed now; one that does not qualify is never called |
| Dispatch.Replay | TinyECS.cs:168-172 | one call per list entry, entry `i` giving call `i`, same length as the list, no qualification test |
| Dispatch.CopiesMembers | TinyECS.cs:193-195 | the inner loop appends copies of the system and nothing else, and appends any exactly when the system shares a type with the entity |
| Dispatch.GainedMembers | TinyECS.cs:192-195 | an `AddComponent` lists exactly the registered systems that share at least one type with the entity |
| Dispatch.EmptyDepsNeverGained | TinyECS.cs:192-195 | a system with no dependencies is never listed by `AddComponent`, so never notified by it |
| Dispatch.DispatchedMembers | TinyECS.cs:198-200 | the dispatch loop calls exactly the listed systems that qualify, and only for this entity |
| Dispatch.DispatchedCount | TinyECS.cs:198-200 | a qualifying system is called once per listed copy; one that does not qualify is never called |
| Dispatch.AddNotifiesQualified | TinyECS.cs:189-201 | after an `AddComponent`, every registered system with a dependency that qualifies is called, whatever was listed before |
| Dispatch.RowMembers | TinyECS.cs:116-118 | one system's row of the sweep calls it for exactly the entities it qualifies for |
| Dispatch.SweepMembers | TinyECS.cs:113-119 | `ForceUpdate` makes a call for exactly the registered system and entity pairs that qualify |
| Dispatch.SweepSplit | TinyECS.cs:115 | system-major order: all calls for earlier-registered systems come before any call for later ones |
| TinyEcs.TypesOf | TinyECS.cs:116-117 | the component types of each entity, one entry per entity, in entity order |
| TinyEcs.Manager.constructor | TinyECS.cs:94-95 | a new manager has no systems, no entities and no calls made |
| TinyEcs.Manager.AddSystem | TinyECS.cs:102-105 | appends the system at the end; entities and the call log are unchanged |
| TinyEcs.Manager.ForceUpdate | TinyECS.cs:113-119 | only the call log changes; it grows by the sweep, system-major and entity-minor |
| TinyEcs.Manager.CreateEntity | TinyECS.cs:129-134 | a fresh entity owned by this manager, with empty lists, appended at the end of `entities`; systems and log unchanged |
| TinyEcs.Manager.RemoveEntity | TinyECS.cs:143-146 | deletes the first occurrence of the entity, keeping the order of the others, and exactly one copy of it (private, and never reached: see below) |
| TinyEcs.Manager.ApplyForSystems | TinyECS.cs:148-151 | passes the current systems to the entity: listing as in `ResetSystemDependencies` |
| TinyEcs.Entity.constructor | TinyECS.cs:155-166 | empty component and system lists, wired to its manager |
| TinyEcs.Entity.Update | TinyECS.cs:168-172 | only the call log changes; it grows by one call per listed system, in list order, with no check |
| TinyEcs.Entity.AddComponent | TinyECS.cs:174-179 | appends the type and value, returns the value, lists the systems sharing a type, then calls every qualifying listed entry |
| TinyEcs.Entity.GetComponent | TinyECS.cs:181-187 | succeeds exactly when the type is present, with the value at its first index; otherwise an out-of-range error |
| TinyEcs.Entity.ResetSystemDependencies | TinyECS.cs:189-201 | the list grows, for each registered system, by one copy per entry of `ComponentTypes` that the system depends on; the calls made are the qualifying listed entries |
| TinyEcs.Entity.AppendSharingSystems | TinyECS.cs:192-195 | the nested loops append exactly `Gained(systems, types)` |
| TinyEcs.Entity.DispatchListedSystems | TinyECS.cs:198-200 | the loop appends exactly the calls `Dispatched(list, types, this)` to the log |
| TinyEcs.Entity.RemoveComponent | TinyECS.cs:203-206 | succeeds exactly when the type is present, removing its first entry from both lists at the same index; otherwise an error with nothing changed; never calls a system |
| TinyEcs.Entity.Destroy | TinyECS.cs:208-219 | never completes: with components it removes the first and fails on the changed list; without, it fails on the null callback |
| TinyEcs.Entity.CreateNewComponentInstance | TinyECS.cs:226-231 | appends the type and the given value to the lists and returns that value |
| TinyEcs.Entity.GetComponentValueByType | TinyECS.cs:238-241 | the value at the first index of the type, or an out-of-range error when absent |
| TinyEcs.Entity.GetComponentValueByIndex | TinyECS.cs:243-246 | the value at the index when it is in range, otherwise an out-of-range error |
| TinyEcs.Entity.AddComponentToLists | TinyECS.cs:248-252 | appends to both lists, keeping them aligned |
| TinyEcs.Entity.RemoveComponentFromLists | TinyECS.cs:254-257 | removes at the first index of the type in both lists, or fails unchanged when absent |
| TinyEcs.Entity.RemoveComponentFromListsAtIndex | TinyECS.cs:264-271 | removes at the same in-range index from both lists; out of range it fails with nothing changed |
| Scenarios.QualifiesInScenarios | TestTinyECS/TinyECSUnityTests.cs:121-146 | system A (A, B) qualifies for {A, B} only; system B (B, C) qualifies for {B, C} only |
| Scenarios.GainedForFirstEntity | TestTinyECS/TinyECSUnityTests.cs:43-46 | adding A lists system A once; adding B lists A twice and B once more |
| Scenarios.GainedForSecondEntity | TestTinyECS/TinyECSUnityTests.cs:50-53 | adding B lists both systems; adding C lists A once and B twice |
| Scenarios.DispatchedForFirstEntity | TestTinyECS/TinyECSUnityTests.cs:45-48 | the first entity: no call after A; after B three calls of system A and none of B, for any type lists on which A and B qualify as in the test |
| Scenarios.DispatchedForSecondEntity | TestTinyECS/TinyECSUnityTests.cs:52-56 | the second entity: no call after B; after C three calls of system B and none of A, for any type lists on which A and B qualify as in the test |
| Scenarios.GainedWithOneSystem | TestTinyECS/TinyECSUnityTests.cs:87-92 | with system A alone, adding A then B lists it once, then twice more |
| Scenarios.UpdateScenario | TestTinyECS/TinyECSUnityTests.cs:87-97 | the entity then lists A three times, so `Update()` calls system A three times |
| Scenarios.ChangeInPlaceThenUpdate | TestTinyECS/TinyECSUnityTests.cs:94-102 | after the client changes the stored object, `Update()` calls every listed system and `GetComponent` hands back that changed object |
| Scenarios.AddThenGet | TestTinyECS/TinyECSUnityTests.cs:71-76 | for a new type, `GetComponent` returns exactly the value `AddComponent` returned |
| Scenarios.AddDuplicateThenGet | TinyECS.cs:174-187 | adding a type again appends; `GetComponent` still returns the earlier value |
| Scenarios.AddNotifies | TinyECS.cs:189-201 | a registered system with dependencies that qualifies after an add is called during that add |
| Scenarios.RemoveSilences | TinyECS.cs:113-119 | after removing a needed type, a later `ForceUpdate` no longer calls that system for the entity |
| Scenarios.AddThenRemove | TinyECS.cs:174-206 | removing a type just added restores both lists, but the systems it listed stay listed |
| Scenarios.CreateThenRemove | TinyECS.cs:129-146 | removing an entity just created restores the manager's list (a sequence no client can run, since `RemoveEntity` is private and never reached) |

## Left out

- Client systems' `UpdateEntity` bodies are external code. A call is only
  recorded in the ghost `log`. Re-entrant calls back into the manager are
  not modelled.
- `Activator.CreateInstance<T>()` at TinyECS.cs:228 is reflection. The new
  component value is a parameter of `AddComponent`.
- `System.Type` identity is replaced by integer ids. LINQ `Intersect` is
  written out as a function.
- `ComponentDependencies()` is assumed to return the same list on every
  call. It is the `deps` field of `System`.
- `GetComponent`'s `default(T)` branch (TinyECS.cs:184-186) is taken only
  when the stored value is null. Values are opaque here, so that branch
  is not distinguished from a stored value.
- TinyEcs.Entity.Destroy: in the empty case the code sets both lists and
  both callbacks to null (TinyECS.cs:213-216) before it fails, and the
  entity stays in the manager's `entities`. From then on a `ForceUpdate`
  with at least one system throws `ArgumentNullException` at
  TinyECS.cs:117, and `AddComponent`, `GetComponent` and `RemoveComponent`
  on that entity throw `NullReferenceException` (TinyECS.cs:250, 240,
  256). The model only reports the failure of `Destroy` and leaves the
  lists as they were, so afterwards it still treats the entity as holding
  no components and keeps sweeping it.
- TinyEcs.Manager.RemoveEntity is private, and its only caller, `Destroy`,
  sets the callback to null (TinyECS.cs:216) before invoking it
  (TinyECS.cs:218). No execution reaches it; it is modelled as the
  `List.Remove` it would perform.
- The `RemoveComponentfromLists(object)` overload (TinyECS.cs:259-262) is
  never called, so it is not modelled.
- The null assignments before `RemoveAt` (TinyECS.cs:266-267) have no
  observable effect, so they are not modelled.
- `TestTinyECS/UnitTest1.cs` targets an older API and is not part of this
  model.
- `Tiny ECS Library/TinyECS.cs` is an older version of the library and is
  not part of this model.
- TinyEcs.Manager.ForceUpdate: its loop gathers the calls in a ghost
  sequence and appends it to the log once, after the sweep. Since the
  systems' bodies are not modelled, the resulting log is the same.
- TinyEcs.Entity.ResetSystemDependencies: the two loops are split into two
  helper methods, `AppendSharingSystems` and `DispatchListedSystems`.
- The scenario lemmas are stated for any systems with the stated
  dependency facts, not only for the two test systems.
- Exceptions are values of `Error`. The .NET list indexer raises
  `ArgumentOutOfRangeException`, and a `foreach` over a changed list raises
  `InvalidOperationException`; they are `ArgumentOutOfRange` and
  `CollectionModified` here.

Behaviour of the code worth knowing:

- A second `AddComponent` of a type appends and does not replace it.
  `GetComponent` keeps returning the first value.
- `GetComponent` of an absent type is an out-of-range error: the comment
  at TinyECS.cs:185 speaks of a default value, but the lookup at
  TinyECS.cs:240-245 indexes with -1 and throws before that branch.
- `RemoveComponent` of an absent type is an error.
- Removing a component notifies no system and does not shorten
  `systemDepencies`. So `Update()` keeps calling systems that no longer
  qualify.
- A system with no dependencies is never listed by `AddComponent`, so it
  is only called by `ForceUpdate`.
- `systemDepencies` holds repeated entries, which cause repeated calls.
- `AddSystem` does not notify existing entities.
- The interface comment on `Update()` (TinyECS.cs:66-68) says an entity
  reaches its systems only through `Update()`. `AddComponent` calls them
  too, through `ResetSystemDependencies`, and so does `ForceUpdate`.
