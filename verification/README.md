# Flow API core, modelled in Dafny

This project models the sequential core of Flow API, a Java library for units
("flux") that can be converted between types and moved through networks of
components. It covers three parts.

- **Conversion.** `ConversionManager` keeps converters in a map keyed by
  `Pair` (input type ID, output type ID). It offers a direct lookup and a
  bounded depth-first search that chains converters. `ConversionRule` is a
  per-type blacklist/whitelist filter.
- **Network topology.** `NetworkBase` keeps a position map, together with the
  default methods of `Network`, `StructureComponent`, `StructureCore` and
  `StructureDelegate`. When a structure delegate is added, the map stores
  the structure's core instead.
- **Value and group bookkeeping.** `Property`, `PropertyManager`, the default
  methods of `Flux`, `FluxContainer.removeFlux(String)` and `FluxGroup`.

Modules, one per concern: `Wrappers` (Option and Result), `Lists`
(ArrayList `remove`), `Pairs`, `FluxTypes`, `ConversionRules`, `Conversion`,
`Network`, `Properties`, `Fluxes`, `FluxGroups`.

Modelling choices:
- Mutators are functions from the old state to the new state. They return
  Java's boolean or old value alongside the new state.
- Java `null` is `None`.
- Java reference identity is value equality of the datatype. Flux types
  carry a `ref`; components carry an `id`.
- The converter map is a Dafny `map` plus a fixed `order` of its keys. That
  order stands for `forEach`'s iteration order. Searching only reads the map
  and never changes it.
- As written, the bounded `getConverter` never reaches its search. At
  ConversionManager.java:116 it creates its result array as a `Function[]`
  and casts it to `T[]`. Because `T extends Converter`, that cast is checked
  against `Converter[]` and fails. So every lookup without a direct
  converter ends in a `ClassCastException` (see "Findings").
  `Conversion.GetConverterWithinAsWritten` models this behaviour. The rest
  of this section, and the `Conversion` rows below that describe a search
  result, are about the corrected code, `Conversion.GetConverterWithin`.
  The corrected code creates the array so that the cast holds.
- The search returns the list of edges (map keys) it chose. It does not
  return a runtime converter value.
- The search is the function `Conversion.Visit`. It threads the shared bound
  (`lowestScore`) and the current best chain through the recursion.
- The model's search always terminates, on cyclic maps too. Its measure is
  the gap between the bound and the depth, then the position in the
  iteration order. The bound only ever shrinks. The Java recursion has
  the same shape, but it runs on a finite call stack (see "Left out").
- A chain of k edges is recorded at depth k - 1. So, in the corrected code,
  when there is no direct converter, a result exists exactly when some chain of 2 to `maxSteps`
  edges leads from `from` to `to` (`Conversion.SearchCorrect`).
- The returned chain has the fewest edges of all chains. A chain found
  depth-first might look as if it could hide a shorter one. It cannot: every
  chain shorter than the current bound is still explored.
- Ties keep the first chain found, because a new champion is recorded only
  at a strictly lower depth.
- The depth-0 "record" branch would call `apply` on a null accumulator. It
  never runs, because a key (from, to) is answered by the direct lookup
  first. Accordingly, every search result has at least two edges.
- `removeNetworkComponent` deletes the entry at the argument's own position.
  It does not redirect a delegate to its core, unlike `add`. One might
  expect removal to resolve a delegate the way `add` does; the model
  follows the code, which does not.
- `addNetworkComponent` has an inner `!isDelegate()` test at
  NetworkBase.java:59-61. It is dead code: the first branch already took
  every non-delegate structure component. `Network.Placed` marks that
  branch with `assert false`.
- Adding a delegate whose structure has no core dereferences null. This is
  the precondition `Network.CanAdd`.
- The static `FluxGroup.fluxGroups` table is an explicit `FluxGroups.Registry`
  value.

## Model

| member | source | states |
|---|---|---|
| `Conversion.GetConverter` | src/main/java/hr/caellian/flow/conversion/ConversionManager.java:91-93 | exact lookup of the key (from, to): found iff that key is registered, and then it is that key's converter |
| `Conversion.DirectLookupIsDirected` | src/main/java/hr/caellian/flow/conversion/ConversionManager.java:91-93 | an entry for (A, B) is found for (A, B) and says nothing about (B, A) |
| `Conversion.ConverterAvailable` | src/main/java/hr/caellian/flow/conversion/ConversionManager.java:68-70 | true iff the one-edge chain (from, to) exists, i.e. the direct lookup is non-null |
| `Conversion.GetConverterWithin` | src/main/java/hr/caellian/flow/conversion/ConversionManager.java:104-109 | the corrected lookup (result array created so that the cast holds): a direct converter is returned for every `maxSteps`, including values <= 0; otherwise the search result |
| `Conversion.GetConverterWithinAsWritten` | src/main/java/hr/caellian/flow/conversion/ConversionManager.java:104-116 | as written: succeeds iff a direct converter exists, and then returns that one-edge chain; every other lookup aborts at the array cast |
| `Conversion.ConverterAvailableWithinAsWritten` | src/main/java/hr/caellian/flow/conversion/ConversionManager.java:81-83 | as written: answers (true) iff a direct converter exists, and aborts at the array cast otherwise |
| `Conversion.ArrayCastCounterexample` | src/main/java/hr/caellian/flow/conversion/ConversionManager.java:116 | on the map A->B, B->C, both lookups as written abort for (A, C), while the corrected search returns A->B->C |
| `Conversion.Visit` | src/main/java/hr/caellian/flow/conversion/ConversionManager.java:114-141 | the shared bound never grows across a call; with its decreases clause this makes the search terminate on every map, cyclic ones included |
| `Conversion.VisitSound` | src/main/java/hr/caellian/flow/conversion/ConversionManager.java:124-137 | the champion is always a registered chain from `from` to `to` with one edge more than the bound; it is replaced only with a strictly lower bound, so ties keep the first chain in iteration order |
| `Conversion.VisitComplete` | src/main/java/hr/caellian/flow/conversion/ConversionManager.java:124-137 | every chain from the current type whose first edge is not yet passed drives the final bound down to at most the depth at which its last edge would be recorded |
| `Conversion.SearchBoundBelowEveryChain` | src/main/java/hr/caellian/flow/conversion/ConversionManager.java:114-146 | after the whole search the bound is at most (edges - 1) of every chain from `from` to `to` |
| `Conversion.SearchCorrect` | src/main/java/hr/caellian/flow/conversion/ConversionManager.java:104-148 | for the corrected search, with no direct converter: a result exists iff a chain of at most `maxSteps` edges exists; the result is such a chain with 2 to `maxSteps` edges, and no chain has fewer edges ("least complex") |
| `Conversion.ConverterAvailableWithin` | src/main/java/hr/caellian/flow/conversion/ConversionManager.java:81-83 | over the corrected search: true iff a direct converter exists or a chain of at most `maxSteps` edges leads from `from` to `to` |
| `Conversion.TwoEdgeChainNeedsTwoSteps` | src/main/java/hr/caellian/flow/conversion/ConversionManager.java:124-137 | with A->B and B->C only, the corrected search finds A->B->C with `maxSteps` = 2 and nothing with `maxSteps` = 1 |
| `Conversion.CycleWithoutTargetFindsNothing` | src/main/java/hr/caellian/flow/conversion/ConversionManager.java:114-137 | on the cycle A->B->A with no edge into C, the corrected search finishes and returns null for every bound |
| `Pairs.SetA` | src/main/java/hr/caellian/flow/data/Pair.java:68-70 | the first component becomes the argument and the second is unchanged |
| `Pairs.SetB` | src/main/java/hr/caellian/flow/data/Pair.java:82-84 | the second component becomes the argument and the first is unchanged |
| `Pairs.Equals` | src/main/java/hr/caellian/flow/data/Pair.java:100-105 | false for null and another class; otherwise true iff the argument is a pair with both components equal |
| `Pairs.EqualsReflexive` | src/main/java/hr/caellian/flow/data/Pair.java:100-104 | every pair equals itself |
| `Pairs.EqualsSymmetric` | src/main/java/hr/caellian/flow/data/Pair.java:100-104 | p equals q iff q equals p |
| `Pairs.HashCode` | src/main/java/hr/caellian/flow/data/Pair.java:111-113 | `Objects.hash(a, b)` with 32-bit wrap-around always yields a Java `int` |
| `Pairs.EqualsImpliesSameHash` | src/main/java/hr/caellian/flow/data/Pair.java:100-113 | equal pairs have equal hash codes |
| `ConversionRules.NewRule` | src/main/java/hr/caellian/flow/conversion/ConversionRule.java:68-70 | the one-argument constructor gives blacklist mode with empty lists, so `test` is true for every direction and type |
| `ConversionRules.NewRuleWithMode` | src/main/java/hr/caellian/flow/conversion/ConversionRule.java:78-81 | with empty lists `test` is true everywhere in blacklist mode and false everywhere in whitelist mode |
| `ConversionRules.TestMeaning` | src/main/java/hr/caellian/flow/conversion/ConversionRule.java:97-102 | a listed type gets the negation of the mode's default response and an unlisted type the default: blacklist allows exactly the unlisted, whitelist exactly the listed |
| `ConversionRules.Test` | src/main/java/hr/caellian/flow/conversion/ConversionRule.java:97-102 | in blacklist mode the answer is true iff the type is not on that direction's list; in whitelist mode, iff it is |
| `ConversionRules.DefaultResponse` | src/main/java/hr/caellian/flow/conversion/ConversionRule.java:167-194 | BLACKLIST's default response is true and WHITELIST's false |
| `ConversionRules.UnlistedGetsDefault` | src/main/java/hr/caellian/flow/conversion/ConversionRule.java:97-102 | a type on neither list gets the mode's default response, and the two modes' defaults differ |
| `ConversionRules.TestReadsOnlyItsList` | src/main/java/hr/caellian/flow/conversion/ConversionRule.java:98 | `test(FROM, t)` depends only on the from list and `test(INTO, t)` only on the to list |
| `ConversionRules.SetFilterMode` | src/main/java/hr/caellian/flow/conversion/ConversionRule.java:153-155 | the mode changes and the owner and both lists are kept |
| `ConversionRules.SwitchingModeNegates` | src/main/java/hr/caellian/flow/conversion/ConversionRule.java:98-101 | switching to the other mode negates every `test` answer |
| `ConversionRules.AddFromException` | src/main/java/hr/caellian/flow/conversion/ConversionRule.java:109-111 | always true; the type becomes listed for FROM; the to list, mode and owner are unchanged |
| `ConversionRules.AddToException` | src/main/java/hr/caellian/flow/conversion/ConversionRule.java:129-131 | always true; the type becomes listed for INTO; the from list, mode and owner are unchanged |
| `ConversionRules.RemoveFromException` | src/main/java/hr/caellian/flow/conversion/ConversionRule.java:119-121 | true iff the type was on the from list; exactly one occurrence is removed; nothing else changes |
| `ConversionRules.RemoveToException` | src/main/java/hr/caellian/flow/conversion/ConversionRule.java:139-141 | true iff the type was on the to list; exactly one occurrence is removed; nothing else changes |
| `ConversionRules.AddFromExceptionEffect` | src/main/java/hr/caellian/flow/conversion/ConversionRule.java:97-111 | after adding a FROM exception for t, `test(FROM, t)` is the non-default answer and every INTO answer is as before |
| `ConversionRules.AddTwiceRemoveOnce` | src/main/java/hr/caellian/flow/conversion/ConversionRule.java:109-121 | a type added twice and removed once is still listed and still gets the listed answer |
| `ConversionRules.RemoveFromExceptionKeepsOthers` | src/main/java/hr/caellian/flow/conversion/ConversionRule.java:97-121 | removing a FROM exception for t changes no `test` answer about any other type, in either direction |
| `Network.RoleDefaults` | src/main/java/hr/caellian/flow/network/structure/StructureCore.java:13-16 | a core's `isDelegate` is false (this default) and a delegate's is true (StructureDelegate.java:39-42) |
| `Network.IsDelegate` | src/main/java/hr/caellian/flow/network/structure/StructureDelegate.java:40-42 | a delegate always answers true, and no core ever does |
| `Network.FirstCore` | src/main/java/hr/caellian/flow/network/structure/StructureComponent.java:59-66 | null iff no element is a core; otherwise a member of the list that is a core and is preceded only by non-cores |
| `Network.StructureCore` | src/main/java/hr/caellian/flow/network/structure/StructureComponent.java:59-66 | a non-null structure core is a core taken from the component's own structure list |
| `Network.FirstCoreIgnoresSuffix` | src/main/java/hr/caellian/flow/network/structure/StructureComponent.java:60-63 | appending components after the first core leaves `getStructureCore` unchanged |
| `Network.CoreAtHeadIsFirstCore` | src/main/java/hr/caellian/flow/network/structure/StructureComponent.java:60-62 | a core at the head of a structure list is that list's structure core |
| `Network.DelegateValidity` | src/main/java/hr/caellian/flow/network/structure/StructureDelegate.java:49-52 | a delegate without a core is invalid; with one, it is valid iff that first core's own validity holds |
| `Network.IsStructureValid` | src/main/java/hr/caellian/flow/network/structure/StructureDelegate.java:49-52 | a delegate is valid iff `getStructureCore()` is non-null and that core is valid |
| `Network.Placed` | src/main/java/hr/caellian/flow/network/NetworkBase.java:55-64 | a non-delegate is stored as itself; a delegate is replaced by a core from its structure list; the inner non-delegate cast branch is unreachable |
| `Network.Add` | src/main/java/hr/caellian/flow/network/NetworkBase.java:54-67 | the placed component is stored at its own position and no other key changes; the answer is false iff a component with the same identity was already there |
| `Network.AddNonDelegate` | src/main/java/hr/caellian/flow/network/NetworkBase.java:55-56 | a plain component, a core, or a non-delegate structure component is afterwards found at its own position; other positions read as before |
| `Network.AddDelegate` | src/main/java/hr/caellian/flow/network/NetworkBase.java:57-64 | adding a delegate leaves its first core at the core's position, nothing else changes, and the delegate itself is never stored |
| `Network.AddReportsChange` | src/main/java/hr/caellian/flow/network/NetworkBase.java:56-66 | `add` answers false exactly when the entry at the placed position already had the placed component's identity |
| `Network.AddIdempotent` | src/main/java/hr/caellian/flow/network/NetworkBase.java:54-67 | repeating the same add answers false and leaves the map unchanged |
| `Network.Remove` | src/main/java/hr/caellian/flow/network/NetworkBase.java:77-79 | the argument's own position is deleted whatever is stored there; the answer is whether it was present; every other entry is kept |
| `Network.RemoveDelegateLeavesCore` | src/main/java/hr/caellian/flow/network/NetworkBase.java:77-79 | removing a delegate does not redirect to its core: a core stored elsewhere by adding the delegate survives |
| `Network.AddThenRemoveCore` | src/main/java/hr/caellian/flow/network/NetworkBase.java:55-78 | adding then removing a core answers true and leaves its position empty |
| `Network.AddRemoveKeepWellPlaced` | src/main/java/hr/caellian/flow/network/NetworkBase.java:54-79 | add and remove keep every stored component at its own position |
| `Network.Load` | src/main/java/hr/caellian/flow/network/NetworkBase.java:87-89 | load is add: the placed component is found at its position, other positions read as before, and the answer is false iff an entry with the placed component's identity was already at that position |
| `Network.Unload` | src/main/java/hr/caellian/flow/network/NetworkBase.java:97-99 | unload is remove: true iff something was at the position, which then reads null; other positions unchanged |
| `Network.Components` | src/main/java/hr/caellian/flow/network/NetworkBase.java:105-107 | one entry per key, the value stored at each key in iteration order, exactly the map's values, and no component twice when components sit at their own positions |
| `Network.ComponentAt` | src/main/java/hr/caellian/flow/network/Network.java:103-105 | a plain map lookup, null iff the position is absent |
| `Network.NeighboursIgnoreNetwork` | src/main/java/hr/caellian/flow/network/Network.java:113-115 | the answer is the component's own neighbour map, the same for every network |
| `Network.Neighbours` | src/main/java/hr/caellian/flow/network/Network.java:113-115 | the component's own neighbour map; no contract of its own, the network-independence is `Network.NeighboursIgnoreNetwork` |
| `Network.DelegateScenario` | src/main/java/hr/caellian/flow/network/NetworkBase.java:57-64 | core C at position 0, delegate D at 1: after adding D to an empty network C is at 0 and nothing is at 1 |
| `Properties.GetOrDefault` | src/main/java/hr/caellian/flow/data/Property.java:90-92 | the data when non-null, otherwise the argument |
| `Properties.Set` | src/main/java/hr/caellian/flow/data/Property.java:101-105 | afterwards the data is the argument and the ID is kept; the answer is the old data exactly when that was non-null or the argument is null, and otherwise the argument |
| `Properties.BindIsMap` | src/main/java/hr/caellian/flow/data/Property.java:115-129 | `bind` with a function that keeps the ID and wraps a new value gives exactly what `map` gives |
| `Properties.Bind` | src/main/java/hr/caellian/flow/data/Property.java:115-117 | f applied to the data; no contract beyond the body, its properties are stated by `Properties.BindIsMap` and `Properties.CloneIsIndistinguishable` |
| `Properties.MapData` | src/main/java/hr/caellian/flow/data/Property.java:127-129 | a property with the same ID and data f(data) |
| `Properties.Apply` | src/main/java/hr/caellian/flow/data/Property.java:137-140 | the same property (same ID) with data f(data), equal to what `map` would build |
| `Properties.Clone` | src/main/java/hr/caellian/flow/data/Property.java:150-154 | a property with equal ID and data |
| `Properties.CloneIsIndistinguishable` | src/main/java/hr/caellian/flow/data/Property.java:150-154 | a clone equals the original, and mapping or binding over it gives what the original gives |
| `Properties.WriteExternal` | src/main/java/hr/caellian/flow/data/Property.java:160-164 | appends two objects and keeps what was already written |
| `Properties.ReadExternal` | src/main/java/hr/caellian/flow/data/Property.java:173-178 | consumes exactly two objects on success; fails on a stream with fewer |
| `Properties.ReadWriteRoundTrip` | src/main/java/hr/caellian/flow/data/Property.java:160-178 | reading what was written gives back the same ID and data and leaves the rest of the stream |
| `Properties.AddProperty` | src/main/java/hr/caellian/flow/data/PropertyManager.java:61-65 | a null argument changes nothing; otherwise the property is stored under its own ID, replacing any earlier entry, and other entries are kept |
| `Properties.GetProperty` | src/main/java/hr/caellian/flow/data/PropertyManager.java:93-96 | the stored property, null iff the ID is absent |
| `Properties.GetValue` | src/main/java/hr/caellian/flow/data/PropertyManager.java:118-120 | the stored property's data; defined only for a present ID |
| `Properties.SetValue` | src/main/java/hr/caellian/flow/data/PropertyManager.java:77-85 | present ID: the old data is returned and the stored property keeps its ID; absent ID: `Property(id, v)` is inserted and null returned; afterwards `getValue(id)` is v and no other entry changes |
| `Properties.SetValueRestores` | src/main/java/hr/caellian/flow/data/PropertyManager.java:77-85 | on a present ID the key set is kept, and setting the returned old value back restores the manager |
| `Properties.GetPropertyWithDefault` | src/main/java/hr/caellian/flow/data/PropertyManager.java:107-110 | the stored property if present, else `Property(id, default)` (nothing inserted) |
| `Properties.GetValueWithDefault` | src/main/java/hr/caellian/flow/data/PropertyManager.java:130-132 | the stored data whenever the key exists, null data included; the default only for a missing key |
| `Properties.ValueWithDefaultVersusGetOrDefault` | src/main/java/hr/caellian/flow/data/PropertyManager.java:130-132 | agrees with the stored property's `getOrDefault` when its data is non-null and with a null property's for an absent ID; a stored null comes back as null, not the default |
| `Properties.ApplyAt` | src/main/java/hr/caellian/flow/data/PropertyManager.java:143-151 | on a present ID the stored property now has data f(old) and its own ID, the key set is kept, other entries unchanged, and it is returned |
| `Properties.MapAt` | src/main/java/hr/caellian/flow/data/PropertyManager.java:163-166 | a property with the stored property's ID and data f(data); the manager is untouched |
| `Properties.BindAt` | src/main/java/hr/caellian/flow/data/PropertyManager.java:176-179 | whatever the function makes of the stored value |
| `Fluxes.SameTypeSameId` | src/main/java/hr/caellian/flow/data/Flux.java:42-44 | units of the same type report the same ID; the ID depends only on the type, never on the properties |
| `Fluxes.GetId` | src/main/java/hr/caellian/flow/data/Flux.java:42-44 | the type's ID; no contract beyond the body, its properties are stated by `Fluxes.SameTypeSameId` and `Fluxes.SameType` |
| `Fluxes.SameType` | src/main/java/hr/caellian/flow/data/Flux.java:94-96 | units of the same type are never null and report the same `getID()` |
| `Fluxes.SameTypeIsEquivalence` | src/main/java/hr/caellian/flow/data/Flux.java:94-96 | `sameType` is false for null, reflexive and symmetric |
| `Fluxes.Equals` | src/main/java/hr/caellian/flow/data/Flux.java:77-87 | as written, `equals(o)` is exactly `sameType(o)` |
| `Fluxes.EqualsIgnoresOtherProperties` | src/main/java/hr/caellian/flow/data/Flux.java:81-82 | two other units of the same type get the same answer, whatever their properties |
| `Fluxes.EqualsIntended` | src/main/java/hr/caellian/flow/data/Flux.java:77-87 | with the second lookup on `o`: true iff same type and every property of this unit is present and identical in `o` |
| `Fluxes.EqualsCounterexample` | src/main/java/hr/caellian/flow/data/Flux.java:81-82 | a unit with property "x" and an empty unit of the same type are equal as written and unequal as intended |
| `Fluxes.RemoveFluxById` | src/main/java/hr/caellian/flow/network/transfer/FluxContainer.java:59-67 | single-flux removal is called only on fluxes of that ID, in list order, stopping after the first success; the answer is true iff some call succeeded; with no flux of that ID nothing is called and the answer is false |
| `FluxGroups.Get` | src/main/java/hr/caellian/flow/data/FluxGroup.java:93-95 | an existing group is returned unchanged with the registry unchanged; otherwise a new group with no members and the given compatible groups is registered under the name |
| `FluxGroups.GetIsStable` | src/main/java/hr/caellian/flow/data/FluxGroup.java:93-104 | after `get(name)` the name exists, and later `get` calls return the same group whatever compatible groups they pass |
| `FluxGroups.Exists` | src/main/java/hr/caellian/flow/data/FluxGroup.java:102-104 | true iff `get(name, ...)` leaves the table unchanged, whatever compatible groups it is given |
| `FluxGroups.AddMember` | src/main/java/hr/caellian/flow/data/FluxGroup.java:152-154 | always true and `test(t)` holds afterwards; name and compatible groups unchanged |
| `FluxGroups.Test` | src/main/java/hr/caellian/flow/data/FluxGroup.java:219-221 | membership; no contract of its own, `AddMember` makes it true and `RemoveMember` reports it |
| `FluxGroups.RemoveMember` | src/main/java/hr/caellian/flow/data/FluxGroup.java:165-167 | true iff t was a member; exactly one occurrence removed |
| `FluxGroups.SetCompatibleWith` | src/main/java/hr/caellian/flow/data/FluxGroup.java:179-185 | true adds the other group and answers true; false removes one occurrence and answers whether it was listed |
| `FluxGroups.CompatibilityFacts` | src/main/java/hr/caellian/flow/data/FluxGroup.java:179-194 | `isCompatibleWith` is symmetric and holds after `setCompatibleWith(o, true)` |
| `FluxGroups.IsCompatibleWith` | src/main/java/hr/caellian/flow/data/FluxGroup.java:192-194 | either group lists the other; no contract of its own, symmetry is `FluxGroups.CompatibilityFacts` |
| `FluxGroups.Equals` | src/main/java/hr/caellian/flow/data/FluxGroup.java:209-211 | true iff the argument is a group with the same name |
| `FluxGroups.EqualsIsEquivalence` | src/main/java/hr/caellian/flow/data/FluxGroup.java:209-211 | group equality is reflexive, symmetric and transitive and false for null and other classes; in a table keyed by group name, two registered groups are equal iff they are registered under the same name |
| `FluxGroups.GetForFluxType` | src/main/java/hr/caellian/flow/data/FluxGroup.java:114-123 | walking every registered group once: every returned group has t among its members, and every registered group with t as a member is returned |
| `FluxGroups.GetForFluxTypeId` | src/main/java/hr/caellian/flow/data/FluxGroup.java:133-142 | walking every registered group once: every returned group has a member with that ID, and every registered group with such a member is returned |

## Left out

- Converter registration is not modelled. `register(T, boolean)` and `getConverterMap` are abstract host hooks with no body. `register(T)` (ConversionManager.java:42-45) only forwards to `register(converter, false)`. The map is an input to every operation.
- The runtime converter that the search builds is left out. At ConversionManager.java:129 and 134, `acc.apply(converter)` applies the accumulated converter to the next converter *object*. That is not function composition, so the value the Java code returns is probably not a working composed converter. The model records only which edges were chosen.
- Converter values stored as null in the map are not modelled. A registered key always holds a converter.
- `HashMap` iteration order and hashing are unspecified. The converter map's order and `getNetworkComponents`' order are arbitrary fixed sequences. The flux-group table's order is a parameter too.
- `canAddComponent`, `updateNetwork`, `getNetworkTypeID`, `setNetwork`, `createDefaultNetwork`, `networkNotFound` and `getNetworkMap`'s unmodifiable view are host hooks or wrappers with no logic.
- Network.Add: a delegate whose structure list has no core makes the Java code throw a NullPointerException. The model makes a core's presence a precondition instead.
- Network.DelegateScenario: a value cannot contain itself, so the delegate's structure list holds only the core. A Java delegate would usually list itself too.
- A core's own `isStructureValid` and a directly implemented structure component's `isDelegate`/`isStructureValid` are host code. They are fields of the role.
- `Flux.add`/`take`, `FluxContainer.addFlux` and the single-flux `removeFlux(B)` are host code.
- Fluxes.RemoveFluxById: the host's single-flux removal is a pure function of the flux. A stateful host whose answers depend on earlier calls is not modelled. `getFlux()` is read as a snapshot, so a `ConcurrentModificationException` from a live list is not modelled.
- `FluxConductor`, `FluxEmitter`, `FluxReceiver`, `FluxCompatible`, `NetworkComponent`, `FluxType` and `Converter` are interfaces without logic. They serve only as datatype shapes.
- Properties.ReadExternal: a `Text` in the data slot or a `Datum` in the ID slot is rejected. Java accepts either when the object is a String: `T` may be `String` or `Object`. Otherwise Java fails at the ID cast (Property.java:175), or wherever the data is later used as a `T`. `WriteExternal` never produces either shape. Object-stream mechanics, `ClassNotFoundException` and `toString` are not modelled.
- Property IDs are never null. The no-argument `Property()` constructor, which leaves ID and data null, is not modelled.
- Properties: properties are values here, while Java shares them as objects. `getProperty`, `getPropertyWithDefault` on a present ID, and `apply` return the stored object itself (PropertyManager.java:95, 109, 150). `Property.set` and `Property.apply` change that object in place (Property.java:101-104, 137-139). In the model, a change made through a returned property affects a manager only once the caller stores it back, as `Properties.SetValue` and `Properties.ApplyAt` do. One `Property` object held by two managers is not modelled.
- Properties: `PropertyManager` is modelled with one data type `T`. Java's raw, heterogeneously typed map and its unchecked casts are not modelled.
- Fluxes.Equals: a property map that holds a null `Property` would make Java throw a NullPointerException. The model's property map cannot hold null. The `PropertyManager` operations never store one.
- FluxGroups: groups refer to their compatible groups by name, and members are read through the registry. Java's object sharing is not modelled: a group mutated outside the registry has to be stored back by the caller. A compatible group that is not registered contributes no members.
- FluxGroups.Get: the `protected` constructor can also be called by subclasses and by classes in package `hr.caellian.flow.data`. Outside those, only `get` creates groups. Direct construction, which bypasses the table, is not modelled.
- Pair getters and `toString` are omitted. The getters are the datatype's fields.
- Conversion.Visit: it models the corrected search. In the code as written that search is never reached (see "Findings"). Even in the corrected code the Java recursion uses one stack frame per depth level (ConversionManager.java:134-136), and only `lowestScore` stops it. Take edges A->B, B->A and B->C, with B->A iterated before B->C, and `maxSteps` = `Integer.MAX_VALUE`. The corrected Java code would descend the A<->B cycle until a `StackOverflowError`. The model has no stack and returns [(A, B), (B, C)].
- Conversion.CycleWithoutTargetFindsNothing: it holds for the corrected search only. As written, Java aborts at the array cast for every bound. With a large `maxSteps`, corrected Java code would overflow the stack on this cycle before it could return null.
- Conversion.GetConverterWithin: running time of the corrected search is not modelled. When a node on a cycle has two or more out-edges, the work grows exponentially in `maxSteps`.
- Properties.GetValue: an absent ID makes Java throw a NullPointerException (PropertyManager.java:119). The model makes a present ID a precondition instead.
- Properties.ApplyAt: an absent ID makes Java throw a NullPointerException (PropertyManager.java:145). The model makes a present ID a precondition instead.
- Properties.MapAt: an absent ID makes Java throw a NullPointerException (PropertyManager.java:165). The model makes a present ID a precondition instead.
- Properties.BindAt: an absent ID makes Java throw a NullPointerException (PropertyManager.java:178). The model makes a present ID a precondition instead.
- FluxGroups.GetForFluxType: the table's iteration order is a parameter that lists every registered name exactly once. The same holds for `FluxGroups.GetForFluxTypeId`.
- Java's 32-bit `int` for `maxSteps` and depths needs no wrap-around: the depth never exceeds `maxSteps`.

## Findings

| source | as written | input that shows it | evidently intended | confidence | as-written member | corrected member |
|---|---|---|---|---|---|---|
| src/main/java/hr/caellian/flow/data/Flux.java:81-82 | `theirs` is read from `this`, so each property is compared with itself and `equals` reduces to `sameType` | a unit holding property "x" and an empty unit of the same type: `equals` answers true | `theirs = o.getProperty(key)`, so equal units have the same properties | high (not executed) | `Fluxes.Equals` (exhibited by `Fluxes.EqualsCounterexample`) | `Fluxes.EqualsIntended` |
| src/main/java/hr/caellian/flow/conversion/ConversionManager.java:116 | the result array is created as `new Function[1]` and cast to `T[]`; with `T extends Converter` the cast is checked against `Converter[]`, a `Function[]` is not one, so the bounded `getConverter` (and `converterAvailable(from, to, maxSteps)`) throws `ClassCastException` whenever there is no direct converter | map A->B, B->C; `getConverter("A", "C", 2)` | create the array so that the cast holds, e.g. `(T[]) new Converter[1]`, so the search runs and returns the least complex chain | high (not executed) | `Conversion.GetConverterWithinAsWritten`, `Conversion.ConverterAvailableWithinAsWritten` (exhibited by `Conversion.ArrayCastCounterexample`) | `Conversion.GetConverterWithin` (with `Conversion.SearchCorrect`) |
