# Entity remapping in bevy_ecs: `EntityMap` and `EntityMapper`

This project is a Dafny model of the entity-remapping part of `bevy_ecs`. Entity identifiers
(`Entity`: a slot index plus a generation) are only meaningful in the world that issued them.
When entities are copied from a scene, a network peer or a snapshot into a live world, every
stored reference is rewritten through an `EntityMap`, a map from foreign to local entities. An
`EntityMapper` session can also mint *placeholder* local entities for foreign entities that have
no local counterpart yet. Every placeholder shares the slot index of one base entity spawned
when the session opens. Their generations run upwards from the base generation. Closing the
session (`save`) despawns the base and reserves those generations, so after `save` no
placeholder is ever live. While the session is open, the first placeholder is the base entity
itself, which is live until `save`.

Modules:

- `Wrappers`: `Option` and `Result`.
- `Entities`: the `Entity` datatype and the `u32` range.
- `Arena`: a small reference arena for the three world calls the mapper makes.
  - `spawn_empty` reuses the lowest dead slot at its stored generation, or appends a new slot.
  - `despawn` leaves the slot dead one generation later.
  - `try_reserve_generations` despawns and then advances the slot by the count.
- `EntityMaps`: `EntityMap` and `MapEntitiesError`.
- `EntityMappers`: the mapper, its sessions (`RunSession`), `save` and `with_mapper`.
- `SpringComponent`: the two-field `Spring` example of the `MapEntities` trait.

The world calls are the only side effects. They are pure functions over a `World` value, and
world histories are sequences of `WorldOp`. The body of `with_mapper` is a function
`(World, EntityMapper) -> (World, EntityMapper, R)`. A failed `assert!` in `save` (a panic) is
the `None` result of `Save` and `WithMapper`.

## Model

| member | source | states |
|---|---|---|
| `EntityMaps.Empty` | crates/bevy_ecs/src/entity/map_entities.rs:68-71 | the default map has no keys |
| `EntityMaps.Len` | crates/bevy_ecs/src/entity/map_entities.rs:182-185 | `len` is the number of distinct keys, and is 0 exactly for the empty map |
| `EntityMaps.IsEmpty` | crates/bevy_ecs/src/entity/map_entities.rs:187-190 | `is_empty` holds exactly when `len` is 0, i.e. when no entity is a key |
| `EntityMaps.Insert` | crates/bevy_ecs/src/entity/map_entities.rs:145-152 | afterwards `from` maps to `to` and every other key and value is unchanged; returns `None` iff `from` was absent, else its old value; `len` grows by one iff `from` was absent |
| `EntityMaps.Remove` | crates/bevy_ecs/src/entity/map_entities.rs:154-157 | afterwards `e` is absent and every other entry is unchanged; returns the old value iff `e` was a key; `len` drops by one iff `e` was a key, else stays |
| `EntityMaps.Get` | crates/bevy_ecs/src/entity/map_entities.rs:164-170 | succeeds iff `e` is a key, with its value; otherwise fails with `EntityNotFound(e)` for that very key |
| `EntityMaps.InsertThenGet` | crates/bevy_ecs/src/entity/map_entities.rs:145-170 | after `insert(from, to)`, `get(from)` is `to` and every other lookup answers as before |
| `EntityMaps.RemoveThenGet` | crates/bevy_ecs/src/entity/map_entities.rs:154-170 | after `remove(k)`, `get(k)` fails with `EntityNotFound(k)` and every other lookup answers as before |
| `EntityMaps.InsertRemoveRoundTrip` | crates/bevy_ecs/src/entity/map_entities.rs:145-157 | inserting an absent key and removing it restores the map and returns the inserted value |
| `EntityMaps.RemoveInsertRoundTrip` | crates/bevy_ecs/src/entity/map_entities.rs:145-157 | removing a present key and re-inserting its value restores the map, and the insert reports no previous value |
| `EntityMaps.Iter` | crates/bevy_ecs/src/entity/map_entities.rs:192-195 | `iter` yields each entry of the map exactly once (keys distinct, pairs drawn from the map, every entry present), `len` many |
| `EntityMaps.Keys` | crates/bevy_ecs/src/entity/map_entities.rs:172-175 | `keys` yields each key exactly once and nothing else |
| `EntityMaps.Values` | crates/bevy_ecs/src/entity/map_entities.rs:177-180 | `values` yields `len` entities, exactly the map's values, each as many times as there are keys mapped to it |
| `EntityMaps.ValueMultiplicity` | crates/bevy_ecs/src/entity/map_entities.rs:177-180 | in any listing of pairs with distinct keys, a value occurs in the value column once per key carrying it |
| `Arena.SpawnEmpty` | crates/bevy_ecs/src/entity/map_entities.rs:125 | the spawned entity is live afterwards and was not live before; it takes the stored generation of a dead slot or a new slot at generation 0; the live count grows by one; no stored generation drops |
| `Arena.Despawn` | crates/bevy_ecs/src/entity/map_entities.rs:136 | reports whether the entity was live; if so its slot becomes dead one generation later and the live count drops by one, else nothing changes |
| `Arena.TryReserveGenerations` | crates/bevy_ecs/src/entity/map_entities.rs:140 | succeeds iff the entity is live; then its slot is dead with the generation advanced by one plus the count, other slots unchanged, live count down by one |
| `Arena.ApplyGrows` | crates/bevy_ecs/src/entity/map_entities.rs:73-74 | under any later sequence of world calls no slot disappears and no stored generation decreases |
| `Arena.OlderGenerationsStayDead` | crates/bevy_ecs/src/entity/map_entities.rs:73-74 | an entity older than its slot's stored generation is never live again, whatever the world does |
| `EntityMappers.New` | crates/bevy_ecs/src/entity/map_entities.rs:121-128 | opening a session keeps the map, starts `generations` at 0 and spawns a base entity that is newly live, raising the live count by one |
| `EntityMappers.GetMapMut` | crates/bevy_ecs/src/entity/map_entities.rs:116-119 | a bulk edit through the exposed map changes neither the base entity nor the `generations` counter |
| `EntityMappers.Get` | crates/bevy_ecs/src/entity/map_entities.rs:89-92 | the mapper's strict lookup agrees with `EntityMap::get` on the wrapped map: success iff mapped, else `EntityNotFound(e)` |
| `EntityMappers.GetOrAlloc` | crates/bevy_ecs/src/entity/map_entities.rs:94-109 | a mapped key returns its value and leaves the mapper unchanged; an unmapped key returns the entity at the base index with generation base plus `generations`, increments `generations` by one, records it as the key's mapping and grows `len` by one; other entries are kept |
| `EntityMappers.FirstPlaceholderIsLiveBase` | crates/bevy_ecs/src/entity/map_entities.rs:100-125 | in a freshly opened session, the first placeholder `get_or_alloc` mints is the base entity itself, which is live in the world until `save` |
| `EntityMappers.GetOrAllocIdempotent` | crates/bevy_ecs/src/entity/map_entities.rs:95-98 | a second `get_or_alloc` of the same key returns the same entity and leaves the mapper as the first call left it |
| `EntityMappers.SaveCall` | crates/bevy_ecs/src/entity/map_entities.rs:134-141 | closing issues a despawn of the base exactly when nothing was minted, and otherwise a reservation of exactly `generations` at the base |
| `EntityMappers.Save` | crates/bevy_ecs/src/entity/map_entities.rs:130-141 | closing succeeds (does not panic) iff the base is still live; then the base is dead, the live count drops by one, and its slot stores a generation above every minted placeholder, other slots unchanged |
| `EntityMappers.SavedPlaceholdersNeverLive` | crates/bevy_ecs/src/entity/map_entities.rs:73-78 | after a successful close, no placeholder of the session, nor any older generation at the base index, is live under any later world history |
| `EntityMappers.SpawnAfterSaveAvoidsPlaceholders` | crates/bevy_ecs/src/entity/map_entities.rs:73-78 | after a successful close, no later `spawn_empty` returns a placeholder of the session |
| `EntityMappers.RunSession` | crates/bevy_ecs/src/entity/map_entities.rs:95-108 | a run of `get_or_alloc` calls keeps the base, and raises `generations` and `len` each by the number of placeholders it minted |
| `EntityMappers.SessionMintsContiguousRun` | crates/bevy_ecs/src/entity/map_entities.rs:100-104 | the placeholders a run mints are, in order, the base index with generations counting up by one from where the counter stood |
| `EntityMappers.SessionIsConsistent` | crates/bevy_ecs/src/entity/map_entities.rs:95-98 | during a session, entries present at the start are kept and every returned entity is the final mapping of its key, so a key always gets the same answer |
| `EntityMappers.FreshSessionPlaceholders` | crates/bevy_ecs/src/entity/map_entities.rs:100-128 | in a session whose counter starts at 0, as `new` leaves it, the minted placeholders are exactly the run of `generations` placeholders at the base: pairwise distinct, one index, contiguous ascending generations starting at the base |
| `EntityMappers.WithMapper` | crates/bevy_ecs/src/entity/map_entities.rs:197-208 | opens a session, runs the body, always closes; succeeds iff the base is still live after the body, and then returns the body's result unchanged with the body's map; the base is dead afterwards |
| `EntityMappers.WithMapperPlaceholdersNeverLive` | crates/bevy_ecs/src/entity/map_entities.rs:197-208 | for any body, including one that spawns or despawns entities, once `with_mapper` returns, no placeholder up to the body's final counter is live under any later world history |
| `EntityMappers.WithMapperSession` | crates/bevy_ecs/src/entity/map_entities.rs:197-208 | a body that only calls `get_or_alloc` closes without panic, returns its answers, leaves the live count as before the session, and leaves every placeholder dead |
| `EntityMappers.RepeatedThenNewKey` | crates/bevy_ecs/src/entity/map_entities.rs:95-108 | for any mapper, `get_or_alloc` of an unmapped `a`, again `a`, then an unmapped `b` returns the next placeholder twice and then the one after it, raising `generations` by exactly two |
| `EntityMappers.TwoForeignEntitiesScenario` | crates/bevy_ecs/src/entity/map_entities.rs:94-141 | on an empty map, `get_or_alloc(a)`, `get_or_alloc(a)`, `get_or_alloc(b)` return P0, P0, P1 with P1 one generation above P0 at the same index; after closing, no later spawn returns P0 or P1 |
| `SpringComponent.MapEntities` | crates/bevy_ecs/src/entity/map_entities.rs:38-50 | succeeds iff both fields are mapped, then rewriting both; a missing `a` fails with `EntityNotFound(a)` and changes nothing; a missing `b` fails with `EntityNotFound(b)` after `a` was already rewritten |

## Left out

- `World::spawn_empty`, `World::despawn` and `World::try_reserve_generations` are not part of this model. The `Arena` module is a reference arena that meets the contracts the mapper relies on. Examples of what it simplifies: it reuses the lowest dead slot rather than following the real free list, its generations are unbounded, and it has no flushing or archetypes. So "never points to a living entity" is proved relative to this arena, and only for the time after `save`.
- `Arena.TryReserveGenerations`: the reservation is modelled as a despawn followed by advancing the slot by the count. This follows the doc comment on `save` ("despawns the temporary base entity while reserving extra generations").
- `EntityMappers.SavedPlaceholdersNeverLive`: the promise that placeholders never point to a living entity (map_entities.rs:73-74 and 197-198) is proved only after `save`. While the session is open it does not hold: the first placeholder equals the live temporary base (`EntityMappers.FirstPlaceholderIsLiveBase`).
- `EntityMappers.Save`: "closing panics exactly when the base is no longer live" is a property of the reference arena, which reserves by despawning first. The system's `World::try_reserve_generations` may also accept a base that the body already despawned, as long as its slot has not been reused since. Here such a base makes `Save` and `EntityMappers.WithMapper` return `None`.
- `entry` is left out: it returns the hash map's own `Entry` type, which belongs to the hash map, not to this component.
- The `Display` and `Error` impls of `MapEntitiesError` are left out: they only format text.
- `keys`, `values` and `iter` return sequences, not lazy iterators. Their order is whatever the loop picks, and only the contents are specified.
- Lifetimes, borrows and the `FnOnce` type of the `with_mapper` body are left out. The body is a total function of world and mapper.
- `EntityMappers.WithMapper` requires that the body keeps the mapper's base entity and never lowers `generations`. In the system the mapper's fields are private and only `get_or_alloc` changes the counter, always by one, so the type system guarantees both.
- `EntityMappers.GetOrAlloc`: the `u32` additions on the minting path are not modelled as overflow panics. Instead the precondition `CanMint` requires that the base generation plus `generations`, and `generations` plus one, stay below 2^32. A key that is already mapped needs no such bound.
- `EntityMappers.RunSession` requires headroom for every key, including keys that turn out to be mapped already. It is a proof device for sessions, not an operation of the system.
- The session is not enforced to be linear. `save` consumes the mapper in the system. Here `Save` returns no mapper, but nothing stops a caller from keeping the old mapper value.
- `get_map` is the accessor `EntityMappers.GetMap`. It has no contract of its own and appears in the contracts of `EntityMappers.Get` and `EntityMappers.GetMapMut`.
- The `MapEntities` trait is modelled only through its `Spring` example. Other implementors belong to other components.
