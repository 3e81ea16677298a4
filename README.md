# 2D game engine ECS, modelled in Dafny

This project models the entity/component/system (ECS) core of a small SDL-based 2D game engine:

- **Component type ids.** Each component type receives a process-wide id the first time it asks for one.
- **Signatures.** A 32-bit signature per entity records which components it has. Each system also has a signature, listing the components it requires.
- **Component pools.** There is one growable pool per component type, indexed by entity id.
- **Systems.** A system holds its required signature and an ordered list of member entities.
- **The registry.** It does the following:
  - hands out sequential entity ids;
  - stores components and signatures;
  - keeps the systems keyed by their type;
  - at each `update()`, hands every entity created since the last update to the systems whose requirement its signature covers.

The older PascalCase variant of the same building blocks (`src/ECS/`) shares the model, except for one defect in its `Pool::Get`. Two small pieces of the game are also modelled:

- the string splitter that the tile-map loader uses;
- the arithmetic that maps a tile number to a cell of the tile sheet.

Modules:

- **Signatures** (`signatures.dfy`). A signature is the set of its on bits, each below 32. `Set`, `Reset` and `Test` fail with `OutOfRange` where `std::bitset` throws.
- **ComponentIds** (`component_ids.dfy`). The shared `next_id` counter and every type's static id, held as one `IdCounter` object.
- **Entities** (`entities.dfy`). Entities are values compared by id. This module also has:
  - the order-preserving removal that erase/remove_if performs;
  - the ascending-id order in which a `std::set<entity>` is traversed.
- **Pools** (`pools.dfy`). `pool<T>` as a class over a sequence of slots. `blank` stands for the value-initialised `T()` that `resize` fills new slots with.
- **Systems** (`systems.dfy`). `system` as a class.
- **Registry** (`registry.dfy`). `registry` as a class, with these choices:
  - Component types arrive as their ids.
  - System types arrive as names.
  - All components share one value type `V`.
  - Each pool is held by value, as an optional sequence of slots. `Pools.Pool` models `pool<T>` on its own; the registry applies the same resize and set steps to its sequences directly, through `Pools.Resized`.
  - Its invariant adds one fact the source relies on: every signature bit that is on has a pool behind it that reaches the entity, so `get_component` after a successful `has_component` reads an existing slot.
  - A second invariant keeps system membership in step with `update()`: every member of a registered system has an issued id and is no longer pending creation. It holds because `add_system` registers a freshly constructed, empty system and only `update()` appends members.
- **Scenarios** (`scenario.dfy`). One concrete run of the registry over two frames. It shows that an entity whose signature starts to qualify only after the `update()` that processed its creation never joins a system.
- **LegacyEcs** (`legacy_ecs.dfy`). The `Pool::Get` of the older variant as written.
- **Util** (`str_split.dfy`). `str_split` as a stream loop, proved equal to a pure splitting function.
- **Tiles** (`tiles.dfy`). The tile column, the tile row and the two offsets computed by `load_level`.

## Model

| member | source | states |
|---|---|---|
| Signatures.Set | src/ecs.h:233 | setting a bit succeeds exactly for a position below 32; that bit is then on and every other bit is as before |
| Signatures.Reset | src/ecs.h:244 | clearing a bit succeeds exactly for a position below 32; that bit is then off and every other bit is as before |
| Signatures.Test | src/ecs.h:255 | testing a bit succeeds exactly for a position below 32 and answers whether the bit is on |
| Signatures.Covers | src/ecs.cpp:88 | the bitwise interest test `(entity & required) == required` holds exactly when every required component is in the entity's signature |
| ComponentIds.IdCounter.constructor | src/ecs.cpp:6 | the shared counter starts at 0 with no type holding an id |
| ComponentIds.IdCounter.GetId | src/ecs.h:39-43 | a type that asked before gets the same id again and nothing changes; a new type gets the counter's value, which then goes up by one; ids stay dense and pairwise distinct; the older variant at `src/ECS/ECS.h:32-36` does the same |
| Entities.EntityOrder | src/ecs.h:69-72 | entities are equal exactly when their ids are, and `<` (with `>` as its mirror) is a strict total order on them; the older variant's `==` and `!=` at `src/ECS/ECS.h:55-56` compare ids the same way |
| Entities.Without | src/ecs.cpp:40-50 | removing an entity leaves exactly the other members, and the length drops by the number of occurrences removed |
| Entities.WithoutConcat | src/ecs.cpp:40-50 | removal works piecewise on a concatenation, so the survivors keep their relative order |
| Entities.WithoutAbsent | src/ecs.cpp:40-50 | removing an entity that is not a member leaves the list unchanged |
| Entities.RemoveMatching | src/ecs.cpp:40-50 | the remove_if/erase loop compacts the survivors to the front, in order, and truncates the rest; the older variant at `src/ECS/ECS.cpp:37-47` does the same |
| Entities.HasLeast | src/ecs.h:72 | every non-empty set of entities has a least member under the id order |
| Entities.AscendingFirst | src/ecs.h:72 | the traversal of a set starts at its least member |
| Entities.AscendingSorted | src/ecs.h:71-72 | the traversal of a set visits each member exactly once, in strictly increasing id order |
| Entities.AscendingUnique | src/ecs.h:71-72 | any strictly ascending list of exactly the members of a set is that set's traversal order |
| Entities.InOrder | src/ecs.cpp:66 | visiting a set by repeatedly taking the least unvisited entity yields the ascending traversal |
| Pools.Resized | src/ecs.h:123 | a resize gives exactly the requested size, keeps the slots that survive and fills new slots with the default value |
| Pools.Pool.constructor | src/ecs.h:117 | a new pool has the requested number of slots (100 by default), all default values; the older variant at `src/ECS/ECS.h:106` does the same |
| Pools.Pool.IsEmpty | src/ecs.h:120 | a pool is empty exactly when its size is 0; the older variant at `src/ECS/ECS.h:109` does the same |
| Pools.Pool.GetSize | src/ecs.h:121 | the size is the number of slots; the older variant at `src/ECS/ECS.h:110` does the same |
| Pools.Pool.Resize | src/ecs.h:123 | the pool then has exactly the requested size and keeps its surviving prefix; the older variant at `src/ECS/ECS.h:112` does the same |
| Pools.Pool.Clear | src/ecs.h:124 | the pool is then empty |
| Pools.Pool.Add | src/ecs.h:125 | the pool grows by one slot at the end, holding the new value |
| Pools.Pool.Set | src/ecs.h:126-130 | after writing a slot, reading it back (`get` or `operator[]`) gives the value written, and every other slot and the size are unchanged; the older variant's `Set` and `operator[]` at `src/ECS/ECS.h:115` and `src/ECS/ECS.h:119` do the same |
| Pools.Pool.Get | src/ecs.h:128-130 | `get` and `operator[]` read the slot at the index, with no bounds check of their own: the index must be below the size |
| Systems.System.constructor | src/ecs.h:86 | a new system requires nothing and has no members |
| Systems.System.GetSystemEntities | src/ecs.cpp:53-56 | the member list, in the order the members were added; the older variant at `src/ECS/ECS.cpp:50-53` does the same |
| Systems.System.GetComponentSignature | src/ecs.cpp:58-61 | the system's required signature; the older variant at `src/ECS/ECS.cpp:55-58` does the same |
| Systems.System.RequireComponent | src/ecs.h:301-306 | the component's bit is set, or the call fails for an id of 32 or more; the other bits and the members are unchanged; the older variant at `src/ECS/ECS.h:80-84` does the same |
| Systems.System.AddEntityToSystem | src/ecs.cpp:12-15 | the entity is appended after the existing members; the older variant at `src/ECS/ECS.cpp:9-12` does the same |
| Systems.System.RemoveEntityFromSystem | src/ecs.cpp:17-51 | afterwards no member equals the entity; the rest keep their order; an absent entity leaves the list unchanged; the older variant at `src/ECS/ECS.cpp:14-48` does the same |
| Registry.JoiningMembers | src/ecs.cpp:83-94 | the entities that join a system are exactly the visited ones whose signature covers its requirement |
| Registry.JoiningSnoc | src/ecs.cpp:66-69 | visiting one more entity appends it exactly when its signature covers the requirement |
| Registry.JoiningKeepsOrder | src/ecs.cpp:66-69 | entities visited in ascending id order join in ascending id order |
| Registry.SyncMembership | src/ecs.cpp:63-75 | after an update, an entity belongs to a system exactly when it belonged before, or it was pending and its signature covers the requirement; an entity that was not pending keeps its old membership, whatever its signature now is |
| Registry.SyncOrder | src/ecs.cpp:66-69 | the pending entities that join a system are appended in ascending id order |
| Registry.SyncPending | src/ecs.cpp:63-94 | when no pending entity is a member yet, after an update each pending entity is a member exactly when its signature covers the requirement, and every member is an earlier one or a pending one |
| Registry.Registry.constructor | src/ecs.h:139-172 | a new registry has issued no id and holds no pool, signature, system or pending entity |
| Registry.Registry.CreateEntity | src/ecs.cpp:97-116 | the new entity's id is the previous count, and the count goes up by one; the signature table gains one empty signature at that id; the entity becomes pending; pools and systems are untouched |
| Registry.CoverGrowPools | src/ecs.h:206-224 | growing the pool table and lengthening pools, without dropping or shortening any, keeps every on bit backed by a pool slot |
| Registry.CoverSetBit | src/ecs.h:233 | turning a bit on for an entity whose slot in that pool exists keeps every on bit backed by a pool slot |
| Registry.Registry.StoreComponent | src/ecs.h:204-230 | the pool table grows with empty slots to cover the id; the pool is created only when its slot is empty and resized to the entity count only when it does not reach the entity; the value is written at the entity's index; every other pool and all signatures are unchanged; the registry invariant is kept |
| Registry.Registry.AddComponent | src/ecs.h:198-236 | gives the full new state of the pools and signatures: the pool table grows with empty slots to cover the id; the pool is created only when its slot is empty; the pool is resized to the entity count when it does not reach the entity; the value is written before the bit; afterwards reading the component gives the value, and the bit is on unless the id is 32 or more |
| Registry.Registry.RemoveComponent | src/ecs.h:238-247 | only that bit is cleared, so the component then reads as absent; the pools are untouched; an id of 32 or more fails |
| Registry.Registry.HasComponent | src/ecs.h:249-256 | the answer is defined exactly for an id below 32 and then says whether that component's bit is on in the entity's signature |
| Registry.Registry.GetComponent | src/ecs.h:258-266 | the component is the value in the entity's slot of that component's pool; nothing is checked, so the pool must exist and reach the entity |
| Registry.Registry.HasComponentHasSlot | src/ecs.h:249-266 | when `has_component` answers true for an issued entity, the component's pool exists and reaches the entity, so `get_component` reads a real slot |
| Registry.Registry.AddSystem | src/ecs.h:269-277 | the freshly constructed, memberless system is registered under its type only when that type has none yet; an existing one is kept; both invariants are kept |
| Registry.Registry.RemoveSystem | src/ecs.h:279-284 | the type's entry is removed and the type then reads as absent |
| Registry.Registry.HasSystem | src/ecs.h:286-290 | a system type is present exactly when the map has an entry for it |
| Registry.Registry.GetSystem | src/ecs.h:292-297 | the registered system of that type; `find`'s result is not checked, so the type must be present |
| Registry.Registry.AddEntityToSystems | src/ecs.cpp:77-95 | each system gains the entity at the end exactly when the entity's signature covers its requirement; requirements are untouched |
| Registry.Registry.AddAllToSystems | src/ecs.cpp:66-69 | handing a list of entities over one at a time appends to each system exactly the covering entities of the list, in list order |
| Registry.Registry.Update | src/ecs.cpp:63-75 | every pending entity is handed over in ascending id order, the pending set becomes empty, and signatures, pools, systems and the pending-removal set are unchanged; afterwards each entity that was pending belongs to exactly the systems whose requirement its signature covers, and every member is issued and no longer pending |
| Scenarios.AscendingPair | src/ecs.cpp:66 | two entities are visited lower id first |
| Scenarios.FirstTwoIds | src/ecs.h:39-43 | the first two component types to ask get ids 0 and 1 |
| Scenarios.MovementSystem | src/ecs.h:301-306 | requiring components 0 and 1 gives the requirement {0, 1} |
| Scenarios.TwoEntities | src/ecs.h:198-236 | creating A and B and giving A components 0 and 1 and B component 0 yields exactly those signatures, with both pending |
| Scenarios.OnlyAJoins | src/ecs.cpp:88 | with those signatures, only A covers the requirement {0, 1} |
| Scenarios.FirstFrame | src/ecs.cpp:63-75 | after the first update the system holds exactly A and nothing is pending |
| Scenarios.MembershipDriftScenario | src/ecs.cpp:63-75 | after B gains component 1 and a second update runs, the system still holds exactly A |
| LegacyEcs.GetAsWrittenMissesStore | src/ECS/ECS.h:117 | `Get` as written does not hand back the value just stored, whenever the unspecified result differs from it |
| LegacyEcs.GetAsWritten | src/ECS/ECS.h:117 | `Get` as written yields a value that does not depend on the pool: the slot is read and discarded |
| LegacyEcs.GetAsWrittenExample | src/ECS/ECS.h:117 | a concrete pool where the stored 5 is read back as something else |
| Util.Split | src/util.cpp:11-16 | the result is never empty |
| Util.SplitCount | src/util.cpp:11-16 | there is exactly one piece more than there are delimiters in the input |
| Util.SplitPiecesFree | src/util.cpp:14 | no piece contains the delimiter |
| Util.JoinSplit | src/util.cpp:7-18 | joining the pieces with the delimiter gives back the input |
| Util.SplitJoin | src/util.cpp:7-18 | splitting a join of delimiter-free pieces gives back those pieces |
| Util.TrailingDelimiter | src/util.cpp:11-16 | input ending in the delimiter gives an empty last piece |
| Util.SplitPrefix | src/util.cpp:14 | a delimiter-free prefix is glued onto the first piece of what follows |
| Util.SplitAtDelimiter | src/util.cpp:14 | a delimiter-free piece followed by the delimiter is cut off as one piece |
| Util.SplitWhole | src/util.cpp:14 | delimiter-free text is a single piece |
| Util.JoinAppendEmpty | src/util.cpp:11-16 | an empty last piece joins as one trailing delimiter |
| Util.GetLine | src/util.cpp:14 | one read takes the longest delimiter-free run from the read position; it either consumes the delimiter after it or stops at the end of the input |
| Util.StrSplit | src/util.cpp:7-18 | the stream loop returns exactly the pieces of the splitting function, for the empty input `[""]` |
| Tiles.CRem | src/game.cpp:145 | C++ `%` with a positive divisor: the result lies strictly between minus the divisor and the divisor, has the sign of the dividend, and differs from the dividend by a multiple of the divisor |
| Tiles.XIndex | src/game.cpp:145 | a tile's column differs from its number by a multiple of 10, lies strictly between -10 and 10, and is not negative for a number that is not |
| Tiles.TileRow | src/game.cpp:146-156 | the row is always in [0, 3); for a number in [0, 29] it is the row whose range of ten numbers holds it, and 0 for any other number |
| Tiles.YIndex | src/game.cpp:146-156 | the row scan yields the row whose range holds the number, or 0 when no row does, and always a row in [0, 3) |
| Tiles.OnSheet | src/game.cpp:144-156 | for a number in [0, 29], the column is its remainder by 10 and the row its quotient, both on the sheet, and row·10 + column gives the number back |
| Tiles.SourceOffsetInjective | src/game.cpp:162 | distinct numbers in [0, 29] are cut from distinct cells of the sheet |
| Tiles.PastSheet | src/game.cpp:144-156 | a number of 30 or more falls back to row 0 and is cut from the same cell as its remainder by 10 |
| Tiles.BelowSheet | src/game.cpp:144-156 | a negative number stays on row 0 and gets a column at or left of the first |
| Tiles.SourceOffset | src/game.cpp:162 | the sprite is cut at multiples of 32, within the sheet's 96 pixels of height, and within its 320 pixels of width for a number that is not negative |
| Tiles.Destination | src/game.cpp:161 | the world position is a multiple of 32 on each axis, and dividing it by 32 gives back the map column and row |
| Tiles.IntervalIndex | src/game.cpp:161 | along one axis, the tile-sized interval starting at k·32 holds a coordinate exactly when k is the coordinate's floor quotient by 32 |
| Tiles.TileSquares | src/game.cpp:161 | the tile at map (row, column) covers exactly the world square [column·32, column·32 + 32) × [row·32, row·32 + 32), so no two placed tiles overlap: each integer point lies in the square of exactly one map position, (y / 32, x / 32) |

## Left out

- Logging, SDL rendering and input, texture loading, file reading and the game loop: these are I/O and foreign calls. The logger calls in the registry only observe.
- `std::type_index` keys, `shared_ptr` ownership and `static_pointer_cast` type erasure:
  - system types are names;
  - component types are the ids `get_id()` returns;
  - all components share one value type.
- The `entity::registry` back-pointer and the entity's forwarding methods (`src/ecs.h:310-332`) are left out. The model calls the registry directly with the entity.
- Registry.Registry.AddComponent, RemoveComponent, HasComponent and GetComponent take the component id. Resolving it through `get_id()` is left out, including the fact that a first `has_component`, `remove_component` or `get_component` for a type allocates that type's id.
- Registry.Registry.GetComponent returns the slot's value. The reference the source returns, and writes through it, are not modelled.
- Integer widths: `next_id`, `_active_entities`, entity ids and pool sizes are unbounded naturals. Overflow of the C++ `int` and negative sizes given to `resize` are not modelled.
- Entity destruction: `pending_removal_entities` is declared but never filled or drained. The model only states that nothing touches it.
- Registry.Registry.AddEntityToSystems visits the systems in `unordered_map` order. That order is not modelled. Each system changes only by its own append, so the final state does not depend on it.
- The registry of the older variant (`src/ECS/ECS.h:125-141`) holds two fields and a defaulted constructor, with no operation to model.
- Two declarations of the older variant are never defined: the static `IBaseComponent::nextId` and the destructor `IPool::~IPool`. Any use of them would fail to link, and the model ignores this.
- `atoi` on the tile-map cell is not modelled. The tile number arrives as an integer.
- Tiles.Destination gives the world position as a pair of integers. `load_level` passes it to the transform as a floating-point `glm::vec2`; that conversion is not modelled. The positions are multiples of 32 and are represented exactly whenever the map is small enough for a float to hold them.
- Behaviour of the code that a reader might not expect:
  - `pool::resize` can shrink a pool.
  - An entity id the registry never issued is a precondition of the registry operations; they do not reject it.
  - A second `add_system` of the same type keeps the existing system.
- Registry.Registry.AddSystem requires that the system object is not already registered and has no members. The source always registers a freshly constructed system, and `system() = default` starts with none.
- Registry.Registry.RemoveSystem requires that the type is registered. Erasing the end iterator that `find` returns for a missing type is undefined behaviour.

## Findings

| source | as written | input that shows it | evidently intended | confidence | as-written member | corrected member |
|---|---|---|---|---|---|---|
| src/ECS/ECS.h:117 | `Pool::Get` reads the slot, discards it and falls off the end without returning, so the caller's reference is undefined | `Set(0, 5)` on a one-slot pool, then `Get(0)` | return the slot, as `operator[]` in the same class and `pool::get` in `src/ecs.h:128` do | not executed; high | LegacyEcs.GetAsWrittenMissesStore | Pools.Pool.Set |
