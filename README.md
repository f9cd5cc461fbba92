# mope_game_engine ECS core in Dafny

This project models the entity-component-system runtime of `mope_game_engine`
and proves properties of the model. The original is a C++ 2D game engine.

The model covers these parts:

- **Component vocabulary** (`components.dfy`). Entity ids are 64-bit unsigned, and
  `NoEntity` is 0. A C++ component type is represented by its derivation facts
  (does it derive from `singleton_component`, `entity_component`, `relationship`).
  From these facts the type is classified as a singleton, a plain entity component,
  a relationship, or not a component.
- **Storages** (`component_storage.dfy`). These are the three `component_storage`
  specialisations, as classes:
  - the singleton slot: empty, an owned value, or an external pointer;
  - the dense entity storage: a vector plus an entity→index map, with swap-remove;
  - the relationship storage: a vector plus a nested owner→(related→index) map.

  Each dense storage has a ghost abstraction. For the entity storage it is a map
  entity→payload. For the relationship storage it is owner→related→payload. The
  class invariant says the index is a bijection onto the vector's positions, and
  that each row sits where its index says. The relationship `remove` loop is a
  `while` loop with the invariant that every unprocessed row of the owner lies
  below the shrinking end marker.
- **Registry** (`component_manager.dfy`). `component_manager` keeps one storage per
  type key, in two maps: singleton stores and entity stores. A storage is created
  on first use. A ghost `owner` map from storage object to key keeps the stores
  distinct, so touching one type's storage leaves every other type's view
  unchanged.
- **Single-item range** (`iterable_box.dfy`). `iterable_box` and its iterator.
- **Queries** (`query.dfy`). `query_components`/`join` are modelled as eager
  functions over the rows of the storages. The gather yields one tuple per
  primary row whose extra lookups all succeed, in primary order. A join is the
  flattened cartesian product, with the previous result as the outer loop.
- **Scene and events** (`event_pool.dfy`, `game_scene.dfy`). The event pool, the
  scene's entity counter, the per-event-type handler lists, dispatch, and the
  `tick` drain loop. The drain loop runs over a queue that grows while it is
  drained.
- **Engine bookkeeping** (`game_engine.dfy`). Pending→active scenes, stable
  removal of done scenes, the close veto, key-edge detection, and the run-once
  `finally` guard.
- **GL handle** (`resource_id.dfy`). The reference-counted `resource_id` with its
  shared use counter and the file-wide outstanding count.
- **Legacy design** (`legacy_component.dfy`, `legacy_game_system.dfy`,
  `legacy_ecs_manager.dfy`). The earlier `ecs_manager`, `game_system` and
  `relationship<...>` query marker. This includes the swap-remove defect in the
  legacy entity storage, listed under Findings.

Type erasure is modelled as follows:

- Events are a tagged datatype, and the handler table is a map from tag to list.
- Component types are `TypeKey`s: an id plus derivation facts.
- The pmr pool, placement new and `void*` are replaced by these values.

Code outside the engine is a parameter of the model:

- a game system is an identity plus the events it pushes back when called;
- scene hooks (`on_load`, `on_close`, `is_done`) are functions from a scene id;
- the window's answers (`wants_to_close`, key states) and the clock's tick count
  are inputs.

`TypeKey`, `Entry`, `Relation` and the `Ptr` datatype (`Null` | `Ref(target)`)
are shared by all modules. `Ptr` stands for a C++ pointer compared by value.

Line numbers below are relative to each file. Paths are relative to the
repository root.

## Model

| member | source | states |
|---|---|---|
| Components.Classify | include/mope_game_engine/components/component.hxx:62-84 | A type is a component exactly when it satisfies one of the two concepts. It is a singleton exactly when it derives from `singleton_component` and not from `entity_component`. Among entity components, relationship types are exactly those that also derive from `relationship`. |
| Components.ConceptsExclusive | include/mope_game_engine/components/component.hxx:62-84 | No type satisfies both concepts, and every component satisfies exactly one of them. |
| Components.RelationshipIsEntityComponent | include/mope_game_engine/components/component.hxx:55-60 | A type deriving from `relationship` also derives from `entity_component`. It is a relationship component unless it also derives from `singleton_component`, and that is the only way it fails to be a component. |
| Components.Relation.AsEntityComponent | include/mope_game_engine/components/component.hxx:55-60 | A relationship row seen as its `entity_component` base keeps the owner entity and the payload. |
| IterableBox.Box.Begin | include/mope_game_engine/iterable_box.hxx:87-90 | `begin()` is a new iterator at the boxed pointer. |
| IterableBox.Box.End | include/mope_game_engine/iterable_box.hxx:92-95 | `end()` is a new iterator at null. |
| IterableBox.Box.Size | include/mope_game_engine/iterable_box.hxx:100-104 | With the corrected `operator-` of the Finding at line 73, the range's size (`end() - begin()`) is the number of elements it yields: 0 or 1, and 0 exactly when the pointer is null. As written, the size would be -1. |
| IterableBox.Box.Elements | include/mope_game_engine/iterable_box.hxx:25-28 | The box yields at most one item: the pointee, exactly when the pointer is non-null. |
| IterableBox.DifferenceAsWritten | include/mope_game_engine/iterable_box.hxx:69-77 | `operator-` as written is 0 exactly for equal iterators. |
| IterableBox.DifferenceAsWrittenHasWrongSign | include/mope_game_engine/iterable_box.hxx:73 | As written, `end() - begin()` of a non-empty box is -1, which is not the distance between their positions. |
| IterableBox.Difference | include/mope_game_engine/iterable_box.hxx:69-77 | The corrected `operator-` is the difference of the two positions (0 at the item, 1 past it). It is 0 exactly for equal iterators and is the negation of the expression as written. |
| IterableBox.Iterator.constructor | include/mope_game_engine/iterable_box.hxx:35-43 | The iterator starts at the given pointer. |
| IterableBox.Iterator.Deref | include/mope_game_engine/iterable_box.hxx:45-53 | Dereferencing a non-null iterator yields its pointee. |
| IterableBox.Iterator.Increment | include/mope_game_engine/iterable_box.hxx:55-60 | One pre-increment moves the iterator to the end. |
| IterableBox.Iterator.PostIncrement | include/mope_game_engine/iterable_box.hxx:62-67 | Post-increment returns a copy at the prior position and moves this iterator to the end. |
| IterableBox.Iterator.Minus | include/mope_game_engine/iterable_box.hxx:69-77 | With the corrected sign of the Finding at line 73, the difference is 0 for equal iterators, 1 for end minus begin, and -1 for begin minus end. Line 73 as written gives the opposite signs. |
| IterableBox.Iterator.Equals | include/mope_game_engine/iterable_box.hxx:79-82 | `operator==` holds exactly when the two iterators' difference is 0, and equal iterators are at the same position. |
| IterableBox.BeginEndAgree | include/mope_game_engine/iterable_box.hxx:87-95 | `begin() == end()` exactly when the boxed pointer is null, and one increment of `begin()` always reaches `end()`. |
| ComponentStorage.SingletonStorage.constructor | include/mope_game_engine/component_manager.hxx:91-96 | A new singleton slot is empty. |
| ComponentStorage.SingletonStorage.AddOrSet | include/mope_game_engine/component_manager.hxx:45-50 | Setting a value replaces whatever the slot held (owned or external), and `get` then returns a pointer to it. |
| ComponentStorage.SingletonStorage.AddOrSetExternal | include/mope_game_engine/component_manager.hxx:52-55 | Setting an external pointer replaces whatever the slot held, and `get` then returns that pointer. |
| ComponentStorage.SingletonStorage.Remove | include/mope_game_engine/component_manager.hxx:57-60 | `remove` empties the slot, so `get` returns null. |
| ComponentStorage.SingletonStorage.Get | include/mope_game_engine/component_manager.hxx:62-83 | `get` is null exactly when the slot is empty or holds a null external pointer. Otherwise it points at the owned value or is the external pointer. |
| ComponentStorage.SingletonStorage.All | include/mope_game_engine/component_manager.hxx:85-88 | `all()` has at most one element. It has one exactly when `get()` is non-null, and that element is the pointee. |
| ComponentStorage.SwapRemove | include/mope_game_engine/component_manager.hxx:118-142 | Swap-remove shortens the vector by one. The last row takes position `i` and every other remaining position keeps its row, so the rows are the old ones minus exactly the removed one (as multisets). |
| ComponentStorage.DenseOverwrite | include/mope_game_engine/component_manager.hxx:104-116 | Overwriting an indexed entity's row in place keeps the indexing. The entity then maps to the new payload and nothing else changes. |
| ComponentStorage.DenseAppend | include/mope_game_engine/component_manager.hxx:104-116 | Appending a new entity at index `size-1` keeps the indexing. The entity is added and nothing else changes. |
| ComponentStorage.DenseSwapRemove | include/mope_game_engine/component_manager.hxx:118-142 | Swapping the entity's row with the last one, repointing the moved entity and erasing the entity keeps the indexing. Exactly that entity is removed. |
| ComponentStorage.DenseCovers | include/mope_game_engine/component_manager.hxx:154-161 | The dense vector has one row per stored entity, and every row holds its entity's payload. |
| ComponentStorage.EntityStorage.constructor | include/mope_game_engine/component_manager.hxx:160-161 | A new entity storage is empty and well indexed. |
| ComponentStorage.EntityStorage.AddOrSet | include/mope_game_engine/component_manager.hxx:104-116 | Upsert by entity: the contents gain or replace exactly that entity's payload. A present entity is overwritten in place with the size unchanged; a new one is appended at `size-1`. |
| ComponentStorage.EntityStorage.Remove | include/mope_game_engine/component_manager.hxx:118-142 | The contents lose exactly the entity and every other entity keeps its payload. A present entity's row is swap-removed (the size drops by one); an absent entity changes nothing. The indexing stays consistent. |
| ComponentStorage.EntityStorage.Get | include/mope_game_engine/component_manager.hxx:144-152 | `get(e)` is non-null exactly when `e` is stored, and then points at `e`'s row. |
| ComponentStorage.EntityStorage.All | include/mope_game_engine/component_manager.hxx:154-157 | `all()` is the dense vector: one row per stored entity, each holding that entity's payload. |
| ComponentStorage.OwnedBy | include/mope_game_engine/component_manager.hxx:221-232 | The rows owned by `e`, in vector order, are exactly the rows whose owner is `e`. There are none exactly when no row has owner `e`. |
| ComponentStorage.OwnedByDistinct | include/mope_game_engine/component_manager.hxx:221-232 | If the rows have distinct (owner, related) keys, so do the rows owned by `e`. |
| ComponentStorage.OverwriteKeepsIndexing | include/mope_game_engine/component_manager.hxx:180-182 | Overwriting the row of an existing (owner, related) pair in place keeps the nested indexing, and only that pair's payload changes. |
| ComponentStorage.AppendKeepsIndexing | include/mope_game_engine/component_manager.hxx:183-186 | Appending the row of a new pair and indexing it at `size-1` keeps the nested indexing. |
| ComponentStorage.AppendContents | include/mope_game_engine/component_manager.hxx:176-186 | Appending a new pair adds exactly that pair's payload, creating the owner's inner map when missing. |
| ComponentStorage.AppendContentsAt | include/mope_game_engine/component_manager.hxx:176-186 | After appending a new pair, each owner's inner map is its old one, plus the new pair for its owner. |
| ComponentStorage.RemoveStart | include/mope_game_engine/component_manager.hxx:191-194 | Before the remove loop, the invariant holds: with the end marker at the end, all the owner's rows are unprocessed. |
| ComponentStorage.RemoveStep | include/mope_game_engine/component_manager.hxx:194-208 | One iteration (swap the row with the one before the end marker, repoint the moved row) keeps the loop invariant with one row fewer to process. |
| ComponentStorage.RemoveStepRow | include/mope_game_engine/component_manager.hxx:194-208 | After one iteration, every row before the new end marker is still indexed where it sits, and the owner's rows there are still to be processed. |
| ComponentStorage.RemoveStepKept | include/mope_game_engine/component_manager.hxx:194-208 | After one iteration, every pair other than the one just processed still reaches, through the index, a row holding its original payload. |
| ComponentStorage.RemoveFinish | include/mope_game_engine/component_manager.hxx:210-217 | Once no row is left to process, cutting the tail and clearing the owner's inner map leaves a well-indexed storage. |
| ComponentStorage.RemoveFinishContents | include/mope_game_engine/component_manager.hxx:210-217 | The cut storage holds every other owner's relationships unchanged and none of `e`'s. |
| ComponentStorage.OwnedRowsCount | include/mope_game_engine/component_manager.hxx:189-219 | The owner has as many rows as its inner map has keys, which is how far the loop moves the end marker. |
| ComponentStorage.DistinctCount | include/mope_game_engine/component_manager.hxx:189-219 | A sequence whose elements have pairwise distinct keys has as many elements as keys. This is the counting fact behind the end marker's final position. |
| ComponentStorage.OwnedRowsIndexed | include/mope_game_engine/component_manager.hxx:221-232 | Each row owned by `e` is the row its index entry points at. |
| ComponentStorage.OwnedRowsMatchContents | include/mope_game_engine/component_manager.hxx:221-232 | The rows owned by `e` are exactly its entries in the contents, each once, with the stored payloads. |
| ComponentStorage.RowsMatchContents | include/mope_game_engine/component_manager.hxx:234-237 | Every row of a well-indexed relationship vector holds the payload of its (owner, related) pair. |
| ComponentStorage.RemoveOwned | include/mope_game_engine/component_manager.hxx:189-219 | The remove loop deletes exactly the owner's rows and nothing else. The owner's inner map is cleared but kept, the indexing stays consistent, and the vector shrinks by the owner's row count. |
| ComponentStorage.RelationshipStorage.constructor | include/mope_game_engine/component_manager.hxx:240-242 | A new relationship storage is empty and well indexed. |
| ComponentStorage.RelationshipStorage.AddOrSet | include/mope_game_engine/component_manager.hxx:169-187 | Upsert by (owner, related): the same pair is overwritten in place with the size unchanged; a new related entity appends one row. One owner may hold many rows, and the nesting is asymmetric. |
| ComponentStorage.RelationshipStorage.Remove | include/mope_game_engine/component_manager.hxx:189-219 | Removes every relationship of the owner and leaves every other owner's unchanged. The owner keeps an empty inner map. The size drops by the owner's row count, and an unknown owner changes nothing. |
| ComponentStorage.RelationshipStorage.Get | include/mope_game_engine/component_manager.hxx:221-232 | `get(e)` yields exactly the rows owned by `e` (none for an unknown owner), each matching the stored payload. |
| ComponentStorage.RelationshipStorage.All | include/mope_game_engine/component_manager.hxx:234-237 | `all()` is the row vector, each row holding its pair's stored payload. |
| ComponentRegistry.ComponentManager.constructor | include/mope_game_engine/component_manager.hxx:340-343 | A new registry has no storages. |
| ComponentRegistry.ComponentManager.RowsMatchView | include/mope_game_engine/component_manager.hxx:288-292 | What `get_components` hands out agrees with the storage's abstract contents. |
| ComponentRegistry.ComponentManager.RowsAt | include/mope_game_engine/component_manager.hxx:288-292 | A type's rows take the storage shape its category selects: a box for a singleton, entries for an entity component, relations for a relationship. |
| ComponentRegistry.ComponentManager.OnlyStoreChanged | include/mope_game_engine/component_manager.hxx:307-343 | A step that changes only the storage registered under `k` keeps the registry valid and every other type's view as it was. |
| ComponentRegistry.ComponentManager.SingletonStoreAdded | include/mope_game_engine/component_manager.hxx:307-331 | Registering a new, empty singleton storage keeps the registry valid and changes no view. |
| ComponentRegistry.ComponentManager.EntityStoreAdded | include/mope_game_engine/component_manager.hxx:307-337 | Registering a new, empty entity or relationship storage keeps the registry valid and changes no view. |
| ComponentRegistry.ComponentManager.UpsertEntry | include/mope_game_engine/component_manager.hxx:104-116 | `add_or_set` on a registered entity storage upserts that type's view and no other. |
| ComponentRegistry.ComponentManager.UpsertRelation | include/mope_game_engine/component_manager.hxx:169-187 | `add_or_set` on a registered relationship storage upserts that type's nested view and no other. |
| ComponentRegistry.ComponentManager.RemoveFromStore | include/mope_game_engine/component_manager.hxx:294-298 | `remove(e)` on a registered storage removes `e` from that type's view only, and changes no registry map. |
| ComponentRegistry.ComponentManager.EnsureSingletonStorage | include/mope_game_engine/component_manager.hxx:307-331 | The singleton storage for a key is created (empty) only when it is missing or null; otherwise the existing one is returned. No type's view changes. |
| ComponentRegistry.ComponentManager.NewEntityStore | include/mope_game_engine/component_manager.hxx:314-322 | A new entity store is the plain or the relationship specialisation, as the key's category selects, and is empty. |
| ComponentRegistry.ComponentManager.EnsureEntityStorage | include/mope_game_engine/component_manager.hxx:307-337 | The entity storage for a key is created only when it is missing or null; otherwise the existing one is returned. No type's view changes. |
| ComponentRegistry.ComponentManager.SetSingleton | include/mope_game_engine/component_manager.hxx:251-259 | `set_component` of a singleton makes its slot own the value and leaves every other type unchanged. |
| ComponentRegistry.ComponentManager.SetExternalComponent | include/mope_game_engine/component_manager.hxx:269-273 | The singleton's slot now holds the external pointer, and every other type is unchanged. |
| ComponentRegistry.ComponentManager.SetComponent | include/mope_game_engine/component_manager.hxx:251-259 | `set_component` of an entity component upserts by entity in that type's storage only. |
| ComponentRegistry.ComponentManager.SetRelationship | include/mope_game_engine/component_manager.hxx:251-259 | `set_component` of a relationship upserts by (owner, related) in that type's storage only. |
| ComponentRegistry.ComponentManager.GetSingleton | include/mope_game_engine/component_manager.hxx:275-279 | `get_component()` returns the singleton's slot pointer and changes no view. |
| ComponentRegistry.ComponentManager.GetComponent | include/mope_game_engine/component_manager.hxx:282-286 | `get_component(e)` is non-null exactly when the type stores `e`, and then points at `e`'s row. |
| ComponentRegistry.ComponentManager.GetRelationships | include/mope_game_engine/component_manager.hxx:282-286 | `get_component(e)` on a relationship type yields the rows owned by `e`. |
| ComponentRegistry.ComponentManager.GetComponents | include/mope_game_engine/component_manager.hxx:288-292 | `get_components` returns the type's `all()` and changes no view. |
| ComponentRegistry.ComponentManager.RemoveComponent | include/mope_game_engine/component_manager.hxx:294-298 | `remove_component(e)` removes `e` from that type's storage only. |
| ComponentRegistry.ComponentManager.RemoveSingleton | include/mope_game_engine/component_manager.hxx:300-304 | `remove_component()` empties the singleton's slot and touches nothing else. |
| ComponentRegistry.ComponentManager.RemoveEntity | src/game_scene.cxx:45-50 | `remove(e)` on every entity storage: each plain storage loses `e` and each relationship storage clears `e`'s relationships. Singletons are unchanged. |
| Query.FindEntry | include/mope_game_engine/component_manager.hxx:144-152 | The lookup by entity is non-null exactly when some row belongs to the entity, and then it is that row. |
| Query.GetFromManager | include/mope_game_engine/query.hxx:10-20 | An entity component is looked up by the entity, and a singleton ignores it. A pointer result is non-null exactly when the component exists. A relationship lookup is a range, never null. |
| Query.SingletonLookupIgnoresEntity | include/mope_game_engine/query.hxx:16-20 | A singleton lookup gives the same result for every entity. |
| Query.EntityLookupMatchesRegistry | include/mope_game_engine/query.hxx:10-14 | A plain entity lookup through the registry's rows is non-null exactly when the registry stores the entity, and then holds its payload. |
| Query.IsNotNull | include/mope_game_engine/query.hxx:22-31 | The filter rejects exactly a null pointer; every range result passes. |
| Query.Deref | include/mope_game_engine/query.hxx:33-42 | `deref` yields the pointee of a pointer and passes any other result through (a range as a copy; see the Query.GatherComponents line under Left out). |
| Query.Wrap | include/mope_game_engine/query.hxx:44-64 | `wrap` keeps a tuple as it is and makes anything else a 1-tuple. |
| Query.MakeFlatTuple | include/mope_game_engine/query.hxx:66-70 | A single argument flattens to its wrapped form: a tuple stays as it is, and a value becomes a 1-tuple. |
| Query.MakeFlatTupleMembers | include/mope_game_engine/query.hxx:66-70 | An item is in the flattened tuple exactly when it is an element of some wrapped argument. |
| Query.MakeFlatTuplePair | include/mope_game_engine/query.hxx:66-70 | Flattening two values concatenates their wrapped forms, one level deep. |
| Query.MakeFlatTupleAppend | include/mope_game_engine/query.hxx:66-70 | Flattening distributes over concatenating the argument list. |
| Query.PrimaryRows | include/mope_game_engine/query.hxx:76 | The primary rows are the storage's `all()`: the singleton box's item, or the dense rows. |
| Query.Lookups | include/mope_game_engine/query.hxx:80-101 | The first transform looks up every extra component by the primary row's entity. |
| Query.Derefs | include/mope_game_engine/query.hxx:110-117 | The second transform dereferences every lookup. |
| Query.TupleFor | include/mope_game_engine/query.hxx:110-117 | A passing row's tuple is the row followed by one item per extra. |
| Query.TupleItems | include/mope_game_engine/query.hxx:80-117 | After the primary row, each tuple item is the dereferenced lookup of that extra, which is non-null. |
| Query.Candidate | include/mope_game_engine/query.hxx:102-109 | A row yields a tuple exactly when it passes the filter. |
| Query.Candidates | include/mope_game_engine/query.hxx:80-109 | One candidate per primary row, in order. |
| Query.Select | include/mope_game_engine/query.hxx:102-117 | The filter never yields more tuples than rows. |
| Query.SelectMembers | include/mope_game_engine/query.hxx:102-117 | A tuple is a result exactly when it is the tuple of some passing primary row. |
| Query.SelectAppend | include/mope_game_engine/query.hxx:102-117 | The filter keeps primary order: filtering a concatenation concatenates the filtered parts. |
| Query.SelectOne | include/mope_game_engine/query.hxx:102-117 | A single row yields its tuple when all its lookups succeed, and nothing otherwise. |
| Query.GatherComponents | include/mope_game_engine/query.hxx:72-119 | With no extras, the gather is every primary row. With extras, it is the tuples of the passing rows, in primary order. A singleton primary with an entity extra is excluded by the requires, as the `static_assert` does. |
| Query.GatherMembers | include/mope_game_engine/query.hxx:79-117 | With extras, a tuple is gathered exactly when it is the tuple of a primary row all of whose lookups succeed. |
| Query.GatherBothWays | include/mope_game_engine/query.hxx:79-117 | The same for every gathered tuple and every passing row at once: each gathered tuple comes from a passing row, and each passing row's tuple is gathered. |
| Query.JoinRow | include/mope_game_engine/query.hxx:170-175 | One row of the product pairs the value with every gathered value, flattened. |
| Query.Product | include/mope_game_engine/query.hxx:164-176 | The product is empty exactly when the previous results or the new gather are empty. |
| Query.Cell | include/mope_game_engine/query.hxx:164-176 | Row-major positions of pairs lie inside the product. |
| Query.ProductLength | include/mope_game_engine/query.hxx:164-176 | The cartesian product has \|prev\|·\|gather\| elements. |
| Query.ProductCell | include/mope_game_engine/query.hxx:164-176 | The cell of (i, j) is prev[i] flattened with gather[j], with prev as the outer loop. |
| Query.ProductShape | include/mope_game_engine/query.hxx:164-176 | Size and every cell of the product at once. |
| Query.ProductIndex | include/mope_game_engine/query.hxx:164-176 | Every element of the product is a flattened pair: element k pairs prev[k / n] with gather[k % n]. |
| Query.CellOfIndex | include/mope_game_engine/query.hxx:164-176 | Every product position is the cell of its quotient and remainder. |
| Query.QueryComponents | include/mope_game_engine/query.hxx:185-221 | With no extras, `query_components` yields as many results as primary rows. With extras, it yields at most that many, every result is the tuple of a primary row whose lookups all succeed, and every such row's tuple is a result. |
| Query.Join | include/mope_game_engine/query.hxx:135-183 | `join` is empty exactly when the current results or the joined gather are empty. |
| Query.JoinShape | include/mope_game_engine/query.hxx:154-176 | `join` yields \|prev\|·\|gather\| flattened tuples, prev as the outer loop. |
| Query.TableOf | include/mope_game_engine/query.hxx:76 | Reading a type's rows through `get_components` gives the registry's rows and changes no view. |
| Events.EventPool.constructor | include/mope_game_engine/event_pool.hxx:16 | A new pool has no events. |
| Events.EventPool.Store | include/mope_game_engine/event_pool.hxx:23-29 | `store` appends exactly one event at the end and leaves every earlier event in place. |
| Events.EventPool.Events | src/game_scene.cxx:82-85 | `events()` returns the stored events, oldest first. `Store` and `Clear` state their effect through it. |
| Events.EventPool.Clear | src/game_scene.cxx:87-90 | `clear` empties the list. |
| Scene.HandlersIn | include/mope_game_engine/event_pool.inl:8 | A type's handler list is its registered list, or empty when none is registered. |
| Scene.HandlerCalls | include/mope_game_engine/event_pool.inl:8-11 | Dispatch calls each handler of the list once, in list order. |
| Scene.SpawnedPrefix | src/game_scene.cxx:67-73 | Processing later events only appends to what earlier ones spawned and called. |
| Scene.ReactionsFrom | include/mope_game_engine/event_pool.inl:8-11 | Every event pushed in reaction to an event comes from one of its handlers. |
| Scene.ReactionsRanked | src/game_scene.cxx:67-73 | Under a ranking, every reaction has a smaller potential than its cause. |
| Scene.Weight | src/game_scene.cxx:67-73 | Processing an event takes at least one step. |
| Scene.WeightBelow | src/game_scene.cxx:67-73 | A non-empty batch of reactions takes at least one step. |
| Scene.QueueWeight | src/game_scene.cxx:67-73 | Draining a queue takes at least as many steps as it holds events. |
| Scene.WeightBelowIsQueueWeight | src/game_scene.cxx:67-73 | The number of steps does not depend on the potential bound used. |
| Scene.QueueWeightAppend | src/game_scene.cxx:67-73 | The steps for a concatenated queue are the sum of the parts'. |
| Scene.QueueWeightStep | src/game_scene.cxx:67-73 | Processing the head event replaces its weight by that of its reactions. |
| Scene.SpawnedStep | src/game_scene.cxx:67-73 | Processing one more event extends what was spawned and called by that event's reactions and handler calls. |
| Scene.DrainStep | src/game_scene.cxx:67-73 | One loop iteration keeps the queue equal to the seed followed by what the processed prefix spawned. |
| Scene.DrainWeightStep | src/game_scene.cxx:67-73 | One loop iteration lowers the weight still to drain by exactly one. |
| Scene.DrainFinish | src/game_scene.cxx:67-73 | When the index reaches the end, the queue is the seed plus everything it spawned, and its length is the seed's weight. |
| Scene.NthEntity | src/game_scene.cxx:39-43 | The n-th id handed out is n for n below 2^64, and wraps to `NoEntity` at 2^64. |
| Scene.EntitiesIncrease | src/game_scene.cxx:39-43 | The first 2^64 - 1 ids are non-zero and strictly increasing. |
| Scene.GameScene.constructor | src/game_scene.cxx:13-20 | A new scene has handed out no id, is not done, and has no systems, events or storages. |
| Scene.GameScene.SetDone | src/game_scene.cxx:24-27 | `is_done` then returns the value passed, and nothing else changes. |
| Scene.GameScene.IsDone | src/game_scene.cxx:29-32 | `is_done()` returns the flag that `set_done` last stored; a new scene is not done. |
| Scene.GameScene.CreateEntity | src/game_scene.cxx:39-43 | The counter is pre-incremented and returned: the n-th call returns n (never 0 before wrap-around); nothing else changes. |
| Scene.GameScene.DestroyEntity | src/game_scene.cxx:45-50 | Every storage gets `remove(e)`: the entity loses each component and its relationships. |
| Scene.GameScene.AddGameSystem | include/mope_game_engine/game_scene.hxx:97-102 | The system goes to the end of its event type's list; other lists are unchanged. |
| Scene.GameScene.AddInvocable | include/mope_game_engine/game_scene.hxx:104-112 | The proxy holding the invocable goes to the end of the list, through the same path. |
| Scene.GameScene.PushEvent | include/mope_game_engine/game_scene.hxx:120-124 | Exactly one event is queued, at the back. |
| Scene.GameScene.EmplaceEvent | include/mope_game_engine/game_scene.hxx:114-118 | Exactly one event of the given type, built from the arguments, is queued at the back. |
| Scene.GameScene.Invoke | include/mope_game_engine/event_pool.inl:9-10 | A call `system(scene, event)` is recorded, and its events are queued in order. |
| Scene.GameScene.ProcessEvent | include/mope_game_engine/event_pool.inl:3-18 | Each handler subscribed to the event's type runs once, in registration order, and its pushed events are queued in call order. A type without handlers gets an empty list inserted. |
| Scene.GameScene.DrainOne | src/game_scene.cxx:67-73 | One iteration of the drain loop keeps its invariant and lowers the remaining weight. |
| Scene.GameScene.Drain | src/game_scene.cxx:66-73 | The queue is processed by index while it grows. Every event, including those pushed during processing, is dispatched once, in FIFO order. The loop ends after as many steps as the seed's weight. |
| Scene.GameScene.DrainFrom | src/game_scene.cxx:67-73 | From any index satisfying the loop invariant, the loop runs off the end of the queue with the invariant intact. |
| Scene.GameScene.Tick | src/game_scene.cxx:60-75 | The tick event is queued behind events already pending, the queue is drained as above, and the list is then empty. Handler tables and the rest of the scene are unchanged. |
| Scene.GameScene.TablesAt | include/mope_game_engine/query.hxx:85-99 | The extras' tables are the registry's current rows for each key. |
| Scene.GameScene.Query | include/mope_game_engine/game_scene.hxx:126-130 | `query<C...>()` is `query_components` over this scene's storages. It may create missing storages but changes no view. |
| Engine.NewlyPressed | src/game_engine.cxx:190 | A key is newly pressed exactly when it is held now and was not before. |
| Engine.NewlyReleased | src/game_engine.cxx:191 | A key is newly released exactly when it is not held now and was before. |
| Engine.EdgesPartition | src/game_engine.cxx:189-191 | No key is both newly pressed and newly released. A key has an edge exactly when its state changed. |
| Engine.NoEdgesWithoutChange | src/game_engine.cxx:189-191 | Unchanged key states yield no edges. |
| Engine.Sampled | src/game_engine.cxx:189-191 | Sampling sets `held`, and pressed/released accumulate (never lose keys) their new edges. |
| Engine.Consumed | src/game_engine.cxx:215-218 | After a tick, pressed and released are empty and `held` is kept. |
| Engine.LoadHooks | src/game_engine.cxx:342-348 | Each pending scene, in order, gets the logger and then `on_load`. |
| Engine.Survivors | src/game_engine.cxx:354-370 | Unloading never adds scenes. |
| Engine.SurvivorsMembers | src/game_engine.cxx:354-370 | A scene survives exactly when it was active and is not done. |
| Engine.SurvivorsCount | src/game_engine.cxx:354-370 | Every scene either survives or gets `on_unload`. |
| Engine.SurvivorsAppend | src/game_engine.cxx:356-358 | The partition is stable: survivors keep their relative order. |
| Engine.SurvivorsIdempotent | src/game_engine.cxx:354-370 | Unloading twice with the same answers removes nothing more. |
| Engine.CloseHooks | src/game_engine.cxx:381-383 | `on_close` is called on every scene, in order, without short-circuit. |
| Engine.TickHooks | src/game_engine.cxx:211-213 | Each active scene is ticked once, with the same inputs. |
| Engine.Repeat | src/game_engine.cxx:210-225 | n repetitions of a tick round have n times its hooks. |
| Engine.Finally.constructor | src/game_engine.cxx:79-83 | A new guard has not cleaned up. |
| Engine.Finally.Cleanup | src/game_engine.cxx:90-96 | The guarded function runs on the first call only, however often `cleanup` is called. |
| Engine.GameEngine.constructor | src/game_engine.cxx:103-110 | A new engine has no pending or active scenes. |
| Engine.GameEngine.AddScene | src/game_engine.cxx:130-133 | The scene is appended to the pending list. |
| Engine.GameEngine.LoadScenes | src/game_engine.cxx:332-352 | Every pending scene moves, in order, to the end of the active list after its logger and `on_load` hooks. The pending list is then empty. |
| Engine.GameEngine.UnloadScenes | src/game_engine.cxx:354-370 | Exactly the done scenes are removed and get `on_unload`, in order; the survivors keep their order. |
| Engine.GameEngine.KeepAlive | src/game_engine.cxx:372-392 | When the window wants to close, every scene gets `on_close`. The result is `!wants_to_close \|\| rejected`, and `close(false)` is called exactly when some scene rejected. |
| Engine.GameEngine.Sample | src/game_engine.cxx:189-191 | The inputs take the new key edges. |
| Engine.GameEngine.TickScenes | src/game_engine.cxx:210-218 | A tick round ticks every scene and then clears pressed and released. |
| Engine.GameEngine.TickLoop | src/game_engine.cxx:210-227 | Over n ticks, edges are delivered on the first tick only, and `previous` becomes `held`. |
| Engine.GameEngine.Advance | src/game_engine.cxx:187-237 | After sampling, a frame with ticks unloads done scenes. It asks the window to close exactly when no active or pending scene remains. A frame without ticks leaves edges to accumulate. |
| Engine.GameEngine.Frame | src/game_engine.cxx:185-237 | One iteration of the main loop, condition included: load, close veto, then advance. |
| Engine.GameEngine.ReleaseScenes | src/game_engine.cxx:143-151 | The guarded function gives every active scene `on_unload` and clears the list. |
| Engine.GameEngine.Shutdown | src/game_engine.cxx:267 | The explicit `cleanup()` and the guard's destructor release the scenes once. |
| Engine.AllDoneLeavesNone | src/game_engine.cxx:354-370 | If every scene is treated as done, none survives. |
| ResourceHandle.Globals.constructor | src/resource_id.cxx:5 | The outstanding count starts at 0, with no handle made and nothing released. |
| ResourceHandle.Globals.OutstandingCount | src/resource_id.cxx:8-11 | `outstanding_count()` is the number of handles constructed whose id has not been released, so never more than the handles made. |
| ResourceHandle.UseCount.constructor | src/resource_id.cxx:23 | A new counter is 1, with one holder. |
| ResourceHandle.UseCount.Rehold | include/mope_game_engine/resource_id.hxx:32 | Handing a share between handles leaves the count unchanged. |
| ResourceHandle.ResourceId.Default | src/resource_id.cxx:13-18 | The default handle has id 0, no release function and no counter, and converts to false and to 0. |
| ResourceHandle.ResourceId.Make | src/resource_id.cxx:20-26 | A handle built from an id and a release function has a new counter at 1. It raises the outstanding count and the number of handles made by one, whatever the id, so the count keeps its meaning. |
| ResourceHandle.ResourceId.Copy | src/resource_id.cxx:28-36 | A copy shares the counter and bumps it; copying an empty handle changes nothing. |
| ResourceHandle.ResourceId.Move | src/resource_id.cxx:38-42 | A move takes the contents and leaves the source empty, with no count change. |
| ResourceHandle.ResourceId.AsId | src/resource_id.cxx:63-66 | The conversion to `unsigned int` gives the id, and an empty handle converts to 0. |
| ResourceHandle.ResourceId.AsBool | src/resource_id.cxx:68-71 | The handle is true exactly when its id is non-zero. |
| ResourceHandle.ResourceId.Destroy | src/resource_id.cxx:50-61 | The destructor drops one share. The last share frees the counter. It calls `release(id)` and lowers the outstanding count exactly when the id is non-zero and there is a release function. |
| ResourceHandle.ResourceId.Assign | src/resource_id.cxx:44-48 | Copy-and-swap: this handle takes the argument's contents, with the argument's use count unchanged, and the old contents lose one share. When that was their last share, and they have a non-zero id and a release function, `release(old id)` is called and the outstanding count drops by one. Otherwise the globals are unchanged. |
| ResourceHandle.ResourceId.Swap | include/mope_game_engine/resource_id.hxx:27-33 | `swap` exchanges id, release function and counter, and changes no use count. |
| ResourceHandle.SwapTwice | include/mope_game_engine/resource_id.hxx:27-33 | Swapping twice restores both handles. |
| ResourceHandle.MakeThenDestroy | src/resource_id.cxx:20-61 | A handle with a non-zero id and a release function, made and destroyed, releases the id once and leaves the outstanding count as it was. |
| ResourceHandle.ZeroIdStaysOutstanding | src/resource_id.cxx:20-61 | A handle made with id 0 and then destroyed leaves the outstanding count one higher and releases nothing. |
| LegacyComponents.MakeEntityComponent | include/mope_game_engine/component.hxx:34-42 | `entity_component(en)` stores exactly `en`. |
| LegacyComponents.ComponentOrRelationship | include/mope_game_engine/component.hxx:89-93 | A requested type passes `component_or_relationship` exactly when its traits classify it as a component, or when it is a requestable `relationship<...>` specialisation. |
| LegacyComponents.TreatmentOf | include/mope_game_engine/component.hxx:55-93 | A requested type is accepted exactly when it is a component or a `relationship<P, A...>` specialisation with at least the primary parameter P. The non-empty requirement comes from the `additional_component_view` specialisation (game_system.hxx:48-51). Singletons are looked up globally, entity components by entity, and relationships as sub-views. |
| LegacySystems.TraitsOf | include/mope_game_engine/game_system.hxx:48-51 | The relationship's parameters are the traits of its tables, in order. |
| LegacySystems.RelationshipColumn | include/mope_game_engine/game_system.hxx:48-65 | A `relationship<P, A...>` column is well formed, requests that specialisation, and carries the gather of P with A.... |
| LegacySystems.ColumnRequest | include/mope_game_engine/game_system.hxx:35-65 | Each column is handled by the `additional_component_view` specialisation its requested type selects. |
| LegacySystems.SingleComponent | include/mope_game_engine/game_system.hxx:15-30 | A singleton extra is fetched globally; an entity extra is fetched by `c0.en`. |
| LegacySystems.AdditionalView | include/mope_game_engine/game_system.hxx:35-65 | A component column gives a box with at most one item, present exactly when the lookup succeeds. A relationship column gives a single sub-view. |
| LegacySystems.SubViewIndependent | include/mope_game_engine/game_system.hxx:53-64 | A relationship's sub-view does not depend on the primary row. |
| LegacySystems.Prepend | include/mope_game_engine/game_system.hxx:88-91 | Prefixing a value to each tuple keeps the count. |
| LegacySystems.Cartesian | include/mope_game_engine/game_system.hxx:88-91 | `cartesian_product_view` over no columns is one empty tuple, and over a first column that is empty it is nothing. |
| LegacySystems.CartesianPicks | include/mope_game_engine/game_system.hxx:88-91 | Every tuple of the product has one element per column, taken from that column, in column order. |
| LegacySystems.Heads | include/mope_game_engine/game_system.hxx:88-91 | The first element of each column, in column order. |
| LegacySystems.CartesianOfSmall | include/mope_game_engine/game_system.hxx:88-91 | The product of columns with at most one element has one tuple when all are non-empty, and none otherwise. |
| LegacySystems.RowColumns | include/mope_game_engine/game_system.hxx:88-91 | A row's product columns are `{c0}` followed by each extra's view. |
| LegacySystems.RowTuple | include/mope_game_engine/game_system.hxx:88-91 | When all extras exist, the row's tuple is `c0` followed by each extra's item. |
| LegacySystems.RowColumnsSmall | include/mope_game_engine/game_system.hxx:88-91 | Every product column has at most one element, and an extra's has one exactly when it is present. |
| LegacySystems.RowContributionPresent | include/mope_game_engine/game_system.hxx:77-93 | A row whose extras are all present contributes exactly its one tuple. |
| LegacySystems.RowContributionAbsent | include/mope_game_engine/game_system.hxx:77-93 | A row with a missing extra contributes nothing. |
| LegacySystems.RowContribution | include/mope_game_engine/game_system.hxx:77-93 | Each primary row contributes one tuple if all extras exist and none otherwise. |
| LegacySystems.RowsOuts | include/mope_game_engine/game_system.hxx:77-92 | One contribution per primary row, in order. |
| LegacySystems.GetAllComponents | include/mope_game_engine/game_system.hxx:67-95 | With no extras, the result is every primary row. With extras, it is the joined contributions of the rows, and a singleton primary with an entity extra is excluded. |
| LegacySystems.AsOuts | include/mope_game_engine/game_system.hxx:67-95 | One output per query value, in order. |
| LegacySystems.Lookups | include/mope_game_engine/game_system.hxx:38-46 | Plain component extras become lookup columns, in order. |
| LegacySystems.LookupsWellFormed | include/mope_game_engine/game_system.hxx:38-46 | Lookup columns over component tables are well formed. |
| LegacySystems.LookupColumn | include/mope_game_engine/game_system.hxx:15-46 | A lookup column is present exactly when the newer query's lookup is non-null, and then holds its dereferenced item. |
| LegacySystems.FoundPresent | include/mope_game_engine/game_system.hxx:77-93 | A row passing the newer query's filter has every legacy box non-empty. |
| LegacySystems.TupleAgrees | include/mope_game_engine/game_system.hxx:88-91 | The legacy tuple of a passing row equals the newer query's tuple. |
| LegacySystems.TupleItemAgrees | include/mope_game_engine/game_system.hxx:77-91 | Item by item, a passing row's legacy tuple holds the same components as the newer query's tuple. |
| LegacySystems.RowAgreesFound | include/mope_game_engine/game_system.hxx:77-93 | A passing row contributes the newer query's tuple. |
| LegacySystems.RowAgreesMissing | include/mope_game_engine/game_system.hxx:77-93 | A failing row contributes nothing in either design. |
| LegacySystems.RowAgrees | include/mope_game_engine/game_system.hxx:77-93 | For plain component extras, each row's legacy contribution is what the newer filter-then-deref yields for it. |
| LegacySystems.ProductsAgree | include/mope_game_engine/game_system.hxx:77-93 | Over all primary rows, the legacy cartesian-product hack equals filter-then-deref, in primary order. |
| LegacySystems.ProductsSnoc | include/mope_game_engine/game_system.hxx:93 | Joining rows one more at a time appends that row's contribution. |
| LegacySystems.AsOutsAppend | include/mope_game_engine/game_system.hxx:93 | Conversion distributes over concatenation. |
| LegacySystems.RowYields | include/mope_game_engine/game_system.hxx:77-93 | An output comes from a row exactly when all its columns are present and the output is its tuple. |
| LegacySystems.ProductsMembers | include/mope_game_engine/game_system.hxx:77-93 | An output is in the joined view exactly when some primary row yields it. |
| LegacySystems.GetAllMembers | include/mope_game_engine/game_system.hxx:67-95 | With extras, an output is in the system's view exactly when some primary row yields it. |
| LegacySystems.PlainColumnsAgree | include/mope_game_engine/game_system.hxx:67-95 | With only plain component extras, the legacy view equals the newer `gather_components`. |
| LegacySystems.Tick | include/mope_game_engine/game_system.hxx:122-128 | `tick` passes the time step and the computed view to `process_tick`. |
| LegacyEcs.Managed | include/mope_game_engine/ecs_manager.hxx:236-237 | A type derived from `ecs_manager` is stored under the one `ecs_manager` key; every other type under its own key. |
| LegacyEcs.ManagedShared | include/mope_game_engine/ecs_manager.hxx:236-237 | Two types share a storage exactly when they are the same type, or both derive from `ecs_manager`. |
| LegacyEcs.RemoveAsWritten | include/mope_game_engine/ecs_manager.hxx:124-133 | As written: removing an absent entity changes nothing. Removing a present one swap-removes its row and drops its key. |
| LegacyEcs.RemoveAsWrittenBreaksIndexing | include/mope_game_engine/ecs_manager.hxx:128-129 | Removing any row but the last leaves the moved entity indexed at the old last position, one past the end, so the index is no longer consistent. |
| LegacyEcs.RemoveAsWrittenLastRow | include/mope_game_engine/ecs_manager.hxx:124-133 | Removing the last row is correct as written. |
| LegacyEcs.RemoveAsWrittenExample | include/mope_game_engine/ecs_manager.hxx:128-129 | Concretely, removing entity 1 from rows [1, 2] leaves entity 2 indexed at 1 in a one-row vector. |
| LegacyEcs.TickCalls | src/ecs_manager.cxx:38-43 | One call per system, in order, all with the same time step. |
| LegacyEcs.TickCallsSnoc | src/ecs_manager.cxx:40-42 | Registering one more system appends its call. |
| LegacyEcs.EcsManager.constructor | src/ecs_manager.cxx:9-14 | A new manager has handed out no id and has no storages or systems. |
| LegacyEcs.EcsManager.CreateEntity | src/ecs_manager.cxx:20-24 | The n-th call returns n, never 0 before wrap-around. |
| LegacyEcs.EcsManager.DestroyEntity | src/ecs_manager.cxx:26-31 | Every manager gets `remove(e)`. Singletons are untouched (the base `remove` is a no-op), and each entity storage loses `e`. |
| LegacyEcs.EcsManager.SetComponent | include/mope_game_engine/ecs_manager.hxx:108-122 | Upsert by entity, returning a pointer to the stored row. |
| LegacyEcs.EcsManager.SetSingleton | include/mope_game_engine/ecs_manager.hxx:58-64 | The managed type's slot owns the value, and the returned pointer points at it. |
| LegacyEcs.EcsManager.SetExternalComponent | include/mope_game_engine/ecs_manager.hxx:66-70 | The managed type's slot holds the external pointer, which is returned. |
| LegacyEcs.EcsManager.GetSingleton | include/mope_game_engine/ecs_manager.hxx:196-206 | A singleton is read from its managed type's slot: null exactly when empty. |
| LegacyEcs.EcsManager.GetComponent | include/mope_game_engine/ecs_manager.hxx:135-143 | `get(en)` is non-null exactly when `en` is stored, and then points at its row. |
| LegacyEcs.EcsManager.GetComponents | include/mope_game_engine/ecs_manager.hxx:214-218 | `get_components` returns the managed type's `all()`, a box exactly for singletons. |
| LegacyEcs.EcsManager.AddGameSystem | src/ecs_manager.cxx:33-36 | The system is appended to the list. |
| LegacyEcs.EcsManager.RunSystems | src/ecs_manager.cxx:38-43 | Every system is ticked once, in registration order, with the time step. |
| LegacyEcs.SceneSingletonShared | include/mope_game_engine/ecs_manager.hxx:196-206 | Setting a singleton through one type derived from `ecs_manager` and reading it through another yields the value set. |

## Left out

- The OpenGL, GLFW and FreeType layers, the renderer, `draw`, `render`, `set_projection_matrix` and the GL debug callbacks: foreign library calls.
- The frame clock, accumulator, `set_tick_rate` and FPS logging: wall-clock time and floating point. The model takes the number of ticks a frame runs as an input.
- Collisions, transforms and the Pong example: floating-point geometry outside the ECS core.
- The pmr pool, placement new, the event's destructor and the pool deallocation after dispatch: allocation artefacts. Processed events are simply not referred to again, and nothing the model observes depends on them.
- `typeid`/`type_index` erasure: replaced by event tags and `TypeKey`s carrying the C++ type's derivation facts.
- Range laziness: queries are eager sequences.
  - The source re-runs `ensure_storage` for each extra while the view is iterated. The model takes each extra's rows as they stand when the query starts.
  - A missing extra storage reads as empty, which is what `ensure_storage` would create.
- Handler bodies are game code. A system is an identity plus the events it pushes when called.
  - A handler that adds systems or touches components during dispatch is not modelled.
- Scene.GameScene.Tick: the source's drain loop has no bound. The model requires a ranking, `Ranked`, so that the loop provably terminates: every event a subscribed handler may push has a smaller potential than its cause.
  - `Ranked` speaks of every event of a subscribed type, not only of those reachable from the queue. So besides games whose systems push events forever (which would hang the source), it also excludes terminating games whose handlers would form a cycle only among events that never occur.
- The relationship `get(e)` and `destroy_entity` visit unordered maps in hash order. The model yields the owner's rows in dense-vector order and treats the fan-out over storages as order-independent (each `remove` touches only its own storage).
- `set_components` (a variadic fold of `set_component`) and the legacy `emplace_game_system` (construct then `add_game_system`): just repeated calls of modelled operations.
- ComponentRegistry.ComponentManager.RemoveEntity: null storages are skipped. The source would dereference them, but its only way to leave one is through `operator[]`, which the engine never calls.
- ResourceHandle.Globals.OutstandingCount: `OutstandingCount` is an `int` that could overflow after 2^31 handles. The model uses an unbounded integer.
- LegacyComponents.TreatmentOf: `component_or_relationship` also admits the empty specialisation `relationship<>`. No `additional_component_view` specialisation takes it (game_system.hxx:48-51 needs a primary parameter), so a system cannot request it. The model treats it as not requestable.
- ResourceHandle.ResourceId.Destroy: `delete m_use_count` is a ghost flag on the counter. Nothing models use-after-free.
- The engine's `time_step` and the legacy `run_systems` time step are uninterpreted reals. Only their pass-through is modelled.
- LegacyEcs.EcsManager.RunSystems: only the calls are recorded. What each system's `process_tick` does is game code.
- LegacyEcs.EcsManager: the legacy single `m_component_managers` map is modelled by the newer registry's pair of maps, keyed by the managed type.
  - The legacy singleton and entity storages behave like the newer ones, except for the entity `remove`, which is the Finding below. The class uses the corrected `remove`.
- LegacyEcs.RemoveAsWritten: for a present entity, only `e !in index` is stated about the new index. As written, the index keeps a stale entry, and its full contents are exhibited by RemoveAsWrittenBreaksIndexing and RemoveAsWrittenExample.
- Query.GatherComponents: a relationship extra is modelled at its evident intent, as a copy of the owner's range. In the source, `get(e)` (component_manager.hxx:221-231) returns that range by value, and `make_tuple` (query.hxx:86-89) stores it in the first transform's temporary tuple. `deref` (query.hxx:33-42) then forwards an rvalue reference into that temporary, and `forward_as_tuple` (query.hxx:114) keeps it after the second transform returns, so the yielded tuple's range element dangles. The model does not capture that lifetime. The primary row and pointer extras do not dangle: they refer into the storages.
- Scene.GameScene.Query: the result is a sequence, not a view object, so `join` on a scene query is modelled through Query.JoinShape rather than as a method.

Spots where the source does not compile as shown are modelled at their evident intent:

- `component_manager.hxx:303` calls `remove(NoEntity)` on a singleton storage whose `remove()` takes no argument. The model empties the slot.
- `src/game_scene.cxx:14-15,47` initialise and loop over `m_next_entity` and `m_component_managers`, which `game_scene.hxx:135-140` does not declare (it has `m_last_entity`, and the storages come from `component_manager`). The model uses one counter and the registry's entity-store map.
- `src/game_engine.cxx:388` calls `window.close(false)`, but `game_window.hxx:33` declares `close()` with no parameter. The GLFW window (`glfw_game_window.hxx:91`) takes `close(bool should_close)`. The model records `Close(false)` there and reads the plain `close()` at `src/game_engine.cxx:236` as `Close(true)`.
- `src/ecs_manager.cxx:41` calls `process_tick(scene, time_step)`, but `game_system_base` (`game_system.hxx:110`) only declares `tick(ecs_manager&, double)`. The model calls `tick`.

## Findings

| source | as written | input that shows it | evidently intended | confidence | as-written member | corrected member |
|---|---|---|---|---|---|---|
| include/mope_game_engine/iterable_box.hxx:73 | `t == that.t ? 0 : t == nullptr ? -1 : 1` gives `end() - begin()` = -1 for a non-empty box, so the size the sized-range interface derives is -1 | a box over a non-null pointer: `end() - begin()` | the distance `end() - begin()` is 1 (null minus non-null is +1), so the size is 1 | not executed | IterableBox.DifferenceAsWrittenHasWrongSign | IterableBox.Difference |
| include/mope_game_engine/ecs_manager.hxx:128-129 | after the swap, `m_index_map[m_data.back().en] = iter->second` repoints the removed entity, which now sits at the back. The moved entity keeps its old index, one past the new end | rows [1, 2] indexed {1↦0, 2↦1}; `remove(1)` leaves {2↦1} over one row | repoint the entity moved into the freed slot, as `component_manager.hxx:133` does | not executed | LegacyEcs.RemoveAsWrittenBreaksIndexing | ComponentStorage.EntityStorage.Remove |
