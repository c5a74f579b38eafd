# A verified model of pibaf's reference-counted slot table

pibaf shares native Vulkan instances through lightweight handles. The handles sit on a
fixed-capacity, reference-counted slot table, `UnsafeArcArray<N, T>` in `src/arc_array.rs`.
`src/vk/instance.rs` has a private copy of that table, `ArcArray<N, T>`.

- Each of the N slots has a reference count and storage for at most one `T`.
- A count of 0 means the slot is free. A positive count means a live `T` is stored there.
- `acquire_and_init` claims the first free slot and stores the initializer's value there.
- `inc_count` adds a reference to a slot.
- `dec_count` removes a reference. It drops the stored value when the count goes from 1 to 0.
- `get_ref` reads a live slot.

In `src/vk/instance.rs`, the `Instance` handle uses the static table `RAW_INSTANCES`, whose
capacity is `MAX_INSTANCES = 1`. `from_raw` acquires a slot, `clone` increments its count,
and dropping a handle decrements it.

The model has four files:

- `wrappers.dfy`: `Option` and `Result`.
- `arc_array_spec.dfy` (module `ArcArraySpec`): the table as a value. A `Table` holds the
  counts, the storage cells and a log of `Constructed`/`Destroyed` events. The log records
  each value the table stores and each value it drops, which stands for the drop's
  observable effect. Operations: `New`, `FirstFree`, `Acquire`, `Inc`, `Dec`.
  - `Valid` is the table invariant: every count fits in a u64, a slot holds a value exactly
    when its count is positive, and that value is the one the log says lives there.
  - The lemmas cover the invariant, round trips, slot reuse and exactly-once destruction.
- `arc_array.dfy` (module `ArcArray`): the class `UnsafeArcArray<T>`, which updates two
  arrays in place: `refCounts` (`ref_counts`) and `items`. Each method is proved to perform
  the matching `ArcArraySpec` operation on the table's state. The two tests of
  `src/arc_array.rs`, `basic` and `fill_capacity`, are client methods.
- `instance.dfy` (module `VkInstance`): the handle protocol.
  - A `Registry` pairs `RAW_INSTANCES` with the multiset of ids of live handles.
  - Its invariant `Consistent` says each slot's count equals the number of live handles
    with that id.
  - `FromRawStep`, `CloneStep` and `DropStep` give the meaning of `from_raw`, `clone` and
    `Drop`.
  - The class `Instances` is the static table and its live handles. Its methods are proved
    against those step functions.

The private `ArcArray` in `src/vk/instance.rs` makes the same sequential updates as
`UnsafeArcArray`, so one model serves both copies:

- The two copies use different orderings on the claiming compare-and-swap (`Acquire` in one,
  `AcqRel` in the other). Ordering has no sequential meaning.
- The private copy drops a value by swapping `MaybeUninit::uninit()` into the cell and
  dropping what it took out. `UnsafeArcArray` calls `assume_init_drop`. Both leave the slot
  empty with the value dropped.

The spec functions cite the private copy's lines. The class methods cite `src/arc_array.rs`.

## Model

| member | source | states |
|---|---|---|
| `ArcArraySpec.New` | src/vk/instance.rs:74-79 | a new table of n slots satisfies the invariant, has every count 0 and an empty log |
| `ArcArraySpec.FirstFree` | src/arc_array.rs:20-31 | the result is the lowest index at or after `from` whose count is 0; None exactly when every count from there on is nonzero |
| `ArcArraySpec.Acquire` | src/vk/instance.rs:22-36 | returns None exactly when every count is nonzero, and then the table is unchanged; otherwise returns the lowest free index, sets its count to 1, stores the value there, logs its construction, changes no other slot and keeps the invariant |
| `ArcArraySpec.Inc` | src/vk/instance.rs:69-72 | adds 1 to the slot's count and wraps from the largest u64 to 0; other counts, the stored values and the log are unchanged |
| `ArcArraySpec.Dec` | src/vk/instance.rs:45-67 | on a live slot, lowers the count by exactly 1 and changes no other slot; if the count was 1, the value is dropped (logged) and the slot is empty, otherwise the value stays and nothing is logged; keeps the invariant |
| `ArcArraySpec.IncKeepsValid` | src/arc_array.rs:60-63 | an increment keeps the invariant if and only if the slot is live and its count is below the u64 maximum; on a free slot, or at the maximum, it breaks the invariant |
| `ArcArraySpec.IncThenDec` | src/arc_array.rs:42-63 | an increment followed by the matching decrement restores the table exactly |
| `ArcArraySpec.AcquireThenDec` | src/arc_array.rs:111-123 | acquiring a value and then decrementing its slot once restores the counts and contents, and the value is constructed once and dropped once |
| `ArcArraySpec.ReuseAfterRelease` | src/arc_array.rs:51-57 | after the decrement that frees a slot, acquisition succeeds again, and returns that slot when no lower slot is free |
| `ArcArraySpec.BalancedLog` | src/arc_array.rs:42-57 | in every slot, constructions and drops alternate: the constructions equal the drops plus one if a value is live |
| `ArcArraySpec.AllReleasedAllDropped` | src/arc_array.rs:42-44 | once every count is 0, every value the table constructed has been dropped exactly once |
| `ArcArray.UnsafeArcArray.constructor` | src/arc_array.rs:65-70 | the arrays are fresh and the state is `New(n)`: every slot free |
| `ArcArray.UnsafeArcArray.AcquireAndInit` | src/arc_array.rs:19-33 | the in-place scan keeps the invariant; its result and new state are exactly `Acquire` of the old state with `init()` |
| `ArcArray.UnsafeArcArray.GetRef` | src/arc_array.rs:35-40 | on a live slot, returns the value the log says is live there: constructed and not yet dropped |
| `ArcArray.UnsafeArcArray.IncCount` | src/arc_array.rs:60-63 | modifies only the counts array; the new state is `Inc` of the old one, and the invariant holds |
| `ArcArray.UnsafeArcArray.DecCount` | src/arc_array.rs:42-58 | the new state is `Dec` of the old one, and the invariant holds |
| `ArcArray.Basic` | src/arc_array.rs:111-123 | in an 11-slot table, the value is acquired into slot 0 and read back unchanged; no drop is logged before the `dec_count`, and exactly its drop is logged after it |
| `ArcArray.FillCapacity` | src/arc_array.rs:125-137 | in a 3-slot table, three acquisitions return slots 0, 1 and 2, and the fourth returns None |
| `VkInstance.FromRawStep` | src/vk/instance.rs:131-141 | with one slot, `from_raw` fails exactly when some handle is alive and then changes nothing; otherwise it returns handle 0, stores the raw instance and logs its construction; the protocol invariant holds |
| `VkInstance.CloneStep` | src/vk/instance.rs:144-149 | returns a handle with the same id; the slot's count goes up by 1 together with the live-handle count, and nothing is stored or dropped |
| `VkInstance.DropStep` | src/vk/instance.rs:114-121 | removes one live handle and lowers its slot's count by 1; the raw instance is destroyed by this drop if and only if it was the last handle |
| `VkInstance.CloneThenDrop` | src/vk/instance.rs:114-149 | dropping a clone restores the registry and the live handles exactly |
| `VkInstance.NoHandlesAllDestroyed` | src/vk/instance.rs:88-97 | once no handle is alive, every raw instance ever stored has been destroyed exactly once |
| `VkInstance.Instances.constructor` | src/vk/instance.rs:106-107 | `RAW_INSTANCES` starts with its one slot free and no handles |
| `VkInstance.Instances.FromRaw` | src/vk/instance.rs:135-141 | the in-place registration performs exactly `FromRawStep` and keeps the protocol invariant |
| `VkInstance.Instances.Clone` | src/vk/instance.rs:144-149 | performs exactly `CloneStep` with one `inc_count`, changing only the counts and the handle set |
| `VkInstance.Instances.Drop` | src/vk/instance.rs:114-121 | performs exactly `DropStep` with one `dec_count` |
| `VkInstance.Instances.GetRawRef` | src/vk/instance.rs:126-129 | a live handle always reads the raw instance constructed in its slot and not yet destroyed |

## Left out

- Atomics, memory orderings, `fence(Ordering::Acquire)` and the `Sync` impls. The model is sequential: each atomic is a plain update. Races between threads, such as two threads competing for the last slot, are not modelled.
- `UnsafeCell` and `MaybeUninit`. A storage cell is an `Option<T>`, and the drop of a stored value is a `Destroyed` event in the log.
- `RawInstance::drop` calls `ash::Instance::destroy_instance`, a foreign Vulkan call. The model records it only as the `Destroyed` event. The native handle is an opaque number.
- `ArcArray.UnsafeArcArray.IncCount`: requires a live slot whose count is below the u64 maximum. The source's `inc_count` is a safe function: on a free slot it makes the count 1 with nothing stored, and at the maximum its `fetch_add` wraps to 0. `ArcArraySpec.Inc` models both cases, and `IncKeepsValid` shows that both break the invariant.
- `VkInstance.Instances.Clone` and `VkInstance.CloneStep`: require fewer than 2^64 − 1 live handles on the slot, for the same reason.
- An out-of-range index is a precondition everywhere. In the source it panics: through `assert!` in `dec_count` and through bounds checks in `inc_count` and `get_ref`.
- A `dec_count` on a zero count is a precondition. In the source it fails a `debug_assert!` in debug builds and wraps the count in release builds.
- `get_ref` on a free slot is undefined behaviour in the source, so it is a precondition.
- The panic of `from_raw` on a full table is the `Failure(NoFreeSpace)` result.
- When the table is full, the closure given to `acquire_and_init` is dropped without being called. The model does not follow what dropping that closure does to the values it captured.
- `Instance` handles are values. Rust's move semantics make each handle drop exactly once. The model requires a live handle with the same id instead. The live-handle multiset does not tell apart handles that share an id.
- The `basic` test writes `6` to the external cell through `get_ref`. That interior mutability through `Rc<Cell<i64>>` is not modelled; the drop's effect on the cell is the log entry.
- The `Default` impls only call `new()`. `Deref for RawInstance` only exposes the wrapped handle.
- `src/vk/physical_device.rs`, `src/main.rs`, `src/vk/entry.rs`, `src/vk.rs`, `src/vk/validation_layer.rs` and `src/vk/extension.rs` are not part of this model. They are query wrappers, set-up glue, library loading and stubs over the foreign API.
