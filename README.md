# Slab allocator pool engine

A Dafny model of the pool engine `mxtl::internal::SlabAllocator<SATraits>`
from `system/ulib/mxtl/include/mxtl/slab_allocator.h`, and of the two
public façades built on it.

The engine hands out fixed-size units of object storage. It carves them from
slabs of `SLAB_SIZE` bytes, and it keeps:

- a list of slabs, newest first; the front slab is the *active* slab;
- a LIFO free list of units that were given back;
- a quota `max_slabs_`, fixed at construction;
- the number of slabs acquired, `slab_count_`;
- in debug builds, the length of the free list, `free_list_size_`.

An allocation tries three steps in order:

1. pop the free-list head;
2. else bump-allocate the next unit of the active slab;
3. else, if under quota and the memory is obtained, push a new slab and take
   its first unit.

If all three fail, it fails. Releasing a unit pushes it onto the free-list
head. The destructor frees every slab and checks, in debug builds, that every
unit ever carved is back on the free list.

The project has five files:

- `wrappers.dfy` (module `Wrappers`): `Option`, and `Elems`, the set of the values an `Option` holds.
- `slab_geometry.dfy` (module `SlabGeometry`): the slab layout.
  - `SlabAllocationCount`: the number of units per slab.
  - `Accepted`: the two `static_assert`s.
  - `AllocsPerSlab`.
- `slab_model.dfy` (module `SlabModel`): the engine's state as a value.
  - `PoolState` is that value.
  - Each unit has an identity `Unit(slab, slot)`: the ordinal of the slab it came from, and its slot in that slab.
  - A ghost set `live` holds the units handed out and not yet returned.
  - `Allocate`, `Release` and `Construct` are functions on this value.
  - The invariant `Inv` preserved by them is the conservation invariant: every carved unit is either live or on the free list, never both.
  - Lemmas prove what the header's documentation promises (`slab_allocator.h:49-68`) and what its code does.
- `slab_engine.dfy` (module `SlabEngine`): the real objects, updated in place.
  - These are the classes `Slab`, `SlabAllocator` and `SlabAllocated`.
  - The constructor, `Allocate` with its steps `PopFreeList`, `AllocateFromActive` and `AcquireSlab`, `ReturnToFreeList`, `New` and `Destroy` are proved against `SlabModel` through `SlabAllocator.State()`.
  - `Slab.Allocate`, `TakeFromActive`, `PushSlab` and `SetOrigin` are specified on the fields they change.
- `slab_facade.dfy` (module `SlabFacade`): the two façades and some clients.
  - The façades: the instanced `operator delete`, and the static allocator with its `operator delete`.
  - The clients: two engines with independent quotas, a delete followed by `New` reusing the same storage, and the header's usage example, which builds a slab's worth of objects and deletes them all.

Aligned slab memory is obtained by a call outside the engine. That call's
outcome becomes a `memOk: bool` parameter of `Allocate`, `New` and the
constructor.

## Model

All source paths are `system/ulib/mxtl/include/mxtl/slab_allocator.h`.

| member | source | states |
|---|---|---|
| SlabGeometry.SlabAllocationCount | system/ulib/mxtl/include/mxtl/slab_allocator.h:406-408 | the unit count is the largest n with n units fitting in the slab after the header: n*unitSize <= slabSize - overhead < (n+1)*unitSize |
| SlabGeometry.AllocsPerSlab | system/ulib/mxtl/include/mxtl/slab_allocator.h:474 | for an allocator type that passes both static_asserts, AllocsPerSlab is positive and is the largest count of units that fits beside the header |
| SlabGeometry.Accepted | system/ulib/mxtl/include/mxtl/slab_allocator.h:410-412 | (no ensures) the two static_asserts: the unit size is positive, the header is smaller than the slab, and at least one unit fits after it |
| SlabGeometry.AcceptedIffOneUnitFits | system/ulib/mxtl/include/mxtl/slab_allocator.h:98-102 | a type passes the static_asserts exactly when the header plus one unit fits in a slab |
| SlabEngine.Slab.constructor | system/ulib/mxtl/include/mxtl/slab_allocator.h:402 | a new slab keeps its ordinal and starts with alloc_count 0 |
| SlabModel.SlabAllocate | system/ulib/mxtl/include/mxtl/slab_allocator.h:477-481 | (no ensures) a full slab (count >= capacity) returns nothing and keeps its count; otherwise it returns unit (ordinal, count) and the count becomes count + 1 |
| SlabEngine.Slab.Allocate | system/ulib/mxtl/include/mxtl/slab_allocator.h:477-481 | the new alloc_count and the result are SlabAllocate of the old alloc_count: nothing and no change once alloc_count >= capacity, else unit alloc_count and alloc_count + 1 |
| SlabModel.SlabAllocateCarvesOne | system/ulib/mxtl/include/mxtl/slab_allocator.h:477-481 | a unit is returned iff count < capacity; the count then rises by exactly one and never passes the capacity; the returned unit is new to the slab |
| SlabModel.Allocate | system/ulib/mxtl/include/mxtl/slab_allocator.h:414-446 | (no ensures) pop the free-list head, lowering free_list_size_, and make it live; else bump the front slab if it has room; else, under quota and with memory obtained, push a slab with ordinal slab_count_ and take its slot 0; else return (p, None) |
| SlabEngine.SlabAllocator.Allocate | system/ulib/mxtl/include/mxtl/slab_allocator.h:414-446 | the new engine state and the result are exactly SlabModel.Allocate of the old state; the engine stays valid and any new slab is fresh |
| SlabEngine.SlabAllocator.PopFreeList | system/ulib/mxtl/include/mxtl/slab_allocator.h:417-421 | with a non-empty free list, the step's state and result are those of SlabModel.Allocate; no slab is touched |
| SlabEngine.SlabAllocator.AllocateFromActive | system/ulib/mxtl/include/mxtl/slab_allocator.h:423-429 | with an empty free list, a unit from the active slab gives SlabModel.Allocate's state and result; no unit means the state is unchanged and the active slab holds AllocsPerSlab units |
| SlabEngine.SlabAllocator.TakeFromActive | system/ulib/mxtl/include/mxtl/slab_allocator.h:423-427 | the active slab's Slab::Allocate: its alloc_count and the result follow SlabAllocate, the other slabs' counts, the free list, slab_count_ and free_list_size_ are untouched, and the live set gains exactly the returned unit |
| SlabEngine.SlabAllocator.AcquireSlab | system/ulib/mxtl/include/mxtl/slab_allocator.h:431-442 | with an empty free list, a full or missing active slab and the quota not reached, the new state and result are SlabModel.Allocate's with memory obtained |
| SlabEngine.SlabAllocator.PushSlab | system/ulib/mxtl/include/mxtl/slab_allocator.h:435-440 | a fresh slab with its first unit taken goes at the front; slab_count_ rises by one, earlier slabs and the free list are untouched, and the result is unit 0 of the new slab |
| SlabModel.AllocateFromFreeList | system/ulib/mxtl/include/mxtl/slab_allocator.h:417-421 | with a non-empty free list, Allocate returns its head, removes it and lowers free_list_size_ by one; the slab counts and slab_count_ stay the same |
| SlabModel.AllocateAcquiresSlab | system/ulib/mxtl/include/mxtl/slab_allocator.h:423-442 | slab_count_ changes iff the free list is empty, the active slab is full or absent, the quota is not reached and memory is obtained; the new slab, with count 1, is then the front, and the result is its slot 0; slab_count_ <= max_slabs_ |
| SlabModel.AllocateFailsIff | system/ulib/mxtl/include/mxtl/slab_allocator.h:432-446 | Allocate fails iff the free list is empty, the active slab is full or absent, and either the quota is reached or memory is not obtained; a failed Allocate changes nothing |
| SlabModel.ExhaustedIffAllLive | system/ulib/mxtl/include/mxtl/slab_allocator.h:49-57 | when memory is always obtained, Allocate fails iff exactly max_slabs * AllocsPerSlab units are live |
| SlabModel.LiveBound | system/ulib/mxtl/include/mxtl/slab_allocator.h:431-446 | live plus free units are at most slab_count_ * AllocsPerSlab, so at most max_slabs * AllocsPerSlab units are ever live |
| SlabModel.AllocateBelowCapacity | system/ulib/mxtl/include/mxtl/slab_allocator.h:49-57 | below max_slabs * AllocsPerSlab live units, with memory obtained, Allocate succeeds and adds one live unit |
| SlabModel.AllocateIssuesFreshUnit | system/ulib/mxtl/include/mxtl/slab_allocator.h:414-446 | a unit returned by Allocate was not live before, and it is the only unit that becomes live |
| SlabModel.AllocatePreservesInv | system/ulib/mxtl/include/mxtl/slab_allocator.h:414-446 | Allocate keeps the pool invariant, including conservation, no duplicate on the free list, and only the front slab partly used; it never changes the quota |
| SlabModel.PopKeepsInv | system/ulib/mxtl/include/mxtl/slab_allocator.h:417-421 | popping the free-list head into the live set keeps the invariant |
| SlabModel.BumpKeepsInv | system/ulib/mxtl/include/mxtl/slab_allocator.h:423-429 | bumping a partly used active slab keeps the invariant |
| SlabModel.AcquireKeepsInv | system/ulib/mxtl/include/mxtl/slab_allocator.h:431-442 | pushing a new slab with one unit taken, when no free unit exists and the list is full, keeps the invariant |
| SlabModel.AllocateFromAvailable | system/ulib/mxtl/include/mxtl/slab_allocator.h:417-429 | with a free unit or room in the active slab, Allocate succeeds without acquiring a slab and uses up exactly one available unit |
| SlabModel.RunWithinAvailable | system/ulib/mxtl/include/mxtl/slab_allocator.h:59-60 | up to that many allocations in a row all succeed, whatever the memory outcomes, with slab_count_ unchanged; the available units drop by the run length |
| SlabModel.RunWithinCapacity | system/ulib/mxtl/include/mxtl/slab_allocator.h:49-57 | a run of allocations that stays within max_slabs * AllocsPerSlab live units succeeds throughout when memory is always obtained |
| SlabModel.PrewarmedSingleSlab | system/ulib/mxtl/include/mxtl/slab_allocator.h:64-68 | with quota 1, a pre-allocated engine serves AllocsPerSlab allocations without acquiring memory, and whatever the outcome, the next allocation fails |
| SlabModel.Release | system/ulib/mxtl/include/mxtl/slab_allocator.h:448-455 | (no ensures) a live unit goes to the free-list head, free_list_size_ rises by one, and the unit leaves the live set |
| SlabEngine.SlabAllocator.ReturnToFreeList | system/ulib/mxtl/include/mxtl/slab_allocator.h:448-455 | the new state is Release of the old: the unit goes to the free-list head, free_list_size_ rises by one, and the slab list is untouched |
| SlabModel.ReleasePreservesInv | system/ulib/mxtl/include/mxtl/slab_allocator.h:448-455 | releasing a live unit keeps the invariant and leaves the slab counts and slab_count_ unchanged |
| SlabModel.ReleaseThenAllocate | system/ulib/mxtl/include/mxtl/slab_allocator.h:417-421 | an Allocate right after releasing u returns u and restores the state as before the release (LIFO reuse) |
| SlabModel.AllocateThenRelease | system/ulib/mxtl/include/mxtl/slab_allocator.h:448-455 | a unit Allocate returns is live; releasing it keeps the invariant and restores the previous live set |
| SlabModel.Construct | system/ulib/mxtl/include/mxtl/slab_allocator.h:326-338 | (no ensures) the empty pool with the given quota; with alloc_initial, one Allocate on it whose unit, if any, is released straight back |
| SlabEngine.SlabAllocator.constructor | system/ulib/mxtl/include/mxtl/slab_allocator.h:326-338 | the engine starts valid with the given quota, in state Construct: empty, then one allocate whose unit, if any, goes straight back to the free list |
| SlabModel.ConstructShape | system/ulib/mxtl/include/mxtl/slab_allocator.h:326-338 | after construction no unit is live; a successful pre-allocation leaves one slab with alloc_count 1 and a free list of its first unit, and otherwise there are no slabs and an empty free list |
| SlabEngine.SlabAllocator.MaxSlabs | system/ulib/mxtl/include/mxtl/slab_allocator.h:376 | returns the quota fixed at construction; for a valid engine it bounds slab_count_, and it bounds the live units when multiplied by AllocsPerSlab |
| SlabModel.Conservation | system/ulib/mxtl/include/mxtl/slab_allocator.h:340-354 | the sum of alloc_count over all slabs equals the live units plus the free-list length, and it also equals live units plus free_list_size_ |
| SlabModel.TeardownDetectsLeak | system/ulib/mxtl/include/mxtl/slab_allocator.h:352-354 | free_list_size_ equals the summed alloc_count iff no unit is live |
| SlabEngine.SlabAllocator.Destroy | system/ulib/mxtl/include/mxtl/slab_allocator.h:340-359 | the loop sums alloc_count over all slabs; the debug check holds iff no unit is live; the slab list and the free list are empty afterwards, while slab_count_, free_list_size_ and the live set are unchanged |
| SlabEngine.SetOrigin | system/ulib/mxtl/include/mxtl/slab_allocator.h:295-310 | an instanced allocator records itself as the object's origin; a static one leaves the origin unchanged |
| SlabEngine.SlabAllocated.constructor | system/ulib/mxtl/include/mxtl/slab_allocator.h:580 | the object is built on the given unit with a null slab origin and no building engine |
| SlabEngine.SlabAllocator.New | system/ulib/mxtl/include/mxtl/slab_allocator.h:361-374 | the state follows SlabModel.Allocate; the result is null iff Allocate fails; otherwise the object is new, outside the engine (so later allocations leave it alone), built on the unit Allocate returned, with origin this engine (instanced) or null (static), and records this engine as the one that built it |
| SlabFacade.InstancedDelete | system/ulib/mxtl/include/mxtl/slab_allocator.h:565-576 | only an object that its origin engine built and that was not deleted yet can be deleted; its storage is released to that engine, whose new state is Release of the old, and the object is marked deleted |
| SlabFacade.StaticSlabAllocator.constructor | system/ulib/mxtl/include/mxtl/slab_allocator.h:633 | the singleton engine of a static allocator type starts valid, in state Construct of its arguments |
| SlabFacade.StaticSlabAllocator.New | system/ulib/mxtl/include/mxtl/slab_allocator.h:619-622 | forwards to the singleton: the state follows SlabModel.Allocate; null iff it fails; otherwise the object is new, outside the singleton, built on that unit with no origin, and records the singleton as the engine that built it |
| SlabFacade.StaticSlabAllocator.MaxSlabs | system/ulib/mxtl/include/mxtl/slab_allocator.h:628 | the singleton's quota, which bounds its slab count and its live units |
| SlabFacade.StaticSlabAllocator.ReturnToFreeList | system/ulib/mxtl/include/mxtl/slab_allocator.h:632 | forwards to the singleton: its new state is Release of the old |
| SlabFacade.StaticDelete | system/ulib/mxtl/include/mxtl/slab_allocator.h:646-649 | only an object the singleton built and that was not deleted yet can be deleted; its storage is released to the singleton, whose new state is Release of the old; the origin is untouched and the object is marked deleted |
| SlabFacade.AllocateUntilRefused | system/ulib/mxtl/include/mxtl/slab_allocator.h:49-57 | with memory always obtained, allocating until refused leaves exactly max_slabs * AllocsPerSlab units live |
| SlabFacade.IndependentQuotas | system/ulib/mxtl/include/mxtl/slab_allocator.h:26-28 | two instanced engines with quota 1: the first serves exactly AllocsPerSlab units and its next Allocate is refused; the second still serves a unit |
| SlabFacade.InstancedReuse | system/ulib/mxtl/include/mxtl/slab_allocator.h:565-576 | after New then delete on an instanced allocator, the next New, even without memory, returns the same storage with this engine as origin |
| SlabFacade.StaticReuse | system/ulib/mxtl/include/mxtl/slab_allocator.h:646-649 | after New then delete on a static allocator, the next New, even without memory, returns the same storage with no origin |
| SlabFacade.NewObjects | system/ulib/mxtl/include/mxtl/slab_allocator.h:185-192 | n News on an empty engine with room for n all succeed; the list then holds exactly the live objects, each built by this engine, with origin this engine and distinct units |
| SlabFacade.DeleteObjects | system/ulib/mxtl/include/mxtl/slab_allocator.h:197-199 | deleting, front first, every object of a list that holds exactly the live objects leaves no unit live |
| SlabFacade.SlabOfObjects | system/ulib/mxtl/include/mxtl/slab_allocator.h:181-200 | with quota 1 and a pre-allocated slab, AllocsPerSlab News all succeed, and after deleting them all the destructor's leak check holds |

## Left out

- Locking (`AutoLock`, the allocator `LockType`): each operation is modelled as atomic and single-threaded. The note that memory acquisition runs under the lock does not apply.
- `aligned_alloc`, `free`, placement `new` and the byte layout of a slab (`offsetof`, `__ALIGNED`, `Allocation`) are memory calls and layout.
  - The allocation's outcome is the `memOk` parameter.
  - A unit is an abstract `Unit(slab, slot)` identity.
  - A slab's header size and unit size are `Traits` fields instead of being computed from `sizeof`/`alignof`.
- The pointer-flavour adapters (`unique_ptr`, `RefPtr`, `AdoptRef`) are left out, and `New` returns the object itself.
- Deletion once per object: each object carries a ghost `home`, the engine whose `New` built it, which a delete clears. The delete methods require it. So an object is deleted at most once, and only into the engine that built it. This holds for the static flavour too, where the source enforces it by having one `allocator_` per object type.
- SlabEngine.SlabAllocator.ReturnToFreeList: the engine does not record which object holds which unit. A direct call, which the source reserves for the façades, can release a unit that a live object still holds.
- The object constructor arguments of `New`: the object payload is not modelled, only its storage and origin.
- The `DECLARE_STATIC_SLAB_ALLOCATOR_STORAGE` macro is linkage plumbing. The singleton is an object built by `StaticSlabAllocator`'s constructor.
- The static façade's `Delete`, which forwards to an `allocator_.Delete` the engine does not declare.
- SlabEngine.SlabAllocator.Destroy: `free_list_size_` exists only in debug builds. The model keeps it as an always-present field, so the debug check can be stated. The slabs' memory being freed is not modelled, only their removal from the list.
- The instanced façade's own constructor and destructor, which only forward to the engine's.
- The rest of the repository is not part of this model.
