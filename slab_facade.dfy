/** The two public façades over the pool engine: the instanced allocator,
    whose objects remember the engine they came from, and the static
    allocator, whose objects all go back to one singleton engine; plus
    clients showing that distinct instanced engines keep distinct pools. */
module SlabFacade {
  import opened Wrappers
  import opened SlabModel
  import opened SlabEngine
  import SlabGeometry

  /** Instanced SlabAllocated::operator delete: the object's storage goes back
      onto the free list of the engine recorded as its slab origin. The object
      must be one that engine's New built and that was not deleted yet. */
  method InstancedDelete(obj: SlabAllocated)
    requires obj.slabOrigin != null && obj.slabOrigin.Valid()
    requires obj.home == obj.slabOrigin && obj !in obj.slabOrigin.Repr
    requires obj.storage in obj.slabOrigin.live
    modifies obj.slabOrigin, obj
    ensures obj.slabOrigin == old(obj.slabOrigin) && obj.home == null
    ensures obj.slabOrigin.Valid() && obj.slabOrigin.Repr == old(obj.slabOrigin.Repr)
    ensures obj.slabOrigin.State() == Release(old(obj.slabOrigin.State()), obj.storage)
  {
    var origin := obj.slabOrigin;
    origin.ReturnToFreeList(obj.storage);
    obj.home := null;
  }

  /** The static SlabAllocator: a façade with no state of its own over one
      engine shared by every object of its type (the `allocator_` member). */
  class StaticSlabAllocator {
    const allocator: SlabAllocator

    ghost predicate Valid()
      reads this, allocator, allocator.Repr
    {
      allocator.Valid() && allocator.traits.isStatic
    }

    /** The definition of the singleton engine, with its constructor
        arguments. */
    constructor (maxSlabs: nat, allocInitial: bool, traits: SlabGeometry.Traits, memOk: bool)
      requires SlabGeometry.Accepted(traits) && traits.isStatic
      ensures Valid() && fresh(allocator) && fresh(allocator.Repr)
      ensures allocator.State()
        == Construct(SlabGeometry.AllocsPerSlab(traits), maxSlabs, allocInitial, memOk)
    {
      allocator := new SlabAllocator(maxSlabs, allocInitial, traits, memOk);
    }

    /** New(args...): forwarded to the singleton engine; the object records
        no origin. */
    method New(memOk: bool) returns (obj: SlabAllocated?)
      requires Valid()
      modifies allocator.Repr
      ensures Valid() && fresh(allocator.Repr - old(allocator.Repr))
      ensures allocator.State() == SlabModel.Allocate(old(allocator.State()), memOk).0
      ensures obj == null <==> SlabModel.Allocate(old(allocator.State()), memOk).1.None?
      ensures obj != null ==>
        && fresh(obj) && obj !in allocator.Repr
        && SlabModel.Allocate(old(allocator.State()), memOk).1 == Some(obj.storage)
        && obj.slabOrigin == null && obj.home == allocator
    {
      obj := allocator.New(memOk);
    }

    /** max_slabs(): the quota of the singleton engine. */
    function MaxSlabs(): (n: nat)
      reads this, allocator, allocator.Repr
      ensures n == allocator.maxSlabs
      ensures Valid() ==> allocator.slabCount <= n && |allocator.live| <= n * allocator.perSlab
    {
      allocator.MaxSlabs()
    }

    /** ReturnToFreeList(ptr): forwarded to the singleton engine. */
    method ReturnToFreeList(u: Unit)
      requires Valid() && u in allocator.live
      modifies allocator
      ensures Valid() && allocator.Repr == old(allocator.Repr)
      ensures allocator.State() == Release(old(allocator.State()), u)
    {
      allocator.ReturnToFreeList(u);
    }
  }

  /** Static SlabAllocated::operator delete: the storage goes back to the
      singleton engine of the object's allocator type, which is the engine
      whose New built it; the object's origin is not consulted. */
  method StaticDelete(owner: StaticSlabAllocator, obj: SlabAllocated)
    requires owner.Valid() && obj.home == owner.allocator && obj !in owner.allocator.Repr
    requires obj.storage in owner.allocator.live
    modifies owner.allocator, obj
    ensures obj.slabOrigin == old(obj.slabOrigin) && obj.home == null
    ensures owner.Valid() && owner.allocator.Repr == old(owner.allocator.Repr)
    ensures owner.allocator.State() == Release(old(owner.allocator.State()), obj.storage)
  {
    owner.ReturnToFreeList(obj.storage);
    obj.home := null;
  }

  /** Allocate from an engine, with every slab acquisition succeeding, until
      it refuses; by then every unit its quota allows is live. */
  method AllocateUntilRefused(e: SlabAllocator) returns (served: nat)
    requires e.Valid()
    modifies e.Repr
    ensures e.Valid() && fresh(e.Repr - old(e.Repr))
    ensures |e.live| == old(|e.live|) + served == Capacity(e.State())
  {
    served := 0;
    var refused := false;
    LiveBound(e.State());
    while !refused
      invariant e.Valid() && fresh(e.Repr - old(e.Repr))
      invariant |e.live| == old(|e.live|) + served <= Capacity(e.State())
      invariant refused ==> |e.live| == Capacity(e.State())
      decreases Capacity(e.State()) - |e.live|, !refused
    {
      ghost var p := e.State();
      ExhaustedIffAllLive(p);
      AllocateIssuesFreshUnit(p, true);
      var mem := e.Allocate(true);
      LiveBound(e.State());
      if mem.None? {
        refused := true;
      } else {
        served := served + 1;
      }
    }
  }

  /** Two instanced engines with a quota of one slab each: the first serves
      exactly the units of one slab and then refuses, while the second,
      untouched by that, still serves one. */
  method IndependentQuotas(traits: SlabGeometry.Traits)
    returns (firstServed: nat, firstRefused: bool, secondServed: bool)
    requires SlabGeometry.Accepted(traits) && !traits.isStatic
    ensures firstServed == SlabGeometry.AllocsPerSlab(traits) && firstRefused && secondServed
  {
    var a := new SlabAllocator(1, false, traits, true);
    var b := new SlabAllocator(1, false, traits, true);
    ghost var bState := b.State();
    firstServed := AllocateUntilRefused(a);
    ExhaustedIffAllLive(a.State());
    var refused := a.Allocate(true);
    firstRefused := refused.None?;
    assert b.State() == bState && b.Valid();
    AllocateBelowCapacity(b.State());
    var mem := b.Allocate(true);
    secondServed := mem.Some?;
  }

  /** An object created by an instanced allocator and then deleted hands its
      storage straight back: the next New reuses it without new memory. */
  method InstancedReuse(traits: SlabGeometry.Traits) returns (reused: bool)
    requires SlabGeometry.Accepted(traits) && !traits.isStatic
    ensures reused
  {
    var e := new SlabAllocator(1, false, traits, true);
    AllocateBelowCapacity(e.State());
    var obj := e.New(true);
    ghost var before := e.State();
    InstancedDelete(obj);
    ReleaseThenAllocate(before, obj.storage, false);
    var again := e.New(false);
    reused := again != null && again.storage == obj.storage && again.slabOrigin == e;
  }

  /** The same round trip through the static façade: the object records no
      origin, and its storage still comes back from the singleton. */
  method StaticReuse(traits: SlabGeometry.Traits) returns (reused: bool)
    requires SlabGeometry.Accepted(traits) && traits.isStatic
    ensures reused
  {
    var s := new StaticSlabAllocator(1, false, traits, true);
    AllocateBelowCapacity(s.allocator.State());
    var obj := s.New(true);
    ghost var before := s.allocator.State();
    StaticDelete(s, obj);
    ReleaseThenAllocate(before, obj.storage, false);
    var again := s.New(false);
    reused := again != null && again.storage == obj.storage && again.slabOrigin == null;
  }

  /** `obj` was built by the instanced engine `e`, is not deleted yet and
      lies outside it. */
  ghost predicate Handle(e: SlabAllocator, obj: SlabAllocated)
    reads obj, e
  {
    obj.home == e && obj.slabOrigin == e && obj !in e.Repr
  }

  /** The units the objects of a list are built in, in list order. */
  function Storages(list: seq<SlabAllocated>): (us: seq<Unit>)
    ensures |us| == |list| && forall i :: 0 <= i < |list| ==> us[i] == list[i].storage
  {
    if list == [] then [] else [list[0].storage] + Storages(list[1..])
  }

  /** The objects of `list` are exactly the live objects of `e`: each holds
      a live unit, no two share one, and every live unit is held. */
  ghost predicate HoldsLive(e: SlabAllocator, list: seq<SlabAllocated>)
    reads e, list
  {
    && (forall i :: 0 <= i < |list| ==> Handle(e, list[i]))
    && NoDuplicates(Storages(list)) && Elements(Storages(list)) == e.live
  }

  /** Pushing an object whose unit no object of the list holds keeps the units
      distinct and adds that unit to the held set. */
  lemma PushStorage(obj: SlabAllocated, list: seq<SlabAllocated>)
    requires NoDuplicates(Storages(list)) && obj.storage !in Elements(Storages(list))
    ensures NoDuplicates(Storages([obj] + list))
    ensures Elements(Storages([obj] + list)) == {obj.storage} + Elements(Storages(list))
  {
    var us := Storages(list);
    assert Storages([obj] + list) == [obj.storage] + us;
  }

  /** New while the engine has room: it succeeds, the object holds a unit
      that was not live before, and the objects already held stay held. */
  method NewHeld(e: SlabAllocator, list: seq<SlabAllocated>) returns (obj: SlabAllocated)
    requires e.Valid() && !e.traits.isStatic && |e.live| < Capacity(e.State())
    requires forall i :: 0 <= i < |list| ==> Handle(e, list[i])
    modifies e.Repr
    ensures e.Valid() && fresh(e.Repr - old(e.Repr)) && fresh(obj) && Handle(e, obj)
    ensures obj.storage !in old(e.live) && e.live == old(e.live) + {obj.storage}
    ensures forall i :: 0 <= i < |list| ==> Handle(e, list[i])
  {
    ghost var p := e.State();
    AllocateBelowCapacity(p);
    AllocateIssuesFreshUnit(p, true);
    var made := e.New(true);
    obj := made;
    forall i | 0 <= i < |list|
      ensures Handle(e, list[i])
    {
      assert list[i] in old(e.Repr) || list[i] !in e.Repr;
    }
  }

  /** One step of the build loop: New an object while the engine has room and
      push it onto the front of the list. */
  method PushNew(e: SlabAllocator, list: seq<SlabAllocated>) returns (list': seq<SlabAllocated>)
    requires e.Valid() && !e.traits.isStatic && HoldsLive(e, list)
    requires |e.live| < Capacity(e.State())
    modifies e.Repr
    ensures e.Valid() && fresh(e.Repr - old(e.Repr))
    ensures |list'| == |list| + 1 && list'[1..] == list && HoldsLive(e, list')
  {
    var obj := NewHeld(e, list);
    PushStorage(obj, list);
    list' := [obj] + list;
    forall i | 0 <= i < |list'|
      ensures Handle(e, list'[i])
    {
      if i > 0 {
        assert list'[i] == list[i - 1];
      }
    }
  }

  /** Build `n` objects with New, pushing each onto the front of a list, while
      the engine has room for them; every New succeeds. */
  method NewObjects(e: SlabAllocator, n: nat) returns (list: seq<SlabAllocated>)
    requires e.Valid() && !e.traits.isStatic && e.live == {} && n <= Capacity(e.State())
    modifies e.Repr
    ensures e.Valid() && fresh(e.Repr - old(e.Repr)) && |list| == |e.live| == n
    ensures HoldsLive(e, list)
  {
    list := [];
    assert Elements(Storages(list)) == {};
    while |list| < n
      invariant e.Valid() && fresh(e.Repr - old(e.Repr)) && |list| == |e.live| <= n
      invariant HoldsLive(e, list)
    {
      list := PushNew(e, list);
      ElementsCard(Storages(list));
    }
  }

  /** Popping the front object of a list whose units are distinct drops exactly
      its unit from the held set. */
  lemma PopStorage(list: seq<SlabAllocated>)
    requires list != [] && NoDuplicates(Storages(list))
    ensures NoDuplicates(Storages(list[1..]))
    ensures Elements(Storages(list[1..])) == Elements(Storages(list)) - {list[0].storage}
  {
    var us := Storages(list);
    assert Storages(list[1..]) == us[1..];
    assert us == [us[0]] + us[1..];
  }

  /** One step of the delete loop: delete the front object of the list. */
  method PopDelete(e: SlabAllocator, list: seq<SlabAllocated>) returns (rest: seq<SlabAllocated>)
    requires e.Valid() && HoldsLive(e, list) && list != []
    modifies e, list[0]
    ensures e.Valid() && e.Repr == old(e.Repr) && rest == list[1..] && HoldsLive(e, rest)
  {
    var obj := list[0];
    PopStorage(list);
    assert obj.storage in Elements(Storages(list));
    InstancedDelete(obj);
    rest := list[1..];
    forall i | 0 <= i < |rest|
      ensures Handle(e, rest[i])
    {
      assert rest[i].storage != obj.storage;
    }
  }

  /** Delete every object of the list, popping from its front; nothing stays
      live. */
  method DeleteObjects(e: SlabAllocator, list: seq<SlabAllocated>)
    requires e.Valid() && HoldsLive(e, list)
    modifies e, list
    ensures e.Valid() && e.live == {}
  {
    var rest := list;
    while rest != []
      invariant e.Valid() && HoldsLive(e, rest) && e.Repr == old(e.Repr)
      invariant forall i :: 0 <= i < |rest| ==> rest[i] in list
    {
      rest := PopDelete(e, rest);
    }
  }

  /** The header's usage example: an instanced engine with one pre-allocated
      slab builds a slab's worth of objects, then deletes them all. Every New
      succeeds, and at destruction every carved unit is back on the free
      list. */
  method SlabOfObjects(traits: SlabGeometry.Traits) returns (made: nat, noLeak: bool)
    requires SlabGeometry.Accepted(traits) && !traits.isStatic
    ensures made == SlabGeometry.AllocsPerSlab(traits) && noLeak
  {
    var e := new SlabAllocator(1, true, traits, true);
    ConstructShape(e.perSlab, 1, true, true);
    var list := NewObjects(e, e.perSlab);
    made := |list|;
    DeleteObjects(e, list);
    var allocatedCount;
    allocatedCount, noLeak := e.Destroy();
  }
}
