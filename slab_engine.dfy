/** The pool engine internal::SlabAllocator as objects updated in place: the
    slabs with their alloc_count headers, the engine with its slab list, free
    list and counters, and the slab-allocated objects with their origin field.
    Every method is tied to the matching function of SlabModel through
    SlabAllocator.State(). */
module SlabEngine {
  import opened Wrappers
  import opened SlabModel
  import SlabGeometry

  /** One slab. Its header holds alloc_count; `ordinal` names the slab in the
      identities of its units (0 for the first slab acquired). */
  class Slab {
    const ordinal: nat
    var allocCount: nat

    constructor (ordinal: nat)
      ensures this.ordinal == ordinal && allocCount == 0
    {
      this.ordinal := ordinal;
      allocCount := 0;
    }

    /** Slab::Allocate, `capacity` being SlabAllocationCount: hand out unit
        alloc_count and post-increment it, or nothing once the slab is full. */
    method Allocate(capacity: nat) returns (mem: Option<Unit>)
      modifies this
      ensures (allocCount, mem) == SlabAllocate(old(allocCount), capacity, ordinal)
    {
      if allocCount >= capacity {
        mem := None;
      } else {
        mem := Some(Unit(ordinal, allocCount));
        allocCount := allocCount + 1;
      }
    }
  }

  /** The alloc_count of every slab of a list, in list order. */
  function CountsOf(slabs: seq<Slab>): (counts: seq<nat>)
    reads slabs
    ensures |counts| == |slabs|
    ensures forall i :: 0 <= i < |slabs| ==> counts[i] == slabs[i].allocCount
  {
    if slabs == [] then [] else [slabs[0].allocCount] + CountsOf(slabs[1..])
  }

  /** After the first unit of a slab pushed in front of `rest` was taken,
      the counts are one for it followed by those of `rest`. */
  lemma FirstUnitOfPushedSlab(s: Slab, rest: seq<Slab>, counts: seq<nat>)
    requires s.allocCount == 1 && |rest| == |counts|
    requires forall i :: 0 <= i < |rest| ==> rest[i].allocCount == counts[i]
    ensures CountsOf([s] + rest) == [1] + counts
  {
    CountsOfCons(s, rest);
  }

  lemma CountsOfCons(s: Slab, rest: seq<Slab>)
    ensures CountsOf([s] + rest) == [s.allocCount] + CountsOf(rest)
  {
    assert ([s] + rest)[1..] == rest;
  }

  /** Storage of one slab-allocated object (the SlabAllocated base). For an
      instanced allocator slabOrigin records the engine the storage came from;
      a static allocator leaves it null. */
  class SlabAllocated {
    const storage: Unit
    var slabOrigin: SlabAllocator?
    /** The engine whose New built the object, for either flavour; null once
        the object was deleted. */
    ghost var home: SlabAllocator?

    constructor (storage: Unit)
      ensures this.storage == storage && slabOrigin == null && home == null
    {
      this.storage := storage;
      slabOrigin := null;
      home := null;
    }
  }

  /** SlabOriginSetter::SetOrigin: record the origin for an instanced
      allocator; do nothing for a static one. */
  method SetOrigin(obj: SlabAllocated, origin: SlabAllocator)
    modifies obj
    ensures obj.slabOrigin == if origin.traits.isStatic then old(obj.slabOrigin) else origin
    ensures obj.home == old(obj.home)
  {
    if !origin.traits.isStatic {
      obj.slabOrigin := origin;
    }
  }

  /** internal::SlabAllocator: the pool engine shared by both façades. */
  class SlabAllocator {
    const traits: SlabGeometry.Traits
    const perSlab: nat
    const maxSlabs: nat
    var freeList: seq<Unit>
    var slabs: seq<Slab>
    var slabCount: nat
    var freeListSize: nat
    ghost var live: set<Unit>
    ghost var Repr: set<object>

    /** The abstract value of the engine. */
    ghost function State(): PoolState
      reads this, slabs
    {
      PoolState(perSlab, maxSlabs, slabCount, CountsOf(slabs), freeList, freeListSize, live)
    }

    /** The slab at list position i was the (|slabs| - i)-th acquired, all slabs
        belong to the engine, and its abstract value keeps the pool invariant. */
    ghost predicate Valid()
      reads this, Repr
      ensures Valid() ==> this in Repr
    {
      && this in Repr
      && SlabGeometry.Accepted(traits)
      && perSlab == SlabGeometry.AllocsPerSlab(traits)
      && (forall i :: 0 <= i < |slabs| ==> slabs[i] in Repr && slabs[i].ordinal == |slabs| - 1 - i)
      && Inv(State())
    }

    /** SlabAllocator(max_slabs, alloc_initial); `memOk` is the outcome of the
        slab acquisition the eager first allocation may attempt. */
    constructor (maxSlabs: nat, allocInitial: bool, traits: SlabGeometry.Traits, memOk: bool)
      requires SlabGeometry.Accepted(traits)
      ensures Valid() && fresh(Repr)
      ensures this.traits == traits && this.maxSlabs == maxSlabs
      ensures State() == Construct(SlabGeometry.AllocsPerSlab(traits), maxSlabs, allocInitial, memOk)
    {
      this.traits := traits;
      perSlab := SlabGeometry.AllocsPerSlab(traits);
      this.maxSlabs := maxSlabs;
      freeList := [];
      slabs := [];
      slabCount := 0;
      freeListSize := 0;
      live := {};
      Repr := {this};
      new;
      ConstructShape(perSlab, maxSlabs, false, memOk);
      if allocInitial {
        var first := Allocate(memOk);
        if first.Some? {
          ReturnToFreeList(first.value);
        }
      }
    }

    /** max_slabs(): the quota fixed at construction, which bounds the slab
        count and the live units of a valid engine. */
    function MaxSlabs(): (n: nat)
      reads this, Repr
      ensures n == maxSlabs
      ensures Valid() ==> slabCount <= n && |live| <= n * perSlab
    {
      LiveInvBound();
      maxSlabs
    }

    lemma LiveInvBound()
      ensures Valid() ==> |live| <= maxSlabs * perSlab
    {
      if Valid() {
        LiveBound(State());
      }
    }

    /** Allocate(): the free-list head, else the next unit of the active slab,
        else the first unit of a new slab if under quota and `memOk`, else
        nothing. */
    method Allocate(memOk: bool) returns (mem: Option<Unit>)
      requires Valid()
      modifies Repr
      ensures Valid() && fresh(Repr - old(Repr))
      ensures (State(), mem) == SlabModel.Allocate(old(State()), memOk)
    {
      if freeList != [] {
        mem := PopFreeList(memOk);
        return;
      }
      if slabs != [] {
        mem := AllocateFromActive(memOk);
        if mem.Some? {
          return;
        }
      }
      if slabCount < maxSlabs {
        if memOk {
          mem := AcquireSlab();
          return;
        }
      }
      mem := None;
    }

    /** First step of Allocate: pop the free-list head. */
    method PopFreeList(ghost memOk: bool) returns (mem: Option<Unit>)
      requires Valid() && freeList != []
      modifies this
      ensures Valid() && Repr == old(Repr)
      ensures (State(), mem) == SlabModel.Allocate(old(State()), memOk)
    {
      ghost var p := State();
      AllocatePreservesInv(p, memOk);
      freeListSize := freeListSize - 1;
      mem := Some(freeList[0]);
      freeList := freeList[1..];
      live := live + {mem.value};
      assert State() == SlabModel.Allocate(p, memOk).0;
    }

    /** Second step of Allocate, reached with an empty free list: try the
        active slab, which is found full when it hands out nothing. */
    method AllocateFromActive(ghost memOk: bool) returns (mem: Option<Unit>)
      requires Valid() && freeList == [] && slabs != []
      modifies this, slabs[0]
      ensures Valid() && Repr == old(Repr)
      ensures mem.Some? ==> (State(), mem) == SlabModel.Allocate(old(State()), memOk)
      ensures mem.None? ==> State() == old(State()) && old(State()).counts[0] == perSlab
    {
      ghost var p := State();
      AllocatePreservesInv(p, memOk);
      mem := TakeFromActive();
      if mem.Some? {
        assert State() == SlabModel.Allocate(p, memOk).0;
      }
    }

    /** The Slab::Allocate call of the second step, on the fields alone: only
        the active slab's count and the live set change. */
    method TakeFromActive() returns (mem: Option<Unit>)
      requires slabs != [] && forall i :: 0 <= i < |slabs| ==> slabs[i].ordinal == |slabs| - 1 - i
      modifies this, slabs[0]
      ensures slabs == old(slabs) && Repr == old(Repr) && slabCount == old(slabCount)
      ensures freeList == old(freeList) && freeListSize == old(freeListSize)
      ensures (slabs[0].allocCount, mem) == SlabAllocate(old(slabs[0].allocCount), perSlab, slabs[0].ordinal)
      ensures CountsOf(slabs) == [slabs[0].allocCount] + old(CountsOf(slabs[1..]))
      ensures live == old(live) + Elems(mem)
    {
      var active := slabs[0];
      assert forall i :: 1 <= i < |slabs| ==> slabs[i] != active;
      ghost var rest := CountsOf(slabs[1..]);
      mem := active.Allocate(perSlab);
      live := live + Elems(mem);
      assert CountsOf(slabs[1..]) == rest;
      CountsOfCons(active, slabs[1..]);
      assert slabs == [active] + slabs[1..];
    }

    /** Third step of Allocate, reached with an empty free list, a full or
        missing active slab and the quota not yet reached, once the slab
        memory was obtained: push a new slab and take its first unit. */
    method AcquireSlab() returns (mem: Option<Unit>)
      requires Valid() && freeList == [] && slabCount < maxSlabs
      requires slabs == [] || slabs[0].allocCount == perSlab
      modifies this
      ensures Valid() && fresh(Repr - old(Repr))
      ensures (State(), mem) == SlabModel.Allocate(old(State()), true)
    {
      ghost var p := State();
      ghost var q := SlabModel.Allocate(p, true);
      AllocatePreservesInv(p, true);
      assert q.0 == p.(slabCount := p.slabCount + 1, counts := [1] + p.counts,
                       live := p.live + {Unit(p.slabCount, 0)})
        && q.1 == Some(Unit(p.slabCount, 0));
      ghost var oldSlabs := slabs;
      mem := PushSlab(perSlab);
      assert forall i :: 1 <= i < |slabs| ==> slabs[i] == oldSlabs[i - 1];
      assert State() == q.0;
    }

    /** The slab_count_++, push_front and first Slab::Allocate of the third
        step of Allocate, on a fresh slab. */
    method PushSlab(capacity: nat) returns (mem: Option<Unit>)
      requires capacity > 0
      modifies this
      ensures |slabs| == |old(slabs)| + 1 && slabs[1..] == old(slabs)
      ensures fresh(slabs[0]) && slabs[0].ordinal == old(slabCount)
      ensures CountsOf(slabs) == [1] + old(CountsOf(slabs))
      ensures mem == Some(Unit(old(slabCount), 0))
      ensures slabCount == old(slabCount) + 1 && Repr == old(Repr) + {slabs[0]}
      ensures freeList == old(freeList) && freeListSize == old(freeListSize)
      ensures live == old(live) + {mem.value}
    {
      ghost var oldCounts := CountsOf(slabs);
      var slab := new Slab(slabCount);
      var rest := slabs;
      slabCount, slabs, Repr := slabCount + 1, [slab] + slabs, Repr + {slab};
      mem := slab.Allocate(capacity);
      live := live + {mem.value};
      assert forall i :: 0 <= i < |rest| ==> rest[i].allocCount == oldCounts[i];
      FirstUnitOfPushedSlab(slab, rest, oldCounts);
      assert slabs[1..] == rest;
    }

    /** ReturnToFreeList(ptr): push a live unit onto the free-list head; the
        slabs are not touched. */
    method ReturnToFreeList(u: Unit)
      requires Valid() && u in live
      modifies this
      ensures Valid() && Repr == old(Repr) && slabs == old(slabs)
      ensures State() == Release(old(State()), u)
    {
      ReleasePreservesInv(State(), u);
      freeListSize := freeListSize + 1;
      freeList := [u] + freeList;
      live := live - {u};
    }

    /** New(args...): allocate storage, build the object in it and record its
        origin; nothing is built when Allocate fails. The object lies outside
        the engine, so later allocations keep its origin. */
    method New(memOk: bool) returns (obj: SlabAllocated?)
      requires Valid()
      modifies Repr
      ensures Valid() && fresh(Repr - old(Repr))
      ensures State() == SlabModel.Allocate(old(State()), memOk).0
      ensures obj == null <==> SlabModel.Allocate(old(State()), memOk).1.None?
      ensures obj != null ==>
        && fresh(obj) && obj !in Repr
        && SlabModel.Allocate(old(State()), memOk).1 == Some(obj.storage)
        && obj.slabOrigin == (if traits.isStatic then null else this)
        && obj.home == this
    {
      var mem := Allocate(memOk);
      if mem.None? {
        return null;
      }
      ghost var s := State();
      obj := new SlabAllocated(mem.value);
      assert obj !in Repr;
      SetOrigin(obj, this);
      obj.home := this;
      assert State() == s;
    }

    /** ~SlabAllocator(): pop and release every slab while summing their
        alloc_count, then evaluate the debug check that the free list holds
        every unit ever carved; `noLeak` is that check's outcome. */
    method Destroy() returns (allocatedCount: nat, noLeak: bool)
      requires Valid()
      modifies this
      ensures allocatedCount == Sum(old(State()).counts)
      ensures noLeak == (old(freeListSize) == allocatedCount)
      ensures noLeak <==> old(live) == {}
      ensures slabs == [] && freeList == []
      ensures slabCount == old(slabCount) && freeListSize == old(freeListSize)
      ensures live == old(live)
    {
      ghost var p := State();
      TeardownDetectsLeak(p);
      allocatedCount := 0;
      while slabs != []
        invariant allocatedCount + Sum(CountsOf(slabs)) == Sum(p.counts)
        invariant freeListSize == p.freeListSize && slabCount == p.slabCount
        invariant live == p.live
      {
        var freeMe := slabs[0];
        assert CountsOf(slabs) == [freeMe.allocCount] + CountsOf(slabs[1..]);
        slabs := slabs[1..];
        allocatedCount := allocatedCount + freeMe.allocCount;
      }
      noLeak := freeListSize == allocatedCount;
      freeList := [];
    }
  }
}
