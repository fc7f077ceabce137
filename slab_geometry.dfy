/** Slab geometry fixed at compile time by an allocator's traits: how many
    allocation units one slab holds, and the build-time checks on that number. */
module SlabGeometry {

  /** The compile-time parameters of one allocator type.
      slabSize: bytes per slab; overhead: bytes of slab header before the first
      unit; unitSize: bytes of one (aligned) allocation unit; isStatic: whether
      the allocator is the single static instance of its object type. */
  datatype Traits = Traits(slabSize: nat, overhead: nat, unitSize: nat, isStatic: bool)

  /** The number of whole units that fit after the slab header. */
  function SlabAllocationCount(slabSize: nat, overhead: nat, unitSize: nat): (n: nat)
    requires unitSize > 0 && overhead <= slabSize
    ensures n * unitSize <= slabSize - overhead < (n + 1) * unitSize
  {
    var room := slabSize - overhead;
    assert room == (room / unitSize) * unitSize + room % unitSize;
    room / unitSize
  }

  /** The two static assertions on a slab type: the header fits in the slab,
      and at least one unit fits after it. */
  predicate Accepted(t: Traits)
  {
    && t.unitSize > 0
    && t.overhead < t.slabSize
    && SlabAllocationCount(t.slabSize, t.overhead, t.unitSize) > 0
  }

  /** AllocsPerSlab: the per-slab unit count exported by an accepted allocator type. */
  function AllocsPerSlab(t: Traits): (n: nat)
    requires Accepted(t)
    ensures n > 0
    ensures n * t.unitSize + t.overhead <= t.slabSize
    ensures t.slabSize - t.overhead < (n + 1) * t.unitSize
  {
    SlabAllocationCount(t.slabSize, t.overhead, t.unitSize)
  }

  /** A slab type is accepted exactly when its header and one unit fit in a slab. */
  lemma AcceptedIffOneUnitFits(t: Traits)
    requires t.unitSize > 0
    ensures Accepted(t) <==> t.overhead + t.unitSize <= t.slabSize
  {
    if t.overhead < t.slabSize {
      var n := SlabAllocationCount(t.slabSize, t.overhead, t.unitSize);
      if n == 0 {
        assert t.slabSize - t.overhead < t.unitSize;
      } else {
        assert n * t.unitSize >= t.unitSize;
      }
    }
  }
}
