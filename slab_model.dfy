/** Abstract model of the pool engine internal::SlabAllocator: its slab list,
    free list, quota and counters as a value, the allocate / release /
    construct steps as functions on that value, and the facts the engine's
    design relies on as lemmas. */
module SlabModel {
  import opened Wrappers

  /** Identity of one allocation unit: the ordinal of the slab it was carved
      from (0 for the first slab the pool acquired) and its index in that slab. */
  datatype Unit = Unit(slab: nat, slot: nat)

  /** Abstract state of one pool engine.
      perSlab      AllocsPerSlab, fixed by the allocator type
      maxSlabs     quota, fixed at construction
      slabCount    number of slabs acquired so far
      counts       alloc_count of each slab in list order; counts[0] is the active slab
      freeList     released units, head first
      freeListSize the debug counter of free-list entries
      live         units handed out by Allocate and not yet returned */
  datatype PoolState = PoolState(
    perSlab: nat,
    maxSlabs: nat,
    slabCount: nat,
    counts: seq<nat>,
    freeList: seq<Unit>,
    freeListSize: nat,
    live: set<Unit>)

  // ---------------------------------------------------------------------
  // Units carved from slabs
  // ---------------------------------------------------------------------

  function Sum(counts: seq<nat>): nat
  {
    if counts == [] then 0 else counts[0] + Sum(counts[1..])
  }

  /** The units bump-allocated so far from the slab with this ordinal. */
  function SlabUnits(ordinal: nat, count: nat): set<Unit>
  {
    set slot: nat | slot < count :: Unit(ordinal, slot)
  }

  /** Every unit ever carved from the slab list; the slab at position i of the
      list has ordinal |counts| - 1 - i, since new slabs go to the front. */
  function Carved(counts: seq<nat>): set<Unit>
  {
    if counts == [] then {} else SlabUnits(|counts| - 1, counts[0]) + Carved(counts[1..])
  }

  function Elements(s: seq<Unit>): set<Unit>
  {
    set u | u in s
  }

  predicate NoDuplicates(s: seq<Unit>)
  {
    forall i, j :: 0 <= i < j < |s| ==> s[i] != s[j]
  }

  /** The engine invariant. Only the active slab may be partly used; the debug
      counter matches the free list; every carved unit is exactly one of live
      or free, and the free list holds each unit at most once. */
  predicate Inv(p: PoolState)
  {
    && p.perSlab > 0
    && p.slabCount == |p.counts| <= p.maxSlabs
    && (forall i :: 0 <= i < |p.counts| ==> 1 <= p.counts[i] <= p.perSlab)
    && (forall i :: 1 <= i < |p.counts| ==> p.counts[i] == p.perSlab)
    && p.freeListSize == |p.freeList|
    && NoDuplicates(p.freeList)
    && Elements(p.freeList) !! p.live
    && Elements(p.freeList) + p.live == Carved(p.counts)
  }

  // ---------------------------------------------------------------------
  // The operations
  // ---------------------------------------------------------------------

  /** Slab::Allocate: bump-allocate the next unit of a slab with `capacity`
      units, or nothing once alloc_count has reached the capacity. */
  function SlabAllocate(count: nat, capacity: nat, ordinal: nat): (nat, Option<Unit>)
  {
    if count >= capacity then (count, None) else (count + 1, Some(Unit(ordinal, count)))
  }

  /** internal::SlabAllocator::Allocate with `memOk` standing for the outcome of
      aligned_alloc: (1) pop the free-list head; (2) else bump the active slab;
      (3) else, under quota, acquire a new front slab and bump its first unit;
      (4) else fail. */
  function Allocate(p: PoolState, memOk: bool): (PoolState, Option<Unit>)
    requires Inv(p)
  {
    if p.freeList != [] then
      var u := p.freeList[0];
      (p.(freeList := p.freeList[1..], freeListSize := p.freeListSize - 1,
          live := p.live + {u}),
       Some(u))
    else
      var bumped := if p.counts != [] then SlabAllocate(p.counts[0], p.perSlab, |p.counts| - 1)
                    else (0, None);
      if p.counts != [] && bumped.1.Some? then
        (p.(counts := [bumped.0] + p.counts[1..], live := p.live + {bumped.1.value}), bumped.1)
      else if p.slabCount < p.maxSlabs && memOk then
        var first := SlabAllocate(0, p.perSlab, p.slabCount);
        (p.(slabCount := p.slabCount + 1, counts := [first.0] + p.counts,
            live := p.live + Elems(first.1)),
         first.1)
      else
        (p, None)
  }

  /** ReturnToFreeList: push a live unit onto the front of the free list. */
  function Release(p: PoolState, u: Unit): PoolState
    requires u in p.live
  {
    p.(freeList := [u] + p.freeList, freeListSize := p.freeListSize + 1, live := p.live - {u})
  }

  function EmptyPool(perSlab: nat, maxSlabs: nat): PoolState
  {
    PoolState(perSlab, maxSlabs, 0, [], [], 0, {})
  }

  /** The constructor: an empty pool, then, if asked, one allocate whose unit,
      if any, goes straight back to the free list. */
  function Construct(perSlab: nat, maxSlabs: nat, allocInitial: bool, memOk: bool): PoolState
    requires perSlab > 0
  {
    var empty := EmptyPool(perSlab, maxSlabs);
    assert Carved(empty.counts) == {};
    if allocInitial then
      var (q, r) := Allocate(empty, memOk);
      if r.Some? then Release(q, r.value) else q
    else
      empty
  }

  /** Units obtainable without acquiring a slab: the free list plus what is left
      in the active slab. */
  function Available(p: PoolState): nat
  {
    |p.freeList| + if p.counts == [] || p.counts[0] >= p.perSlab then 0 else p.perSlab - p.counts[0]
  }

  /** The most units the pool can ever hand out at once: max_slabs * AllocsPerSlab. */
  function Capacity(p: PoolState): nat
  {
    p.maxSlabs * p.perSlab
  }

  /** A run of allocations, one per memory-acquisition outcome in `memOk`. */
  function AllocateRun(p: PoolState, memOk: seq<bool>): (r: (PoolState, seq<Option<Unit>>))
    requires Inv(p)
    ensures Inv(r.0) && |r.1| == |memOk|
    ensures r.0.maxSlabs == p.maxSlabs && r.0.perSlab == p.perSlab
    decreases |memOk|
  {
    if memOk == [] then (p, [])
    else
      AllocatePreservesInv(p, memOk[0]);
      var step := Allocate(p, memOk[0]);
      var rest := AllocateRun(step.0, memOk[1..]);
      (rest.0, [step.1] + rest.1)
  }

  // ---------------------------------------------------------------------
  // Counting lemmas
  // ---------------------------------------------------------------------

  lemma {:induction false} SlabUnitsCard(ordinal: nat, count: nat)
    ensures |SlabUnits(ordinal, count)| == count
  {
    if count > 0 {
      SlabUnitsCard(ordinal, count - 1);
      assert SlabUnits(ordinal, count) == SlabUnits(ordinal, count - 1) + {Unit(ordinal, count - 1)};
    }
  }

  /** A unit was carved exactly when its slab exists and its slot is below that
      slab's alloc_count. */
  lemma {:induction false} CarvedMembership(counts: seq<nat>, u: Unit)
    ensures u in Carved(counts) <==> u.slab < |counts| && u.slot < counts[|counts| - 1 - u.slab]
  {
    if counts != [] {
      CarvedMembership(counts[1..], u);
    }
  }

  lemma {:induction false} CarvedCard(counts: seq<nat>)
    ensures |Carved(counts)| == Sum(counts)
  {
    if counts != [] {
      var front := SlabUnits(|counts| - 1, counts[0]);
      CarvedCard(counts[1..]);
      SlabUnitsCard(|counts| - 1, counts[0]);
      forall u | u in Carved(counts[1..]) ensures u !in front {
        CarvedMembership(counts[1..], u);
      }
      assert front * Carved(counts[1..]) == {};
    }
  }

  lemma {:induction false} ElementsCard(s: seq<Unit>)
    requires NoDuplicates(s)
    ensures |Elements(s)| == |s|
  {
    if s != [] {
      ElementsCard(s[1..]);
      assert Elements(s) == {s[0]} + Elements(s[1..]);
      assert s[0] !in Elements(s[1..]);
    }
  }

  lemma {:induction false} SumBound(counts: seq<nat>, perSlab: nat)
    requires forall i :: 0 <= i < |counts| ==> counts[i] <= perSlab
    ensures Sum(counts) <= |counts| * perSlab
    ensures (forall i :: 0 <= i < |counts| ==> counts[i] == perSlab) ==> Sum(counts) == |counts| * perSlab
    ensures counts != [] && counts[0] < perSlab ==> Sum(counts) < |counts| * perSlab
  {
    if counts != [] {
      SumBound(counts[1..], perSlab);
      assert |counts| * perSlab == perSlab + (|counts| - 1) * perSlab;
    }
  }

  lemma MulStrict(a: nat, b: nat, k: nat)
    requires a < b && k > 0
    ensures a * k < b * k
  {
    assert b * k == a * k + (b - a) * k;
  }

  // ---------------------------------------------------------------------
  // Invariant and conservation
  // ---------------------------------------------------------------------

  /** Conservation: the units carved from all slabs are exactly the live units
      plus the free-list entries, counted. */
  lemma Conservation(p: PoolState)
    requires Inv(p)
    ensures Sum(p.counts) == |p.live| + |p.freeList|
    ensures Sum(p.counts) == |p.live| + p.freeListSize
  {
    CarvedCard(p.counts);
    ElementsCard(p.freeList);
    assert Elements(p.freeList) * p.live == {};
  }

  /** No more than maxSlabs * AllocsPerSlab units are ever live. */
  lemma LiveBound(p: PoolState)
    requires Inv(p)
    ensures |p.live| + |p.freeList| <= p.slabCount * p.perSlab
    ensures |p.live| <= Capacity(p)
  {
    Conservation(p);
    SumBound(p.counts, p.perSlab);
    if p.slabCount < p.maxSlabs {
      MulStrict(p.slabCount, p.maxSlabs, p.perSlab);
    }
  }

  /** Bumping a slab carves exactly the returned unit, which was not carved
      before; alloc_count never passes the capacity; a unit is returned exactly
      when the slab was not full. */
  lemma SlabAllocateCarvesOne(count: nat, capacity: nat, ordinal: nat)
    ensures var (c, r) := SlabAllocate(count, capacity, ordinal);
      && (r.Some? <==> count < capacity)
      && (count <= capacity ==> c <= capacity)
      && c == count + |Elems(r)|
      && Elems(r) !! SlabUnits(ordinal, count)
      && SlabUnits(ordinal, c) == SlabUnits(ordinal, count) + Elems(r)
  {
    var (c, r) := SlabAllocate(count, capacity, ordinal);
    if r.Some? {
      assert SlabUnits(ordinal, c) == SlabUnits(ordinal, count) + {Unit(ordinal, count)};
    }
  }

  /** A unit handed out by Allocate was not live before and is live after. */
  lemma AllocateIssuesFreshUnit(p: PoolState, memOk: bool)
    requires Inv(p)
    ensures var (q, r) := Allocate(p, memOk);
      && q.live == p.live + Elems(r)
      && Elems(r) !! p.live
  {
    var (q, r) := Allocate(p, memOk);
    if r.Some? {
      var u := r.value;
      if p.freeList != [] {
        assert u in Elements(p.freeList);
      } else {
        CarvedMembership(p.counts, u);
      }
    }
  }

  /** Step 1 keeps the invariant: popping the free-list head makes it live. */
  lemma PopKeepsInv(p: PoolState)
    requires Inv(p) && p.freeList != []
    ensures Inv(p.(freeList := p.freeList[1..], freeListSize := p.freeListSize - 1,
                   live := p.live + {p.freeList[0]}))
  {
    var u := p.freeList[0];
    assert Elements(p.freeList) == {u} + Elements(p.freeList[1..]);
    assert u !in Elements(p.freeList[1..]);
  }

  /** Step 2 keeps the invariant: the bumped unit was not carved before. */
  lemma BumpKeepsInv(p: PoolState)
    requires Inv(p) && p.freeList == [] && p.counts != [] && p.counts[0] < p.perSlab
    ensures Inv(p.(counts := [p.counts[0] + 1] + p.counts[1..],
                   live := p.live + {Unit(|p.counts| - 1, p.counts[0])}))
  {
    var u := Unit(|p.counts| - 1, p.counts[0]);
    var c := [p.counts[0] + 1] + p.counts[1..];
    CarvedBumpFront(p.counts);
    assert forall i :: 1 <= i < |c| ==> c[i] == p.counts[i];
  }

  /** Step 3 keeps the invariant: the old active slab was full, and slot 0 of
      the new slab was not carved before. */
  lemma AcquireKeepsInv(p: PoolState)
    requires Inv(p) && p.freeList == [] && (p.counts == [] || p.counts[0] >= p.perSlab)
    requires p.slabCount < p.maxSlabs
    ensures Inv(p.(slabCount := p.slabCount + 1, counts := [1] + p.counts,
                   live := p.live + {Unit(p.slabCount, 0)}))
  {
    var c := [1] + p.counts;
    CarvedPushFront(p.counts);
    assert forall i :: 1 <= i < |c| ==> c[i] == p.counts[i - 1];
  }

  /** Bumping the active slab carves exactly one unit that was not carved before. */
  lemma CarvedBumpFront(counts: seq<nat>)
    requires counts != []
    ensures var u := Unit(|counts| - 1, counts[0]);
      && Carved([counts[0] + 1] + counts[1..]) == Carved(counts) + {u}
      && u !in Carved(counts)
  {
    var u := Unit(|counts| - 1, counts[0]);
    var c := [counts[0] + 1] + counts[1..];
    assert c[1..] == counts[1..];
    SlabAllocateCarvesOne(counts[0], counts[0] + 1, |counts| - 1);
    CarvedMembership(counts, u);
  }

  /** A new front slab with one unit carves exactly its slot 0, not carved before. */
  lemma CarvedPushFront(counts: seq<nat>)
    ensures Carved([1] + counts) == Carved(counts) + {Unit(|counts|, 0)}
    ensures Unit(|counts|, 0) !in Carved(counts)
  {
    var u := Unit(|counts|, 0);
    assert ([1] + counts)[1..] == counts;
    assert SlabUnits(|counts|, 1) == {u};
    CarvedMembership(counts, u);
  }

  lemma AllocatePreservesInv(p: PoolState, memOk: bool)
    requires Inv(p)
    ensures Inv(Allocate(p, memOk).0)
    ensures Allocate(p, memOk).0.maxSlabs == p.maxSlabs
    ensures Allocate(p, memOk).0.perSlab == p.perSlab
  {
    if p.freeList != [] {
      PopKeepsInv(p);
    } else if p.counts != [] && p.counts[0] < p.perSlab {
      BumpKeepsInv(p);
    } else if p.slabCount < p.maxSlabs && memOk {
      AcquireKeepsInv(p);
    }
  }

  lemma ReleasePreservesInv(p: PoolState, u: Unit)
    requires Inv(p) && u in p.live
    ensures Inv(Release(p, u))
    ensures Release(p, u).counts == p.counts && Release(p, u).slabCount == p.slabCount
  {
    var q := Release(p, u);
    assert Elements(q.freeList) == {u} + Elements(p.freeList);
    assert u !in Elements(p.freeList);
  }

  // ---------------------------------------------------------------------
  // Properties of Allocate
  // ---------------------------------------------------------------------

  /** Step 1: with a non-empty free list, Allocate returns its head and removes
      it; the slabs and their counters are not touched. */
  lemma AllocateFromFreeList(p: PoolState, memOk: bool)
    requires Inv(p) && p.freeList != []
    ensures var (q, r) := Allocate(p, memOk);
      && r == Some(p.freeList[0])
      && q.freeList == p.freeList[1..]
      && q.freeListSize == p.freeListSize - 1
      && q.counts == p.counts && q.slabCount == p.slabCount
      && q.live == p.live + {p.freeList[0]}
  {
  }

  /** Step 3: a slab is acquired only with an empty free list, a full (or
      missing) active slab and room under the quota; it becomes the active
      slab and the returned unit is its slot 0. */
  lemma AllocateAcquiresSlab(p: PoolState, memOk: bool)
    requires Inv(p)
    ensures var (q, r) := Allocate(p, memOk);
      && (q.slabCount != p.slabCount <==>
            p.freeList == [] && (p.counts == [] || p.counts[0] == p.perSlab)
            && p.slabCount < p.maxSlabs && memOk)
      && (q.slabCount != p.slabCount ==>
            q.slabCount == p.slabCount + 1 && q.counts == [1] + p.counts
            && r == Some(Unit(p.slabCount, 0)) && q.freeList == p.freeList)
      && q.slabCount <= q.maxSlabs
  {
    AllocatePreservesInv(p, memOk);
  }

  /** Step 4: Allocate fails exactly when the free list is empty, the active
      slab is exhausted, and the quota is reached or memory acquisition fails;
      a failed Allocate changes nothing. */
  lemma AllocateFailsIff(p: PoolState, memOk: bool)
    requires Inv(p)
    ensures var (q, r) := Allocate(p, memOk);
      && (r.None? <==>
            p.freeList == [] && (p.counts == [] || p.counts[0] == p.perSlab)
            && (p.slabCount == p.maxSlabs || !memOk))
      && (r.None? ==> q == p)
  {
  }

  /** With memory always available, Allocate fails exactly when
      maxSlabs * AllocsPerSlab units are live at once. */
  lemma ExhaustedIffAllLive(p: PoolState)
    requires Inv(p)
    ensures Allocate(p, true).1.None? <==> |p.live| == Capacity(p)
  {
    LiveBound(p);
    Conservation(p);
    SumBound(p.counts, p.perSlab);
    AllocateFailsIff(p, true);
    if p.slabCount < p.maxSlabs {
      MulStrict(p.slabCount, p.maxSlabs, p.perSlab);
    }
  }

  /** LIFO reuse: releasing a live unit and allocating again returns that very
      unit and restores the pool exactly, whatever memory acquisition does. */
  lemma ReleaseThenAllocate(p: PoolState, u: Unit, memOk: bool)
    requires Inv(p) && u in p.live
    ensures Inv(Release(p, u))
    ensures Allocate(Release(p, u), memOk) == (p, Some(u))
  {
    ReleasePreservesInv(p, u);
    assert (p.live - {u}) + {u} == p.live;
  }

  /** Allocating and immediately releasing the unit leaves the live set as it
      was and keeps the invariant. */
  lemma AllocateThenRelease(p: PoolState, memOk: bool)
    requires Inv(p)
    ensures var (q, r) := Allocate(p, memOk);
      r.Some? ==> r.value in q.live && Inv(Release(q, r.value)) && Release(q, r.value).live == p.live
  {
    AllocatePreservesInv(p, memOk);
    AllocateIssuesFreshUnit(p, memOk);
    var (q, r) := Allocate(p, memOk);
    if r.Some? {
      ReleasePreservesInv(q, r.value);
      assert (p.live + {r.value}) - {r.value} == p.live;
    }
  }

  // ---------------------------------------------------------------------
  // Construction, pre-warming and teardown
  // ---------------------------------------------------------------------

  /** Constructing with alloc_initial performs one allocate-then-return: on
      success one slab with alloc_count 1 and one free-list entry, otherwise
      no slab; either way nothing is live and the invariant holds. */
  lemma ConstructShape(perSlab: nat, maxSlabs: nat, allocInitial: bool, memOk: bool)
    requires perSlab > 0
    ensures var p := Construct(perSlab, maxSlabs, allocInitial, memOk);
      && Inv(p) && p.live == {}
      && p.perSlab == perSlab && p.maxSlabs == maxSlabs
      && (allocInitial && maxSlabs > 0 && memOk ==>
            p.counts == [1] && p.slabCount == 1 && p.freeList == [Unit(0, 0)])
      && (!(allocInitial && maxSlabs > 0 && memOk) ==>
            p.counts == [] && p.slabCount == 0 && p.freeList == [])
  {
    var empty := EmptyPool(perSlab, maxSlabs);
    assert Inv(empty) by {
      assert Carved(empty.counts) == {};
      assert Elements(empty.freeList) == {};
    }
    var p := Construct(perSlab, maxSlabs, allocInitial, memOk);
    if allocInitial && maxSlabs > 0 && memOk {
      var u := Unit(0, 0);
      var a := Allocate(empty, true);
      assert a.1 == Some(u) && a.0 == empty.(slabCount := 1, counts := [1], live := {u});
      assert p == Release(a.0, u);
      assert Inv(p) by {
        AllocateThenRelease(empty, true);
      }
    } else if allocInitial {
      assert Allocate(empty, memOk) == (empty, None);
    }
  }

  /** An allocation within the available units never acquires a slab, succeeds
      whatever memory acquisition would do, and uses up one available unit. */
  lemma AllocateFromAvailable(p: PoolState, memOk: bool)
    requires Inv(p) && Available(p) > 0
    ensures var (q, r) := Allocate(p, memOk);
      && r.Some?
      && q.slabCount == p.slabCount
      && Available(q) == Available(p) - 1
  {
  }

  lemma {:induction false} RunWithinAvailable(p: PoolState, memOk: seq<bool>)
    requires Inv(p) && |memOk| <= Available(p)
    decreases |memOk|
    ensures None !in AllocateRun(p, memOk).1
    ensures AllocateRun(p, memOk).0.slabCount == p.slabCount
    ensures Available(AllocateRun(p, memOk).0) == Available(p) - |memOk|
  {
    if memOk != [] {
      AllocateFromAvailable(p, memOk[0]);
      AllocatePreservesInv(p, memOk[0]);
      var step := Allocate(p, memOk[0]);
      RunWithinAvailable(step.0, memOk[1..]);
      var rest := AllocateRun(step.0, memOk[1..]);
      assert AllocateRun(p, memOk) == (rest.0, [step.1] + rest.1);
    }
  }

  /** Below capacity, and with memory available, Allocate succeeds and the live
      set grows by exactly one unit. */
  lemma AllocateBelowCapacity(p: PoolState)
    requires Inv(p) && |p.live| < Capacity(p)
    ensures Allocate(p, true).1.Some?
    ensures |Allocate(p, true).0.live| == |p.live| + 1
  {
    ExhaustedIffAllLive(p);
    AllocateIssuesFreshUnit(p, true);
  }

  lemma {:induction false} RunWithinCapacity(p: PoolState, memOk: seq<bool>)
    requires Inv(p)
    requires false !in memOk
    requires |p.live| + |memOk| <= Capacity(p)
    decreases |memOk|
    ensures None !in AllocateRun(p, memOk).1
    ensures |AllocateRun(p, memOk).0.live| == |p.live| + |memOk|
  {
    if memOk != [] {
      var tail := memOk[1..];
      assert memOk[0] && false !in tail by { assert memOk == [memOk[0]] + tail; }
      AllocatePreservesInv(p, true);
      AllocateBelowCapacity(p);
      var step := Allocate(p, true);
      RunWithinCapacity(step.0, tail);
      var rest := AllocateRun(step.0, tail);
      assert AllocateRun(p, memOk) == (rest.0, [step.1] + rest.1);
    }
  }

  /** Pre-warming a pool limited to one slab: all AllocsPerSlab allocations
      that follow succeed without acquiring a slab, whatever memory acquisition
      would do, and the next one fails. */
  lemma PrewarmedSingleSlab(perSlab: nat, memOk: seq<bool>, last: bool)
    requires perSlab > 0 && |memOk| == perSlab
    ensures
      var p := Construct(perSlab, 1, true, true);
      var run := AllocateRun(p, memOk);
      && None !in run.1
      && run.0.slabCount == 1
      && Allocate(run.0, last).1.None?
  {
    var p := Construct(perSlab, 1, true, true);
    ConstructShape(perSlab, 1, true, true);
    assert Available(p) == perSlab;
    RunWithinAvailable(p, memOk);
    AllocateFailsIff(AllocateRun(p, memOk).0, last);
  }

  /** At teardown the debug counter equals the units ever carved exactly when
      no unit is live, so the destructor's check catches every leak. */
  lemma TeardownDetectsLeak(p: PoolState)
    requires Inv(p)
    ensures p.freeListSize == Sum(p.counts) <==> p.live == {}
  {
    Conservation(p);
  }
}
