/** The movement pool (movement/movement_factory.hpp): a fixed byte buffer
 *  with a bump index. Every movement and every loop's child-pointer array
 *  is carved out of it; nothing is freed except by resetting the whole pool.
 *
 *  The source keeps the buffer and the index in static storage; here they
 *  are one explicit object. Byte layout is abstracted: the pool is a
 *  capacity counter, the `sizeof` of each movement class is a parameter,
 *  and the movements themselves live in `nodes`, addressed by handle. */
module MovementFactory {
  import opened Wrappers
  import opened Movement

  /** The pool holds MAX_MOVEMENTS times sizeof(AgitationMovement) bytes. */
  const MAX_MOVEMENTS: nat := 64

  /** The `sizeof` values the pool arithmetic uses. */
  datatype Sizes = Sizes(movement: nat, motorMovement: nat, pauseMovement: nat,
                         waitUserMovement: nat, loopMovement: nat, pointer: nat)

  /** The pool as a value: the live movements and the bump index. */
  datatype Pool = Pool(sizes: Sizes, nodes: seq<Movement>, index: nat)

  /** One region handed out by the allocator: its offset and length. */
  datatype Region = Region(start: nat, size: nat)

  function PoolSize(sizes: Sizes): nat
  {
    MAX_MOVEMENTS * sizes.movement
  }

  predicate PoolValid(p: Pool)
  {
    p.index <= PoolSize(p.sizes) && WellFormed(p.nodes)
  }

  predicate Fits(p: Pool, size: nat)
  {
    p.index + size <= PoolSize(p.sizes)
  }

  /** The bytes a movement takes: its class, plus, for a loop, the array
   *  of child pointers that createLoop reserves in the same check. */
  function SizeOf(sizes: Sizes, m: Movement): nat
  {
    match m
    case MotorMovement(_, _, _) => sizes.motorMovement
    case PauseMovement(_, _) => sizes.pauseMovement
    case WaitUserMovement(_, _, _) => sizes.waitUserMovement
    case LoopMovement(_, _, children, _, _, _) => sizes.pointer * |children| + sizes.loopMovement
  }

  /** A create* call as a function of the pool: if the movement fits it is
   *  appended (its handle is the old node count) and the index advances by
   *  its size; otherwise the pool is left exactly as it was. */
  function CreateIn(p: Pool, m: Movement): (r: (Pool, Option<Handle>))
    ensures r.0.sizes == p.sizes && p.nodes <= r.0.nodes && p.index <= r.0.index
    ensures r.1.Some? <==> Fits(p, SizeOf(p.sizes, m))
    ensures r.1.Some? ==> r.1.value == |p.nodes| && r.0.nodes == p.nodes + [m]
                          && r.0.index == p.index + SizeOf(p.sizes, m)
    ensures r.1.None? ==> r.0 == p
    ensures PoolValid(p) && Inv(m) && ChildrenBelow(m, |p.nodes|) ==> PoolValid(r.0)
  {
    var size := SizeOf(p.sizes, m);
    if p.index + size <= PoolSize(p.sizes) then
      (Pool(p.sizes, p.nodes + [m], p.index + size), Some(|p.nodes|))
    else
      (p, None)
  }

  /** Where the regions handed out so far end. */
  function End(regions: seq<Region>): nat
  {
    if regions == [] then 0 else regions[|regions| - 1].start + regions[|regions| - 1].size
  }

  /** Each region starts where the previous one ended, the first at 0. */
  ghost predicate Consecutive(regions: seq<Region>)
  {
    forall i :: 0 <= i < |regions| ==> regions[i].start == End(regions[..i])
  }

  lemma {:induction false} EndMonotone(regions: seq<Region>, i: nat, j: nat)
    requires Consecutive(regions) && i <= j <= |regions|
    ensures End(regions[..i]) <= End(regions[..j])
    decreases j - i
  {
    if i < j {
      EndMonotone(regions, i, j - 1);
      assert regions[..j][..j - 1] == regions[..j - 1];
      if j - 1 > 0 {
        assert regions[..j - 1][..j - 2] == regions[..j - 2];
      }
      assert regions[j - 1].start == End(regions[..j - 1]);
    }
  }

  /** Regions handed out between two resets never overlap: every one ends
   *  at or before the start of any later one. */
  lemma {:induction false} ConsecutiveDisjoint(regions: seq<Region>, i: nat, j: nat)
    requires Consecutive(regions) && i < j < |regions|
    ensures regions[i].start + regions[i].size <= regions[j].start
  {
    EndMonotone(regions, i + 1, j);
    assert regions[..i + 1][..i] == regions[..i];
  }

  class MovementFactory {
    const sizes: Sizes
    /** The live movements (the objects placed in the pool). */
    var nodes: seq<Movement>
    /** current_pool_index. */
    var poolIndex: nat
    /** The regions handed out since the last reset, in order. */
    ghost var regions: seq<Region>

    function State(): Pool
      reads this
    {
      Pool(sizes, nodes, poolIndex)
    }

    ghost predicate Valid()
      reads this
    {
      PoolValid(State()) && Consecutive(regions) && End(regions) == poolIndex
    }

    constructor (sizes: Sizes)
      ensures Valid() && this.sizes == sizes && nodes == [] && poolIndex == 0
    {
      this.sizes := sizes;
      nodes := [];
      poolIndex := 0;
      regions := [];
    }

    function GetAvailableSpace(): (r: nat)
      reads this
      requires poolIndex <= PoolSize(sizes)
      ensures poolIndex + r == PoolSize(sizes)
    {
      PoolSize(sizes) - poolIndex
    }

    function CanAllocate(size: nat): (r: bool)
      reads this
      requires poolIndex <= PoolSize(sizes)
      ensures r <==> size <= GetAvailableSpace()
    {
      poolIndex + size <= PoolSize(sizes)
    }

    /** allocateMovement: the region at the current index, or nothing (and
     *  no change) when `size` more bytes do not fit. */
    method AllocateMovement(size: nat) returns (region: Option<nat>)
      requires Valid()
      modifies this`poolIndex, this`regions
      ensures region.None? <==> old(poolIndex) + size > PoolSize(sizes)
      ensures region.None? ==> poolIndex == old(poolIndex) && regions == old(regions)
      ensures region.Some? ==> region.value == old(poolIndex) && poolIndex == old(poolIndex) + size
                               && regions == old(regions) + [Region(old(poolIndex), size)]
      ensures poolIndex <= PoolSize(sizes) && Consecutive(regions) && End(regions) == poolIndex
    {
      if poolIndex + size > PoolSize(sizes) {
        return None;
      }
      region := Some(poolIndex);
      regions := regions + [Region(poolIndex, size)];
      poolIndex := poolIndex + size;
      assert regions[..|regions| - 1] == old(regions);
    }

    /** The body every create* but createLoop shares: check, allocate,
     *  construct in place. */
    method Place(m: Movement) returns (h: Option<Handle>)
      requires Valid() && Inv(m) && !m.LoopMovement?
      modifies this`nodes, this`poolIndex, this`regions
      ensures Valid()
      ensures (State(), h) == CreateIn(old(State()), m)
      ensures h.Some? ==> regions == old(regions) + [Region(old(poolIndex), SizeOf(sizes, m))]
      ensures h.None? ==> regions == old(regions)
    {
      ghost var r := CreateIn(State(), m);
      var size := SizeOf(sizes, m);
      if !CanAllocate(size) {
        return None;
      }
      assert r == (Pool(sizes, nodes + [m], poolIndex + size), Some(|nodes|));
      var region := AllocateMovement(size);
      assert region.Some?;
      h := None;
      if region.Some? {
        nodes := nodes + [m];
        h := Some(|nodes| - 1);
        assert State() == r.0;
      }
    }

    method CreateCW(duration: U32) returns (h: Option<Handle>)
      requires Valid()
      modifies this
      ensures Valid()
      ensures (State(), h) == CreateIn(old(State()), NewMotorMovement(CW, duration))
    {
      h := Place(NewMotorMovement(CW, duration));
    }

    method CreateCCW(duration: U32) returns (h: Option<Handle>)
      requires Valid()
      modifies this
      ensures Valid()
      ensures (State(), h) == CreateIn(old(State()), NewMotorMovement(CCW, duration))
    {
      h := Place(NewMotorMovement(CCW, duration));
    }

    method CreatePause(duration: U32) returns (h: Option<Handle>)
      requires Valid()
      modifies this
      ensures Valid()
      ensures (State(), h) == CreateIn(old(State()), NewPauseMovement(duration))
    {
      h := Place(NewPauseMovement(duration));
    }

    method CreateWaitUser() returns (h: Option<Handle>)
      requires Valid()
      modifies this
      ensures Valid()
      ensures (State(), h) == CreateIn(old(State()), NewWaitUserMovement())
    {
      h := Place(NewWaitUserMovement());
    }

    /** createLoop: one up-front check for the child-pointer array plus the
     *  loop, then two allocations, the pointers copied in order. */
    method CreateLoop(sequence: array<Option<Handle>>, sequenceLength: nat,
                      iterations: U32, maxDuration: U32) returns (h: Option<Handle>)
      requires Valid()
      requires 0 < sequenceLength <= sequence.Length
      requires forall i :: 0 <= i < sequenceLength ==> sequence[i].Some? && sequence[i].value < |nodes|
      modifies this`nodes, this`poolIndex, this`regions
      ensures Valid()
      ensures (State(), h) == CreateIn(old(State()),
                                       NewLoopMovement(Values(sequence[..sequenceLength]), iterations, maxDuration))
      ensures h.Some? ==> regions == old(regions) + [Region(old(poolIndex), sizes.pointer * sequenceLength),
                                                      Region(old(poolIndex) + sizes.pointer * sequenceLength, sizes.loopMovement)]
      ensures h.None? ==> regions == old(regions)
    {
      ghost var m := NewLoopMovement(Values(sequence[..sequenceLength]), iterations, maxDuration);
      ghost var r := CreateIn(State(), m);
      ValuesBelow(sequence[..sequenceLength], |nodes|);
      LoopCreatedIn(State(), Values(sequence[..sequenceLength]), iterations, maxDuration);
      var storageSize := sizes.pointer * sequenceLength;
      var loopSize := sizes.loopMovement;
      assert SizeOf(sizes, m) == storageSize + loopSize;
      if !CanAllocate(storageSize + loopSize) {
        return None;
      }
      assert r == (Pool(sizes, nodes + [m], poolIndex + storageSize + loopSize), Some(|nodes|));
      var storageRegion := AllocateMovement(storageSize);
      assert storageRegion.Some?;
      h := None;
      if storageRegion.Some? {
        var storage := CopyHandles(sequence, sequenceLength);
        var loopRegion := AllocateMovement(loopSize);
        assert loopRegion.Some?;
        if loopRegion.Some? {
          nodes := nodes + [NewLoopMovement(storage, iterations, maxDuration)];
          h := Some(|nodes| - 1);
          assert State() == r.0;
        }
      }
    }

    /** reset: the whole pool is free again and every handle handed out
     *  before is void. */
    method Reset()
      modifies this
      ensures Valid()
      ensures nodes == [] && poolIndex == 0 && regions == []
    {
      poolIndex := 0;
      nodes := [];
      regions := [];
    }
  }

  /** The pointers of a pointer array whose slots are all set. */
  function Values(s: seq<Option<Handle>>): (r: seq<Handle>)
    requires forall i :: 0 <= i < |s| ==> s[i].Some?
    ensures |r| == |s|
  {
    if s == [] then [] else Values(s[..|s| - 1]) + [s[|s| - 1].value]
  }

  /** The copy loop of createLoop: the pointers of the first
   *  `sequenceLength` slots, in order. */
  method CopyHandles(sequence: array<Option<Handle>>, sequenceLength: nat) returns (storage: seq<Handle>)
    requires sequenceLength <= sequence.Length
    requires forall i :: 0 <= i < sequenceLength ==> sequence[i].Some?
    ensures |storage| == sequenceLength
    ensures forall k :: 0 <= k < sequenceLength ==> storage[k] == sequence[k].value
    ensures storage == Values(sequence[..sequenceLength])
  {
    storage := [];
    for i := 0 to sequenceLength
      invariant storage == Values(sequence[..i])
    {
      storage := storage + [sequence[i].value];
      assert sequence[..i + 1] == sequence[..i] + [sequence[i]];
    }
    forall k | 0 <= k < sequenceLength
      ensures storage[k] == sequence[k].value
    {
      ValuesAt(sequence[..sequenceLength], k);
    }
  }

  lemma ValuesBelow(s: seq<Option<Handle>>, bound: nat)
    requires forall i :: 0 <= i < |s| ==> s[i].Some? && s[i].value < bound
    ensures forall k :: 0 <= k < |s| ==> Values(s)[k] < bound
  {
    forall k | 0 <= k < |s|
      ensures Values(s)[k] < bound
    {
      ValuesAt(s, k);
    }
  }

  /** A loop over children already in the pool takes its pointer array
   *  plus the loop itself, and creating it keeps the pool valid. */
  lemma LoopCreatedIn(p: Pool, children: seq<Handle>, iterations: U32, maxDuration: U32)
    requires PoolValid(p) && 0 < |children|
    requires forall k :: 0 <= k < |children| ==> children[k] < |p.nodes|
    ensures var m := NewLoopMovement(children, iterations, maxDuration);
            && SizeOf(p.sizes, m) == p.sizes.pointer * |children| + p.sizes.loopMovement
            && PoolValid(CreateIn(p, m).0)
  {
    var m := NewLoopMovement(children, iterations, maxDuration);
    assert Inv(m) && ChildrenBelow(m, |p.nodes|);
  }

  /** The pointers of slots that hold exactly `hs`, in order, are `hs`. */
  lemma ValuesOfSlots(s: seq<Option<Handle>>, hs: seq<Handle>)
    requires |s| == |hs| && forall i :: 0 <= i < |s| ==> s[i] == Some(hs[i])
    ensures Values(s) == hs
  {
    forall k | 0 <= k < |s|
      ensures Values(s)[k] == hs[k]
    {
      ValuesAt(s, k);
    }
  }

  lemma {:induction false} ValuesAt(s: seq<Option<Handle>>, k: nat)
    requires forall i :: 0 <= i < |s| ==> s[i].Some?
    requires k < |s|
    ensures Values(s)[k] == s[k].value
  {
    if k < |s| - 1 {
      ValuesAt(s[..|s| - 1], k);
    }
  }
}
