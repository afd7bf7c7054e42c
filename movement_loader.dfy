/** The recipe compiler (movement/movement_loader.hpp): turns a recipe into
 *  live movements in the pool, depth first, a loop's children before the
 *  loop itself. A node that cannot be built is skipped; the nodes that
 *  were built are packed, in recipe order, into the caller's array.
 *
 *  `LoadMovementIn` and `LoadSequenceIn` are the two calls as functions of
 *  the pool; the class `MovementLoader` holds the imperative calls, proved
 *  equal to them. */
module MovementLoader {
  import opened Wrappers
  import opened Movement
  import opened MovementFactory
  import opened AgitationSequence

  /** The most nodes one sequence (top level or loop body) is read for. */
  const MAX_SEQUENCE_LENGTH: nat := 32

  /** How many nodes of `rs` the loader reads. */
  function Loadable(rs: seq<RecipeNode>): (n: nat)
    ensures n <= |rs| && n <= MAX_SEQUENCE_LENGTH
    ensures n == |rs| || n == MAX_SEQUENCE_LENGTH
  {
    if |rs| <= MAX_SEQUENCE_LENGTH then |rs| else MAX_SEQUENCE_LENGTH
  }

  /** The pool `q` is `p` with movements added and space taken: nothing is
   *  ever given back while loading. */
  predicate Grows(p: Pool, q: Pool)
  {
    q.sizes == p.sizes && p.nodes <= q.nodes && p.index <= q.index
  }

  /** loadMovement, as a function of the pool: the pool afterwards and the
   *  movement built, if any. A movement that is built is the last one
   *  added to the pool. */
  function LoadMovementIn(p: Pool, node: RecipeNode): (r: (Pool, Option<Handle>))
    requires PoolValid(p)
    ensures PoolValid(r.0) && Grows(p, r.0)
    ensures r.1.Some? ==> |p.nodes| <= r.1.value == |r.0.nodes| - 1
    ensures node.kind.Unknown? ==> r == (p, None)
    decreases node
  {
    match node.kind
    case TypeCW => CreateIn(p, NewMotorMovement(CW, node.duration))
    case TypeCCW => CreateIn(p, NewMotorMovement(CCW, node.duration))
    case TypePause => CreateIn(p, NewPauseMovement(node.duration))
    case TypeLoop =>
      var inner := LoadSequenceIn(p, node.loop.sequence, Loadable(node.loop.sequence));
      if |inner.1| == 0 then (inner.0, None)
      else CreateIn(inner.0, NewLoopMovement(inner.1, node.loop.count, node.loop.maxDuration))
    case TypeWaitUser => CreateIn(p, NewWaitUserMovement())
    case Unknown(_) => (p, None)
  }

  /** The load loop over the first `k` nodes of `rs`, as a function of the
   *  pool: the pool afterwards and the handles of the nodes that were
   *  built, in recipe order. Every handle is a movement this load added,
   *  and the handles strictly increase. */
  function LoadSequenceIn(p: Pool, rs: seq<RecipeNode>, k: nat): (r: (Pool, seq<Handle>))
    requires PoolValid(p) && k <= |rs|
    ensures PoolValid(r.0) && Grows(p, r.0)
    ensures |r.1| <= k
    ensures forall i :: 0 <= i < |r.1| ==> |p.nodes| <= r.1[i] < |r.0.nodes|
    ensures forall i, j :: 0 <= i < j < |r.1| ==> r.1[i] < r.1[j]
    decreases rs, k
  {
    if k == 0 then (p, [])
    else
      var before := LoadSequenceIn(p, rs, k - 1);
      var one := LoadMovementIn(before.0, rs[k - 1]);
      (one.0, if one.1.Some? then before.1 + [one.1.value] else before.1)
  }

  /** The movement kind a leaf recipe kind builds. */
  function LeafKind(kind: RecipeKind): Kind
    requires kind.TypeCW? || kind.TypeCCW? || kind.TypePause? || kind.TypeWaitUser?
  {
    match kind
    case TypeCW => CW
    case TypeCCW => CCW
    case TypePause => Pause
    case TypeWaitUser => WaitUser
  }

  /** A spin, pause or checkpoint node is one create call: either the pool
   *  is left exactly as it was and nothing is built, or one fresh movement
   *  of that kind is added, with the node's duration (a checkpoint always
   *  gets duration 0). */
  lemma LoadLeaf(p: Pool, node: RecipeNode)
    requires PoolValid(p)
    requires node.kind.TypeCW? || node.kind.TypeCCW? || node.kind.TypePause? || node.kind.TypeWaitUser?
    ensures var r := LoadMovementIn(p, node);
            && (r.1.None? ==> r.0 == p)
            && (r.1.Some? ==> && |r.0.nodes| == |p.nodes| + 1
                              && GetType(r.0.nodes[r.1.value]) == LeafKind(node.kind)
                              && GetDuration(r.0.nodes[r.1.value]) == (if node.kind.TypeWaitUser? then 0 else node.duration)
                              && Fresh(r.0.nodes[r.1.value]))
  {
  }

  /** A loop node loads its body first. If none of the body loads, no loop
   *  is built, but whatever the body took stays taken. Otherwise a loop
   *  holding exactly the loaded children, with the node's count and
   *  duration bound, is attempted; if it does not fit, the children stay
   *  in the pool without an owner. */
  lemma LoadLoop(p: Pool, node: RecipeNode)
    requires PoolValid(p) && node.kind.TypeLoop?
    ensures var inner := LoadSequenceIn(p, node.loop.sequence, Loadable(node.loop.sequence));
            var r := LoadMovementIn(p, node);
            && |inner.1| <= MAX_SEQUENCE_LENGTH
            && (|inner.1| == 0 ==> r == (inner.0, None))
            && (|inner.1| > 0 && r.1.None? ==> r.0 == inner.0)
            && (r.1.Some? ==> && |inner.1| > 0
                              && r.0.nodes == inner.0.nodes + [NewLoopMovement(inner.1, node.loop.count, node.loop.maxDuration)]
                              && r.1.value == |inner.0.nodes|)
  {
  }

  /** The load of `k` nodes depends on those nodes only. */
  lemma {:induction false} LoadSequencePrefix(p: Pool, rs: seq<RecipeNode>, rs': seq<RecipeNode>, k: nat)
    requires PoolValid(p) && k <= |rs| && k <= |rs'| && rs[..k] == rs'[..k]
    ensures LoadSequenceIn(p, rs, k) == LoadSequenceIn(p, rs', k)
  {
    if k > 0 {
      assert rs[..k - 1] == rs[..k][..k - 1] == rs'[..k][..k - 1] == rs'[..k - 1];
      assert rs[k - 1] == rs[..k][k - 1] == rs'[..k][k - 1] == rs'[k - 1];
      LoadSequencePrefix(p, rs, rs', k - 1);
    }
  }

  /** A node of unknown kind is skipped: putting one anywhere among the
   *  nodes read changes neither the pool nor the loaded handles. The load
   *  goes on past it rather than stopping. */
  lemma {:induction false} UnknownNodeSkipped(p: Pool, rs: seq<RecipeNode>, j: nat, k: nat, u: RecipeNode)
    requires PoolValid(p) && j <= k <= |rs| && u.kind.Unknown?
    ensures LoadSequenceIn(p, rs[..j] + [u] + rs[j..], k + 1) == LoadSequenceIn(p, rs, k)
    decreases k
  {
    var rs' := rs[..j] + [u] + rs[j..];
    if k == j {
      assert rs'[..k] == rs[..k];
      LoadSequencePrefix(p, rs', rs, k);
      assert rs'[k] == u;
    } else {
      UnknownNodeSkipped(p, rs, j, k - 1, u);
      assert rs'[k] == rs[k - 1];
    }
  }

  /** A loader bound to the pool it builds in. */
  class MovementLoader {
    const factory: MovementFactory

    constructor (factory: MovementFactory)
      ensures this.factory == factory
    {
      this.factory := factory;
    }

    /** loadSequence: reads at most MAX_SEQUENCE_LENGTH nodes and packs
     *  the handles of the ones that were built into `sequence`. A node that
     *  fails still writes its empty result into the next free slot, which a
     *  later success overwrites; nothing past that slot, and no slot past
     *  the nodes read, is touched. */
    method LoadSequence(recipe: seq<RecipeNode>, sequence: array<Option<Handle>>) returns (loadedLength: nat)
      requires factory.Valid() && Loadable(recipe) <= sequence.Length
      modifies factory, sequence
      ensures factory.Valid()
      ensures var r := LoadSequenceIn(old(factory.State()), recipe, Loadable(recipe));
              && factory.State() == r.0
              && loadedLength == |r.1|
              && forall i :: 0 <= i < loadedLength ==> sequence[i] == Some(r.1[i])
      ensures loadedLength <= Loadable(recipe)
      ensures loadedLength < sequence.Length ==> sequence[loadedLength] in {old(sequence[loadedLength]), None}
      ensures forall i :: loadedLength < i < sequence.Length ==> sequence[i] == old(sequence[i])
      ensures forall i :: Loadable(recipe) <= i < sequence.Length ==> sequence[i] == old(sequence[i])
      decreases recipe
    {
      ghost var p := factory.State();
      ghost var hs: seq<Handle> := [];
      loadedLength := 0;
      var n := Loadable(recipe);
      for i := 0 to n
        invariant factory.Valid()
        invariant (factory.State(), hs) == LoadSequenceIn(p, recipe, i)
        invariant loadedLength == |hs| <= i
        invariant forall j :: 0 <= j < loadedLength ==> sequence[j] == Some(hs[j])
        invariant loadedLength < sequence.Length ==> sequence[loadedLength] in {old(sequence[loadedLength]), None}
        invariant forall j :: loadedLength < j < sequence.Length ==> sequence[j] == old(sequence[j])
        invariant forall j :: i <= j < sequence.Length ==> sequence[j] == old(sequence[j])
      {
        var h := LoadMovement(recipe[i]);
        sequence[loadedLength] := h;
        if h.Some? {
          hs := hs + [h.value];
          loadedLength := loadedLength + 1;
        }
      }
    }

    /** loadMovement: one create call for a leaf node; for a loop node,
     *  its body into a local array of MAX_SEQUENCE_LENGTH slots and then,
     *  if any of it loaded, one createLoop; nothing for an unknown kind. */
    method LoadMovement(node: RecipeNode) returns (result: Option<Handle>)
      requires factory.Valid()
      modifies factory
      ensures factory.Valid()
      ensures (factory.State(), result) == LoadMovementIn(old(factory.State()), node)
      decreases node
    {
      match node.kind {
        case TypeCW =>
          result := factory.CreateCW(node.duration);
        case TypeCCW =>
          result := factory.CreateCCW(node.duration);
        case TypePause =>
          result := factory.CreatePause(node.duration);
        case TypeLoop =>
          var inner := new Option<Handle>[MAX_SEQUENCE_LENGTH](_ => None);
          var innerLength := LoadSequence(node.loop.sequence, inner);
          if innerLength == 0 {
            return None;
          }
          ghost var hs := LoadSequenceIn(old(factory.State()), node.loop.sequence, Loadable(node.loop.sequence)).1;
          ValuesOfSlots(inner[..innerLength], hs);
          result := factory.CreateLoop(inner, innerLength, node.loop.count, node.loop.maxDuration);
        case TypeWaitUser =>
          result := factory.CreateWaitUser();
        case Unknown(_) =>
          return None;
      }
    }
  }
}
