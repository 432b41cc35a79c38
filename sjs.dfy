/** The sweeping jet solver's bookkeeping: node states, the value guard of
    the two update rules, the cell test, and the step that moves the front
    node of the heap to VALID and wakes its FAR neighbours. The numerical
    parts of the updates are abstracted to a candidate value. */
module Sjs {
  import opened Grid
  import opened Heap

  /** `state`. */
  datatype State = Far | Trial | Valid | Boundary

  const NumNb: int := 8
  const NumCellVerts: int := 4

  /** `sgn`: the sign of `x` as -1, 0 or 1. */
  function Sgn(x: real): (r: int)
    ensures r == -1 || r == 0 || r == 1
    ensures r == 1 <==> x > 0.0
    ensures r == -1 <==> x < 0.0
  {
    if x > 0.0 then 1 else if x < 0.0 then -1 else 0
  }

  /** A node's state may only stay, go from FAR to TRIAL, or become VALID. */
  predicate Advances(a: State, b: State) {
    b == a || (a == Far && b == Trial) || b == Valid
  }

  /** Chaining steps keeps the order FAR, TRIAL, VALID. */
  lemma AdvancesTransitive(a: State, b: State, c: State)
    requires Advances(a, b) && Advances(b, c)
    ensures Advances(a, c)
  {
  }

  /** A VALID node stays VALID, and nothing returns to FAR. */
  lemma AdvancesIsMonotone(a: State, b: State)
    requires Advances(a, b)
    ensures a == Valid ==> b == Valid
    ensures b == Far ==> a == Far
  {
  }

  class Solver {
    /** `shape.i`, `shape.j`. */
    const m: int
    const n: int
    const states: array<State>
    /** `jets[l].f`; the derivative parts of a jet are not modelled. */
    const jets: array<real>
    const positions: array<int>
    const heap: MinHeap
    /** `nb_ind_offsets` and `cell_vert_ind_offsets`. */
    const nbIndOffsets: seq<int>
    const cellVertIndOffsets: seq<int>

    ghost predicate Valid()
      reads this, heap, heap.inds, positions
    {
      && m >= 0 && n >= 0
      && states.Length == NodeCount(m, n)
      && jets.Length == states.Length && positions.Length == states.Length
      && heap.positions == positions && heap.jets == jets
      && heap.Valid()
      && nbIndOffsets == NbIndOffsets(m)
      && cellVertIndOffsets == CellVertIndOffsets(m)
    }

    /** The nodes that step `k < upTo` of the neighbour loop visits from `l0`. */
    ghost function Neighbours(l0: int, upTo: int): set<int>
      requires 0 <= upTo <= |nbIndOffsets|
    {
      set k | 0 <= k < upTo :: l0 + nbIndOffsets[k]
    }

    /** `sjs_init`: allocates the node arrays and sets every node FAR. The
        heap is initialised here with `heap_init`. */
    constructor Init(shape: Ind, heapCapacity: int)
      requires shape.i >= 0 && shape.j >= 0 && heapCapacity >= 1
      ensures Valid() && heap.Ordered() && heap.size == 0
      ensures m == shape.i && n == shape.j
      ensures forall l :: 0 <= l < states.Length ==> states[l] == Far
      ensures fresh(states) && fresh(jets) && fresh(positions) && fresh(heap) && fresh(heap.inds)
    {
      var nnodes := NodeCount(shape.i, shape.j);
      m, n := shape.i, shape.j;
      var st := new State[nnodes];
      var js := new real[nnodes];
      var ps := new int[nnodes];
      states, jets, positions := st, js, ps;
      heap := new MinHeap.Init(heapCapacity, ps, js);
      nbIndOffsets := NbIndOffsets(shape.i);
      cellVertIndOffsets := CellVertIndOffsets(shape.i);
      new;
      for l := 0 to nnodes
        modifies states
        invariant forall k :: 0 <= k < l ==> states[k] == Far
      {
        states[l] := Far;
      }
    }

    /** The guard at the end of `sjs_tri`, and the same in `sjs_line`: the
        candidate value `T` replaces `jets[l].f` only when it is smaller. */
    method Relax(l: int, T: real) returns (updated: bool)
      requires Valid() && 0 <= l < jets.Length
      modifies jets
      ensures Valid()
      ensures updated <==> T < old(jets[l])
      ensures jets[l] == (if updated then T else old(jets[l]))
      ensures jets[l] <= old(jets[l])
      ensures forall k :: 0 <= k < jets.Length && k != l ==> jets[k] == old(jets[k])
    {
      if T < jets[l] {
        jets[l] := T;
        updated := true;
      } else {
        updated := false;
      }
    }

    /** `sjs_line`: the candidate is the value at the neighbour `l0` plus the
        cost of the straight segment from it, `h*(s + s0)/2`, given here as
        `cost`. */
    method Line(l: int, l0: int, cost: real) returns (updated: bool)
      requires Valid() && 0 <= l < jets.Length && 0 <= l0 < jets.Length
      modifies jets
      ensures Valid()
      ensures updated <==> old(jets[l0]) + cost < old(jets[l])
      ensures jets[l] == (if updated then old(jets[l0]) + cost else old(jets[l]))
      ensures forall k :: 0 <= k < jets.Length && k != l ==> jets[k] == old(jets[k])
    {
      var T := jets[l0] + cost;
      updated := Relax(l, T);
    }

    /** `sjs_valid_cell`: whether all four corners of the cell are VALID. */
    method ValidCell(lc: int) returns (r: bool)
      requires Valid()
      requires forall k :: 0 <= k < NumCellVerts ==> 0 <= lc + cellVertIndOffsets[k] < states.Length
      ensures r <==> forall k :: 0 <= k < NumCellVerts ==> states[lc + cellVertIndOffsets[k]] == State.Valid
    {
      for i := 0 to NumCellVerts
        invariant forall k :: 0 <= k < i ==> states[lc + cellVertIndOffsets[k]] == State.Valid
      {
        if states[lc + cellVertIndOffsets[i]] != State.Valid {
          return false;
        }
      }
      return true;
    }

    /** The neighbour loop of `sjs_step`: each FAR neighbour of `l0` becomes
        TRIAL, and nothing else changes. */
    method WakeNeighbours(l0: int)
      requires Valid()
      requires forall k :: 0 <= k < NumNb ==> 0 <= l0 + nbIndOffsets[k] < states.Length
      modifies states
      ensures forall l :: 0 <= l < states.Length ==>
        states[l] == (if old(states[l]) == Far && l in Neighbours(l0, NumNb) then Trial else old(states[l]))
    {
      for i := 0 to NumNb
        invariant forall l :: 0 <= l < states.Length ==>
          states[l] == (if old(states[l]) == Far && l in Neighbours(l0, i) then Trial else old(states[l]))
      {
        var l := l0 + nbIndOffsets[i];
        assert Neighbours(l0, i + 1) == Neighbours(l0, i) + {l};
        if states[l] == Far {
          states[l] := Trial;
        }
      }
    }

    /** `sjs_step`, its state transitions: the front node leaves the heap and
        becomes VALID, and each FAR neighbour becomes TRIAL. */
    method Step()
      requires Valid() && heap.Ordered() && heap.size > 0
      requires forall k :: 0 <= k < NumNb ==> 0 <= heap.inds[0] + nbIndOffsets[k] < states.Length
      modifies states, heap, heap.inds, positions
      ensures Valid() && heap.Ordered()
      ensures heap.size == old(heap.size) - 1
      ensures heap.inds == old(heap.inds) && heap.capacity == old(heap.capacity)
      ensures SameOutside(positions[..], old(positions[..]), multiset(old(heap.Contents())))
      ensures multiset(heap.Contents()) == multiset(old(heap.Contents())) - multiset{old(heap.inds[0])}
      ensures forall p :: 0 <= p < old(heap.size) ==> jets[old(heap.inds[0])] <= jets[old(heap.inds[p])]
      ensures states[old(heap.inds[0])] == State.Valid
      ensures forall l :: 0 <= l < states.Length && l != old(heap.inds[0]) ==>
        states[l] == (if old(states[l]) == Far && l in Neighbours(old(heap.inds[0]), NumNb) then Trial else old(states[l]))
      ensures forall l :: 0 <= l < states.Length ==> Advances(old(states[l]), states[l])
    {
      var l0 := heap.Front();
      heap.Pop();
      states[l0] := State.Valid;
      WakeNeighbours(l0);
    }
  }
}
