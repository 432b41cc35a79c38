/** The padded node grid of the sweeping solver. A grid of shape (m, n) is
    surrounded by one ring of padding nodes, so that coordinate i ranges over
    -1..m and j over -1..n; nodes are numbered with i varying fastest. */
module Grid {
  import opened CInt

  /** `ivec2`: a pair of grid coordinates, or a coordinate offset. */
  datatype Ind = Ind(i: int, j: int)

  /** The padded row length `m + 2`. */
  function Pad(m: int): int { m + 2 }

  /** The node count `(m + 2)*(n + 2)` allocated by `sjs_init`. */
  function NodeCount(m: int, n: int): int { (m + 2) * (n + 2) }

  /** Coordinates inside the padded grid. */
  predicate InPadded(m: int, n: int, ind: Ind) {
    -1 <= ind.i <= m && -1 <= ind.j <= n
  }

  /** `sjs_lindex`: the linear index of a node. */
  function LIndex(m: int, ind: Ind): int {
    (m + 2) * (ind.j + 1) + ind.i + 1
  }

  /** `sjs_lindex` maps the padded grid into `[0, NodeCount)`. */
  lemma LIndexInRange(m: int, n: int, ind: Ind)
    requires m >= -1 && InPadded(m, n, ind)
    ensures 0 <= LIndex(m, ind) < NodeCount(m, n)
  {
    var p := m + 2;
    assert p * (ind.j + 1) <= p * (n + 1) by {
      MulMonotone(p, ind.j + 1, n + 1);
    }
    assert p * (n + 1) + p == NodeCount(m, n);
  }

  /** `sjs_lindex` is injective on the padded grid. */
  lemma LIndexInjective(m: int, n: int, a: Ind, b: Ind)
    requires m >= -1 && InPadded(m, n, a) && InPadded(m, n, b)
    requires LIndex(m, a) == LIndex(m, b)
    ensures a == b
  {
    var p := m + 2;
    if a.j < b.j {
      MulMonotone(p, a.j + 2, b.j + 1);
    } else if b.j < a.j {
      MulMonotone(p, b.j + 2, a.j + 1);
    }
  }

  lemma MulMonotone(p: int, x: int, y: int)
    requires p >= 0 && x <= y
    ensures p * x <= p * y
  {
  }

  /** `sjs_vindex`, as written: `*i = l/mpad - 1`, `*j = l%mpad - 1`. */
  function VIndex(m: int, l: int): (ind: Ind)
    requires m >= -1
    ensures l >= 0 ==> LIndex(m, Ind(ind.j, ind.i)) == l
  {
    Ind(Div(l, Pad(m)) - 1, Rem(l, Pad(m)) - 1)
  }

  /** On an index produced by `sjs_lindex`, `sjs_vindex` returns the two
      coordinates swapped: it reads i from the quotient, where `sjs_lindex`
      stored j. */
  lemma VIndexSwapsCoordinates(m: int, n: int, ind: Ind)
    requires m >= -1 && InPadded(m, n, ind)
    ensures VIndex(m, LIndex(m, ind)) == Ind(ind.j, ind.i)
  {
    DivModUnique(Pad(m), LIndex(m, ind), ind.j + 1, ind.i + 1);
  }

  /** A concrete instance: on a 1-by-1 grid, node (0, 1) comes back as (1, 0). */
  lemma VIndexCounterexample()
    ensures LIndex(1, Ind(0, 1)) == 7
    ensures VIndex(1, 7) == Ind(1, 0)
  {
  }

  /** The inverse that `sjs_vindex` evidently intends: i from the remainder. */
  function VIndexInverse(m: int, l: int): (ind: Ind)
    requires m >= -1
    ensures l >= 0 ==> LIndex(m, ind) == l
  {
    Ind(Rem(l, Pad(m)) - 1, Div(l, Pad(m)) - 1)
  }

  /** `VIndexInverse` undoes `sjs_lindex` on the whole padded grid. */
  lemma VIndexInverseRoundTrip(m: int, n: int, ind: Ind)
    requires m >= -1 && InPadded(m, n, ind)
    ensures VIndexInverse(m, LIndex(m, ind)) == ind
  {
    DivModUnique(Pad(m), LIndex(m, ind), ind.j + 1, ind.i + 1);
  }

  /** Every index below the node count decodes to a node of the padded grid,
      so with `VIndexInverse` and `LIndexInRange` the linear index is a
      bijection between the padded grid and `[0, NodeCount)`. */
  lemma VIndexInverseInPadded(m: int, n: int, l: int)
    requires m >= 0 && n >= 0 && 0 <= l < NodeCount(m, n)
    ensures InPadded(m, n, VIndexInverse(m, l))
    ensures LIndex(m, VIndexInverse(m, l)) == l
  {
    var p := Pad(m);
    if Div(l, p) >= n + 2 {
      MulMonotone(p, n + 2, Div(l, p));
    }
  }

  lemma DivModUnique(p: int, l: int, q: int, r: int)
    requires p > 0 && 0 <= r < p && q >= 0 && l == p * q + r
    ensures Div(l, p) == q && Rem(l, p) == r
  {
    var q' := Div(l, p);
    var r' := Rem(l, p);
    if q' < q {
      MulMonotone(p, q' + 1, q);
    } else if q < q' {
      MulMonotone(p, q + 1, q');
    }
  }

  /** The neighbour offsets `offsets[NUM_NB + 1]`, going once round the node
      and repeating the first. */
  const NbOffsets: seq<Ind> := [
    Ind(-1, -1), Ind(-1, 0), Ind(-1, 1), Ind(0, 1), Ind(1, 1),
    Ind(1, 0), Ind(1, -1), Ind(0, -1), Ind(-1, -1)
  ]

  /** The corners of a cell relative to its first node, `cell_vert_offsets`. */
  const CellVertOffsets: seq<Ind> := [Ind(0, 0), Ind(1, 0), Ind(0, 1), Ind(1, 1)]

  /** A linear offset table entry as the source builds it: by passing the
      coordinate offset to `sjs_lindex`. */
  function OffsetAsWritten(m: int, o: Ind): int {
    LIndex(m, o)
  }

  /** Adding an offset built by `sjs_lindex` moves a node by the coordinate
      offset plus one in each direction, the padding shift. */
  lemma OffsetAsWrittenShifts(m: int, ind: Ind, o: Ind)
    ensures LIndex(m, ind) + OffsetAsWritten(m, o) == LIndex(m, Ind(ind.i + o.i + 1, ind.j + o.j + 1))
  {
    var p := m + 2;
    assert p * (ind.j + 1) + p * (o.j + 1) == p * (ind.j + o.j + 1 + 1);
  }

  /** In particular the first neighbour offset is zero: the node itself. */
  lemma FirstNeighbourIsSelf(m: int)
    ensures OffsetAsWritten(m, NbOffsets[0]) == 0
  {
  }

  /** The linear offset that moves a node by `o`. */
  function Offset(m: int, o: Ind): int {
    (m + 2) * o.j + o.i
  }

  /** Adding `Offset(m, o)` moves a node by exactly `o`. */
  lemma OffsetMoves(m: int, ind: Ind, o: Ind)
    ensures LIndex(m, ind) + Offset(m, o) == LIndex(m, Ind(ind.i + o.i, ind.j + o.j))
  {
    var p := m + 2;
    assert p * (ind.j + 1) + p * o.j == p * (ind.j + o.j + 1);
  }

  /** `nb_ind_offsets`, with each entry the intended `Offset`. */
  function NbIndOffsets(m: int): (r: seq<int>)
    ensures |r| == |NbOffsets|
    ensures forall k :: 0 <= k < |r| ==> r[k] == Offset(m, NbOffsets[k])
  {
    seq(|NbOffsets|, k requires 0 <= k < |NbOffsets| => Offset(m, NbOffsets[k]))
  }

  /** `cell_vert_ind_offsets`, with each entry the intended `Offset`. */
  function CellVertIndOffsets(m: int): (r: seq<int>)
    ensures |r| == |CellVertOffsets|
    ensures forall k :: 0 <= k < |r| ==> r[k] == Offset(m, CellVertOffsets[k])
  {
    seq(|CellVertOffsets|, k requires 0 <= k < |CellVertOffsets| => Offset(m, CellVertOffsets[k]))
  }

  /** The corners that `CellVertIndOffsets` reaches from the node (i, j) are
      the four nodes of the cell (i..i+1, j..j+1). */
  lemma CellCorners(m: int, ind: Ind)
    ensures var l, c := LIndex(m, ind), CellVertIndOffsets(m);
      && l + c[0] == LIndex(m, ind)
      && l + c[1] == LIndex(m, Ind(ind.i + 1, ind.j))
      && l + c[2] == LIndex(m, Ind(ind.i, ind.j + 1))
      && l + c[3] == LIndex(m, Ind(ind.i + 1, ind.j + 1))
  {
    forall k | 0 <= k < 4
      ensures LIndex(m, ind) + CellVertIndOffsets(m)[k]
           == LIndex(m, Ind(ind.i + CellVertOffsets[k].i, ind.j + CellVertOffsets[k].j))
    {
      OffsetMoves(m, ind, CellVertOffsets[k]);
    }
  }

  /** Every neighbour of a node of the unpadded grid is a node of the padded
      grid, so the neighbour loop never leaves the node arrays. */
  lemma NeighboursInRange(m: int, n: int, ind: Ind)
    requires m >= 0 && 0 <= ind.i < m && 0 <= ind.j < n
    ensures forall k :: 0 <= k < |NbOffsets| ==> 0 <= LIndex(m, ind) + NbIndOffsets(m)[k] < NodeCount(m, n)
  {
    forall k | 0 <= k < |NbOffsets|
      ensures 0 <= LIndex(m, ind) + NbIndOffsets(m)[k] < NodeCount(m, n)
    {
      OffsetMoves(m, ind, NbOffsets[k]);
      LIndexInRange(m, n, Ind(ind.i + NbOffsets[k].i, ind.j + NbOffsets[k].j));
    }
  }

  /** The four corners of any cell of the padded grid are nodes. */
  lemma CellCornersInRange(m: int, n: int, ind: Ind)
    requires m >= 0 && -1 <= ind.i < m && -1 <= ind.j < n
    ensures forall k :: 0 <= k < |CellVertOffsets| ==> 0 <= LIndex(m, ind) + CellVertIndOffsets(m)[k] < NodeCount(m, n)
  {
    forall k | 0 <= k < |CellVertOffsets|
      ensures 0 <= LIndex(m, ind) + CellVertIndOffsets(m)[k] < NodeCount(m, n)
    {
      OffsetMoves(m, ind, CellVertOffsets[k]);
      LIndexInRange(m, n, Ind(ind.i + CellVertOffsets[k].i, ind.j + CellVertOffsets[k].j));
    }
  }
}
