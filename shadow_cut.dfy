/** The shadow-boundary cut surface. Each tetrahedron whose vertices are
    partly VALID and partly SHADOW is cut where the boundary crosses its
    edges; the crossing on an edge is given by a coefficient t, and the
    pieces of all tetrahedra are concatenated into one vertex buffer and one
    triangle list. The solver's output (vertex positions, vertex states and
    the cut set) is a read-only `Snapshot` passed in. */
module ShadowCut {

  datatype Point = Point(x: real, y: real, z: real)

  /** `(1 - t)*x0 + t*x1`: the point at parameter t on the segment from x0
      to x1. */
  function Lerp(x0: Point, x1: Point, t: real): (p: Point)
    ensures t == 0.0 ==> p == x0
    ensures t == 1.0 ==> p == x1
  {
    Point((1.0 - t) * x0.x + t * x1.x, (1.0 - t) * x0.y + t * x1.y, (1.0 - t) * x0.z + t * x1.z)
  }

  /** Walking the segment backwards with 1 - t reaches the same point. */
  lemma LerpReverse(x0: Point, x1: Point, t: real)
    ensures Lerp(x1, x0, 1.0 - t) == Lerp(x0, x1, t)
  {
  }

  /** `sum(v)/4` for four points. */
  function Centroid(p0: Point, p1: Point, p2: Point, p3: Point): Point {
    Point((p0.x + p1.x + p2.x + p3.x) / 4.0, (p0.y + p1.y + p2.y + p3.y) / 4.0, (p0.z + p1.z + p2.z + p3.z) / 4.0)
  }

  /** `jmm.State`. */
  datatype State = Far | Trial | Valid | Boundary | AdjacentToBoundary | Shadow

  /** A canonical edge `(min, max)`. */
  type Edge = (nat, nat)

  /** The ways extracting a piece can fail: the assertion in `make_edge`, a
      cut coefficient missing from the cut set (`KeyError`), the two
      "impossible" coefficient patterns, a list of VALID vertices of the
      wrong length (`ValueError` when unpacking), no VALID vertex in the
      three-shadow case (`StopIteration`), and the final `assert False`. */
  datatype Error =
    | SameEndpoints
    | MissingEdge(e: Edge)
    | DegenerateCut
    | UnpackMismatch
    | NoValidVertex
    | BadShadowCount

  datatype Result<T> = Ok(value: T) | Err(error: Error) {
    predicate IsFailure() {
      Err?
    }

    function PropagateFailure<U>(): Result<U>
      requires Err?
    {
      Err(error)
    }

    function Extract(): T
      requires Ok?
    {
      value
    }
  }

  /** The solver's output as the script reads it: `points`, `eik.state` and
      the cut set `eik.shadow_cutset`, reduced to each edge's coefficient. */
  datatype Snapshot = Snapshot(points: seq<Point>, state: seq<State>, cutset: map<Edge, real>)

  /** A tetrahedron: four vertex ids. */
  type Tet = c: seq<nat> | |c| == 4 witness [0, 0, 0, 0]

  /** Every vertex of `c` has a position and a state. */
  predicate Indexes(snap: Snapshot, c: seq<nat>) {
    forall l :: l in c ==> l < |snap.points| && l < |snap.state|
  }

  /** Every vertex of every cell has a position and a state. */
  predicate AllIndexed(snap: Snapshot, cells: seq<Tet>) {
    forall j :: 0 <= j < |cells| ==> Indexes(snap, cells[j])
  }

  /** A triangle, as three indices into the vertex buffer. */
  datatype Face = Face(a: int, b: int, c: int)

  /** A piece of the surface: its vertices and its triangles. */
  datatype Fragment = Fragment(verts: seq<Point>, faces: seq<Face>)

  predicate FacesWithin(faces: seq<Face>, lo: int, hi: int) {
    forall k :: 0 <= k < |faces| ==>
      lo <= faces[k].a < hi && lo <= faces[k].b < hi && lo <= faces[k].c < hi
  }

  /** `make_edge`: fails when both ends are the same vertex, and otherwise
      orders the two ends. */
  function MakeEdge(l0: nat, l1: nat): (r: Result<Edge>)
    ensures r.Err? <==> l0 == l1
    ensures r.Err? ==> r.error == SameEndpoints
    ensures r.Ok? ==> r.value.0 < r.value.1 && {r.value.0, r.value.1} == {l0, l1}
  {
    if l0 == l1 then Err(SameEndpoints)
    else if l0 < l1 then Ok((l0, l1))
    else Ok((l1, l0))
  }

  /** Both directions of an edge have the same canonical form. */
  lemma MakeEdgeSymmetric(l0: nat, l1: nat)
    ensures MakeEdge(l0, l1) == MakeEdge(l1, l0)
  {
  }

  /** `get_cut_coef`: the coefficient of the canonical edge, read from the
      side of `l0`. */
  function CutCoef(cutset: map<Edge, real>, l0: nat, l1: nat): (r: Result<real>)
    ensures r.Ok? <==> l0 != l1 && MakeEdge(l0, l1).value in cutset
    ensures l0 == l1 ==> r == Err(SameEndpoints)
    ensures l0 != l1 && MakeEdge(l0, l1).value !in cutset ==> r == Err(MissingEdge(MakeEdge(l0, l1).value))
    ensures r.Ok? && l0 < l1 ==> r.value == cutset[(l0, l1)]
    ensures r.Ok? && l1 < l0 ==> r.value == 1.0 - cutset[(l1, l0)]
  {
    var e :- MakeEdge(l0, l1);
    if e !in cutset then Err(MissingEdge(e))
    else
      var t := cutset[e];
      Ok(if e.0 != l0 then 1.0 - t else t)
  }

  /** Reading the coefficient from the other end gives 1 - t. */
  lemma CutCoefReverse(cutset: map<Edge, real>, l0: nat, l1: nat)
    requires CutCoef(cutset, l0, l1).Ok?
    ensures CutCoef(cutset, l1, l0).Ok?
    ensures CutCoef(cutset, l0, l1).value + CutCoef(cutset, l1, l0).value == 1.0
  {
    MakeEdgeSymmetric(l0, l1);
  }

  /** `get_cut_point`: whichever end it is asked from, the cut point is the
      point at the stored coefficient on the canonical edge. */
  function CutPoint(snap: Snapshot, l0: nat, l1: nat): (r: Result<Point>)
    requires l0 < |snap.points| && l1 < |snap.points|
    ensures r.Ok? <==> CutCoef(snap.cutset, l0, l1).Ok?
    ensures r.Err? ==> r.error == CutCoef(snap.cutset, l0, l1).error
    ensures r.Ok? ==> var e := MakeEdge(l0, l1).value;
      r.value == Lerp(snap.points[e.0], snap.points[e.1], snap.cutset[e])
  {
    var t :- CutCoef(snap.cutset, l0, l1);
    if l1 < l0 then
      LerpReverse(snap.points[l1], snap.points[l0], snap.cutset[(l1, l0)]);
      Ok(Lerp(snap.points[l0], snap.points[l1], t))
    else
      Ok(Lerp(snap.points[l0], snap.points[l1], t))
  }

  /** The cut point of an edge does not depend on the direction asked. */
  lemma CutPointReverse(snap: Snapshot, l0: nat, l1: nat)
    requires l0 < |snap.points| && l1 < |snap.points|
    ensures CutPoint(snap, l0, l1) == CutPoint(snap, l1, l0)
  {
    MakeEdgeSymmetric(l0, l1);
    if CutCoef(snap.cutset, l0, l1).Ok? {
      CutCoefReverse(snap.cutset, l0, l1);
    }
  }

  /** `[l for l in c if state[l] == s]`: the vertices of `c` in state `s`.
      Which vertices it keeps, how often and in what order are the lemmas
      below. */
  function Select(c: seq<nat>, state: seq<State>, s: State): (r: seq<nat>)
    requires forall l :: l in c ==> l < |state|
    ensures |r| <= |c|
  {
    if c == [] then []
    else
      assert c[0] in c;
      assert forall l :: l in c[1..] ==> l in c;
      (if state[c[0]] == s then [c[0]] else []) + Select(c[1..], state, s)
  }

  /** A vertex is selected exactly when it is a vertex of `c` in state `s`. */
  lemma {:induction false} SelectMembers(c: seq<nat>, state: seq<State>, s: State)
    requires forall l :: l in c ==> l < |state|
    ensures forall l :: l in Select(c, state, s) <==> l in c && state[l] == s
    ensures forall k :: 0 <= k < |Select(c, state, s)| ==> Select(c, state, s)[k] in c
  {
    if c != [] {
      assert c[0] in c;
      assert forall l :: l in c[1..] ==> l in c;
      SelectMembers(c[1..], state, s);
      assert c == [c[0]] + c[1..];
    }
  }

  /** One step of the comprehension: the first vertex, then the rest. */
  lemma SelectUnfold(c: seq<nat>, state: seq<State>, s: State)
    requires forall l :: l in c ==> l < |state|
    requires c != []
    ensures c[0] < |state|
    ensures forall l :: l in c[1..] ==> l < |state|
    ensures Select(c, state, s) == (if state[c[0]] == s then [c[0]] else []) + Select(c[1..], state, s)
  {
    assert c[0] in c;
    assert forall l :: l in c[1..] ==> l in c;
  }

  /** Each vertex in state `s` is kept as often as it occurs in `c`, and
      every other vertex is dropped. */
  lemma {:induction false} SelectCounts(c: seq<nat>, state: seq<State>, s: State, l: nat)
    requires forall l :: l in c ==> l < |state|
    ensures multiset(Select(c, state, s))[l] == if l < |state| && state[l] == s then multiset(c)[l] else 0
  {
    if c != [] {
      SelectUnfold(c, state, s);
      SelectCounts(c[1..], state, s, l);
      assert c == [c[0]] + c[1..];
      assert multiset(c) == multiset{c[0]} + multiset(c[1..]);
      if l >= |state| {
        assert l !in c;
      }
    }
  }

  /** Selecting from a concatenation concatenates the selections, so the
      selected vertices keep their order in `c`; with the one-vertex case
      this determines `Select` completely. */
  lemma {:induction false} SelectAppend(a: seq<nat>, b: seq<nat>, state: seq<State>, s: State)
    requires forall l :: l in a ==> l < |state|
    requires forall l :: l in b ==> l < |state|
    ensures forall l :: l in a + b ==> l < |state|
    ensures Select(a + b, state, s) == Select(a, state, s) + Select(b, state, s)
  {
    if a == [] {
      assert a + b == b;
    } else {
      var c := a + b;
      assert c[0] == a[0] && c[1..] == a[1..] + b;
      SelectUnfold(a, state, s);
      SelectAppend(a[1..], b, state, s);
      SelectUnfold(c, state, s);
    }
  }

  /** A single vertex is kept exactly when it is in state `s`. */
  lemma SelectSingle(x: nat, state: seq<State>, s: State)
    requires x < |state|
    ensures Select([x], state, s) == if state[x] == s then [x] else []
  {
    assert [x][1..] == [];
  }

  /** Vertices in two different states are counted apart. */
  lemma {:induction false} SelectDisjoint(c: seq<nat>, state: seq<State>, s1: State, s2: State)
    requires forall l :: l in c ==> l < |state|
    requires s1 != s2
    ensures |Select(c, state, s1)| + |Select(c, state, s2)| <= |c|
  {
    if c != [] {
      assert forall l :: l in c[1..] ==> l in c;
      SelectDisjoint(c[1..], state, s1, s2);
    }
  }

  function Indicator(b: bool): int {
    if b then 1 else 0
  }

  /** The one triangle `[f_offset, f_offset + 1, f_offset + 2]`. */
  function Triangle(fOffset: int): seq<Face> {
    [Face(fOffset, fOffset + 1, fOffset + 2)]
  }

  /** The fan of four triangles round the centroid, local index 4. */
  function Fan(fOffset: int): seq<Face> {
    [Face(fOffset + 0, fOffset + 1, fOffset + 4), Face(fOffset + 1, fOffset + 3, fOffset + 4),
     Face(fOffset + 3, fOffset + 2, fOffset + 4), Face(fOffset + 2, fOffset + 0, fOffset + 4)]
  }

  lemma TriangleWithin(fOffset: int)
    ensures FacesWithin(Triangle(fOffset), fOffset, fOffset + 3)
  {
  }

  lemma FanWithin(fOffset: int)
    ensures FacesWithin(Fan(fOffset), fOffset, fOffset + 5)
  {
  }

  /** The one-SHADOW branch of `get_verts_and_faces`: the SHADOW vertex
      `l0` and the VALID vertices `l1, l2, l3`. */
  function OneShadowPiece(snap: Snapshot, fOffset: int, l0: nat, l1: nat, l2: nat, l3: nat): (r: Result<Fragment>)
    requires l0 < |snap.points| && l1 < |snap.points| && l2 < |snap.points| && l3 < |snap.points|
    ensures r.Ok? ==> r.value == Fragment([], []) || (|r.value.verts| == 3 && r.value.faces == Triangle(fOffset))
    ensures r != Err(BadShadowCount)
  {
    var t01 :- CutCoef(snap.cutset, l0, l1);
    var t02 :- CutCoef(snap.cutset, l0, l2);
    var t03 :- CutCoef(snap.cutset, l0, l3);
    var zeros := Indicator(t01 == 0.0) + Indicator(t02 == 0.0) + Indicator(t03 == 0.0);
    if zeros == 2 then Err(DegenerateCut)
    else if zeros == 3 then Ok(Fragment([], []))
    else
      var p1 := CutPoint(snap, l0, l1).value;
      var p2 := CutPoint(snap, l0, l2).value;
      var p3 := CutPoint(snap, l0, l3).value;
      Ok(Fragment([p1, p2, p3], Triangle(fOffset)))
  }

  /** The two-SHADOW branch of `get_verts_and_faces`: the SHADOW vertices
      `l0, l1` and the VALID vertices `l2, l3`. */
  function TwoShadowPiece(snap: Snapshot, fOffset: int, l0: nat, l1: nat, l2: nat, l3: nat): (r: Result<Fragment>)
    requires l0 < |snap.points| && l1 < |snap.points| && l2 < |snap.points| && l3 < |snap.points|
    ensures r.Ok? ==> || r.value == Fragment([], [])
                      || (|r.value.verts| == 3 && r.value.faces == Triangle(fOffset))
                      || (|r.value.verts| == 5 && r.value.faces == Fan(fOffset))
    ensures r != Err(BadShadowCount)
  {
    var t02 :- CutCoef(snap.cutset, l0, l2);
    var t03 :- CutCoef(snap.cutset, l0, l3);
    var t12 :- CutCoef(snap.cutset, l1, l2);
    var t13 :- CutCoef(snap.cutset, l1, l3);
    if t02 == 1.0 && t12 == 1.0 && t03 == 1.0 && t13 == 1.0 then Ok(Fragment([], []))
    else if t02 == 1.0 && t12 == 1.0 then
      var p03 := CutPoint(snap, l0, l3).value;
      var p13 := CutPoint(snap, l1, l3).value;
      Ok(Fragment([snap.points[l2], p03, p13], Triangle(fOffset)))
    else if t03 == 1.0 && t13 == 1.0 then
      var p02 := CutPoint(snap, l0, l2).value;
      var p12 := CutPoint(snap, l1, l2).value;
      Ok(Fragment([snap.points[l3], p02, p12], Triangle(fOffset)))
    else
      var p02 := CutPoint(snap, l0, l2).value;
      var p03 := CutPoint(snap, l0, l3).value;
      var p12 := CutPoint(snap, l1, l2).value;
      var p13 := CutPoint(snap, l1, l3).value;
      Ok(Fragment([p02, p03, p12, p13, Centroid(p02, p03, p12, p13)], Fan(fOffset)))
  }

  /** The three-SHADOW branch of `get_verts_and_faces`: the SHADOW
      vertices `l0, l1, l2` and the VALID vertex `l3`. */
  function ThreeShadowPiece(snap: Snapshot, fOffset: int, l0: nat, l1: nat, l2: nat, l3: nat): (r: Result<Fragment>)
    requires l0 < |snap.points| && l1 < |snap.points| && l2 < |snap.points| && l3 < |snap.points|
    ensures r.Ok? ==> r.value == Fragment([], []) || (|r.value.verts| == 3 && r.value.faces == Triangle(fOffset))
    ensures r != Err(BadShadowCount)
  {
    var t03 :- CutCoef(snap.cutset, l0, l3);
    var t13 :- CutCoef(snap.cutset, l1, l3);
    var t23 :- CutCoef(snap.cutset, l2, l3);
    var ones := Indicator(t03 == 1.0) + Indicator(t13 == 1.0) + Indicator(t23 == 1.0);
    if ones == 2 then Err(DegenerateCut)
    else if ones == 3 then Ok(Fragment([], []))
    else
      var p0 := CutPoint(snap, l0, l3).value;
      var p1 := CutPoint(snap, l1, l3).value;
      var p2 := CutPoint(snap, l2, l3).value;
      Ok(Fragment([p0, p1, p2], Triangle(fOffset)))
  }

  /** `get_verts_and_faces`: the piece of the surface inside tetrahedron `c`,
      its face indices starting at `fOffset`, by the number of SHADOW
      vertices. Every face it returns indexes its own vertices, and a piece
      is empty, one triangle, or the fan of four triangles round a centroid. */
  function VertsAndFaces(c: Tet, fOffset: int, snap: Snapshot): (r: Result<Fragment>)
    requires Indexes(snap, c)
    ensures r.Ok? ==> FacesWithin(r.value.faces, fOffset, fOffset + |r.value.verts|)
    ensures r.Ok? ==> || (|r.value.verts| == 0 && |r.value.faces| == 0)
                      || (|r.value.verts| == 3 && |r.value.faces| == 1)
                      || (|r.value.verts| == 5 && |r.value.faces| == 4)
    ensures var n := |Select(c, snap.state, Shadow)|;
      r == Err(BadShadowCount) <==> n != 1 && n != 2 && n != 3
  {
    TriangleWithin(fOffset);
    FanWithin(fOffset);
    SelectMembers(c, snap.state, Shadow);
    SelectMembers(c, snap.state, Valid);
    var shadows := Select(c, snap.state, Shadow);
    var valids := Select(c, snap.state, Valid);
    if |shadows| == 1 then
      if |valids| != 3 then Err(UnpackMismatch)
      else OneShadowPiece(snap, fOffset, shadows[0], valids[0], valids[1], valids[2])
    else if |shadows| == 2 then
      if |valids| != 2 then Err(UnpackMismatch)
      else TwoShadowPiece(snap, fOffset, shadows[0], shadows[1], valids[0], valids[1])
    else if |shadows| == 3 then
      if |valids| == 0 then Err(NoValidVertex)
      else ThreeShadowPiece(snap, fOffset, shadows[0], shadows[1], shadows[2], valids[0])
    else
      Err(BadShadowCount)
  }

  /** The cut point read from `l0` is at its coefficient from `l0`. */
  lemma CutPointFrom(snap: Snapshot, l0: nat, l1: nat)
    requires l0 < |snap.points| && l1 < |snap.points|
    requires CutCoef(snap.cutset, l0, l1).Ok?
    ensures CutPoint(snap, l0, l1) == Ok(Lerp(snap.points[l0], snap.points[l1], CutCoef(snap.cutset, l0, l1).value))
  {
    if l1 < l0 {
      LerpReverse(snap.points[l1], snap.points[l0], snap.cutset[(l1, l0)]);
    }
  }

  /** One SHADOW vertex: exactly two zero coefficients fail the assertion,
      three give nothing, and otherwise the piece is the triangle of the cut
      points on the edges from `l0`, in the order of `l1, l2, l3`. */
  lemma OneShadow(snap: Snapshot, fOffset: int, l0: nat, l1: nat, l2: nat, l3: nat)
    requires l0 < |snap.points| && l1 < |snap.points| && l2 < |snap.points| && l3 < |snap.points|
    requires CutCoef(snap.cutset, l0, l1).Ok? && CutCoef(snap.cutset, l0, l2).Ok? && CutCoef(snap.cutset, l0, l3).Ok?
    ensures var p, t01, t02, t03 := snap.points, CutCoef(snap.cutset, l0, l1).value,
                                    CutCoef(snap.cutset, l0, l2).value, CutCoef(snap.cutset, l0, l3).value;
      var zeros := Indicator(t01 == 0.0) + Indicator(t02 == 0.0) + Indicator(t03 == 0.0);
      var r := OneShadowPiece(snap, fOffset, l0, l1, l2, l3);
      && (zeros == 2 ==> r == Err(DegenerateCut))
      && (zeros == 3 ==> r == Ok(Fragment([], [])))
      && (zeros < 2 ==> r == Ok(Fragment([Lerp(p[l0], p[l1], t01), Lerp(p[l0], p[l2], t02), Lerp(p[l0], p[l3], t03)],
                                         [Face(fOffset, fOffset + 1, fOffset + 2)])))
  {
    CutPointFrom(snap, l0, l1);
    CutPointFrom(snap, l0, l2);
    CutPointFrom(snap, l0, l3);
  }

  /** Two SHADOW vertices: all four coefficients 1 give nothing; then
      t02 == t12 == 1 is tested before t03 == t13 == 1, each giving a
      triangle through that VALID vertex; otherwise the four cut points, their
      centroid fifth, and four triangles that all meet at the centroid. */
  lemma TwoShadow(snap: Snapshot, fOffset: int, l0: nat, l1: nat, l2: nat, l3: nat)
    requires l0 < |snap.points| && l1 < |snap.points| && l2 < |snap.points| && l3 < |snap.points|
    requires CutCoef(snap.cutset, l0, l2).Ok? && CutCoef(snap.cutset, l0, l3).Ok?
    requires CutCoef(snap.cutset, l1, l2).Ok? && CutCoef(snap.cutset, l1, l3).Ok?
    ensures var p, t02, t03 := snap.points, CutCoef(snap.cutset, l0, l2).value, CutCoef(snap.cutset, l0, l3).value;
      var t12, t13 := CutCoef(snap.cutset, l1, l2).value, CutCoef(snap.cutset, l1, l3).value;
      var r := TwoShadowPiece(snap, fOffset, l0, l1, l2, l3);
      && (t02 == t03 == t12 == t13 == 1.0 ==> r == Ok(Fragment([], [])))
      && (t02 == t12 == 1.0 && !(t03 == t13 == 1.0) ==>
            r == Ok(Fragment([p[l2], Lerp(p[l0], p[l3], t03), Lerp(p[l1], p[l3], t13)], Triangle(fOffset))))
      && (t03 == t13 == 1.0 && !(t02 == t12 == 1.0) ==>
            r == Ok(Fragment([p[l3], Lerp(p[l0], p[l2], t02), Lerp(p[l1], p[l2], t12)], Triangle(fOffset))))
      && (!(t02 == t12 == 1.0) && !(t03 == t13 == 1.0) ==>
            && r.Ok? && |r.value.verts| == 5 && |r.value.faces| == 4
            && r.value.verts[..4] == [Lerp(p[l0], p[l2], t02), Lerp(p[l0], p[l3], t03),
                                      Lerp(p[l1], p[l2], t12), Lerp(p[l1], p[l3], t13)]
            && r.value.verts[4] == Centroid(r.value.verts[0], r.value.verts[1], r.value.verts[2], r.value.verts[3])
            && (forall k :: 0 <= k < 4 ==> r.value.faces[k].c == fOffset + 4))
  {
    CutPointFrom(snap, l0, l2);
    CutPointFrom(snap, l0, l3);
    CutPointFrom(snap, l1, l2);
    CutPointFrom(snap, l1, l3);
  }

  /** Three SHADOW vertices: exactly two coefficients equal to 1 fail the
      assertion, three give nothing, and otherwise the piece is the triangle
      of the cut points on the edges to `l3`. */
  lemma ThreeShadow(snap: Snapshot, fOffset: int, l0: nat, l1: nat, l2: nat, l3: nat)
    requires l0 < |snap.points| && l1 < |snap.points| && l2 < |snap.points| && l3 < |snap.points|
    requires CutCoef(snap.cutset, l0, l3).Ok? && CutCoef(snap.cutset, l1, l3).Ok? && CutCoef(snap.cutset, l2, l3).Ok?
    ensures var p, t03, t13, t23 := snap.points, CutCoef(snap.cutset, l0, l3).value,
                                    CutCoef(snap.cutset, l1, l3).value, CutCoef(snap.cutset, l2, l3).value;
      var ones := Indicator(t03 == 1.0) + Indicator(t13 == 1.0) + Indicator(t23 == 1.0);
      var r := ThreeShadowPiece(snap, fOffset, l0, l1, l2, l3);
      && (ones == 2 ==> r == Err(DegenerateCut))
      && (ones == 3 ==> r == Ok(Fragment([], [])))
      && (ones < 2 ==> r == Ok(Fragment([Lerp(p[l0], p[l3], t03), Lerp(p[l1], p[l3], t13), Lerp(p[l2], p[l3], t23)],
                                        [Face(fOffset, fOffset + 1, fOffset + 2)])))
  {
    CutPointFrom(snap, l0, l3);
    CutPointFrom(snap, l1, l3);
    CutPointFrom(snap, l2, l3);
  }

  /** A tetrahedron with its first vertex in the shadow and every edge from
      it cut at its midpoint. */
  function HalfCut(p: seq<Point>): (snap: Snapshot)
    requires |p| == 4
    ensures snap.points == p
  {
    Snapshot(p, HalfCutStates, map[(0, 1) := 0.5, (0, 2) := 0.5, (0, 3) := 0.5])
  }

  /** The states of `HalfCut`: vertex 0 in the shadow, the others VALID. */
  const HalfCutStates: seq<State> := [Shadow, Valid, Valid, Valid]

  lemma HalfCutSelectTail()
    ensures Select([2, 3], HalfCutStates, Shadow) == [] && Select([2, 3], HalfCutStates, Valid) == [2, 3]
  {
    assert [2, 3][1..] == [3] && [3][1..] == [];
  }

  lemma HalfCutSelections()
    ensures Select([0, 1, 2, 3], HalfCutStates, Shadow) == [0]
    ensures Select([0, 1, 2, 3], HalfCutStates, Valid) == [1, 2, 3]
  {
    HalfCutSelectTail();
    assert [0, 1, 2, 3][1..] == [1, 2, 3] && [1, 2, 3][1..] == [2, 3];
  }

  lemma HalfCutIndexes(p: seq<Point>)
    requires |p| == 4
    ensures Indexes(HalfCut(p), [0, 1, 2, 3])
  {
  }

  /** In `HalfCut`, vertex 0 is the only SHADOW vertex, so `VertsAndFaces`
      takes the one-SHADOW case. */
  lemma HalfCutDispatch(p: seq<Point>, fOffset: int)
    requires |p| == 4
    ensures Indexes(HalfCut(p), [0, 1, 2, 3])
    ensures VertsAndFaces([0, 1, 2, 3], fOffset, HalfCut(p)) == OneShadowPiece(HalfCut(p), fOffset, 0, 1, 2, 3)
  {
    HalfCutIndexes(p);
    HalfCutSelections();
  }

  /** The one-SHADOW case on `HalfCut` gives the triangle of the three edge
      midpoints. */
  lemma HalfCutPiece(p: seq<Point>, fOffset: int)
    requires |p| == 4
    ensures OneShadowPiece(HalfCut(p), fOffset, 0, 1, 2, 3) == Ok(Fragment(
      [Lerp(p[0], p[1], 0.5), Lerp(p[0], p[2], 0.5), Lerp(p[0], p[3], 0.5)],
      [Face(fOffset, fOffset + 1, fOffset + 2)]))
  {
    var snap := HalfCut(p);
    assert CutCoef(snap.cutset, 0, 1) == Ok(0.5);
    assert CutCoef(snap.cutset, 0, 2) == Ok(0.5);
    assert CutCoef(snap.cutset, 0, 3) == Ok(0.5);
    OneShadow(snap, fOffset, 0, 1, 2, 3);
  }

  /** A tetrahedron whose one SHADOW vertex has every edge cut halfway is
      cut by the single triangle through the three edge midpoints, numbered
      from `fOffset`. */
  lemma HalfCutTriangle(p: seq<Point>, fOffset: int)
    requires |p| == 4
    ensures Indexes(HalfCut(p), [0, 1, 2, 3])
    ensures VertsAndFaces([0, 1, 2, 3], fOffset, HalfCut(p)) == Ok(Fragment(
      [Lerp(p[0], p[1], 0.5), Lerp(p[0], p[2], 0.5), Lerp(p[0], p[3], 0.5)],
      [Face(fOffset, fOffset + 1, fOffset + 2)]))
  {
    HalfCutDispatch(p, fOffset);
    HalfCutPiece(p, fOffset);
  }

  /** The test that selects `Lc` in the driver: `c` has a VALID and a SHADOW vertex. */
  predicate Straddles(c: Tet, state: seq<State>) {
    (exists l :: l in c && l < |state| && state[l] == Valid) && (exists l :: l in c && l < |state| && state[l] == Shadow)
  }

  /** A straddling tetrahedron has one to three SHADOW vertices, so it never
      reaches the final `assert False`. */
  lemma StraddlingShadowCount(c: Tet, fOffset: int, snap: Snapshot)
    requires Indexes(snap, c) && Straddles(c, snap.state)
    ensures 1 <= |Select(c, snap.state, Shadow)| <= 3
    ensures VertsAndFaces(c, fOffset, snap) != Err(BadShadowCount)
  {
    var lv :| lv in c && lv < |snap.state| && snap.state[lv] == Valid;
    var ls :| ls in c && ls < |snap.state| && snap.state[ls] == Shadow;
    SelectMembers(c, snap.state, Valid);
    SelectMembers(c, snap.state, Shadow);
    assert lv in Select(c, snap.state, Valid);
    assert ls in Select(c, snap.state, Shadow);
    SelectDisjoint(c, snap.state, Shadow, Valid);
  }

  /** `Lc`: the indices, in increasing order, of the cells from `i` on that
      straddle the boundary. */
  function BoundaryCells(cells: seq<Tet>, state: seq<State>, i: nat): (lc: seq<nat>)
    requires i <= |cells|
    ensures forall j :: j in lc <==> i <= j < |cells| && Straddles(cells[j], state)
    ensures forall k :: 0 <= k < |lc| ==> i <= lc[k] < |cells|
    ensures forall a, b :: 0 <= a < b < |lc| ==> lc[a] < lc[b]
    decreases |cells| - i
  {
    if i == |cells| then []
    else (if Straddles(cells[i], state) then [i] else []) + BoundaryCells(cells, state, i + 1)
  }

  /** The surface built from `tets` in order: each piece's face indices start
      where the vertices gathered so far end. */
  function Surface(tets: seq<Tet>, snap: Snapshot): Result<Fragment>
    requires AllIndexed(snap, tets)
    decreases |tets|
  {
    if tets == [] then Ok(Fragment([], []))
    else
      var acc :- Surface(tets[..|tets| - 1], snap);
      var piece :- VertsAndFaces(tets[|tets| - 1], |acc.verts|, snap);
      Ok(Fragment(acc.verts + piece.verts, acc.faces + piece.faces))
  }

  /** One more cell extends the surface of the cells before it by its piece,
      or fails with the piece's error. */
  lemma SurfaceExtends(tets: seq<Tet>, snap: Snapshot, i: nat)
    requires AllIndexed(snap, tets) && i < |tets|
    requires AllIndexed(snap, tets[..i]) && Surface(tets[..i], snap).Ok?
    ensures AllIndexed(snap, tets[..i + 1])
    ensures var acc := Surface(tets[..i], snap).value;
      var piece := VertsAndFaces(tets[i], |acc.verts|, snap);
      Surface(tets[..i + 1], snap)
        == if piece.Err? then Err(piece.error) else Ok(Fragment(acc.verts + piece.value.verts, acc.faces + piece.value.faces))
  {
    assert tets[..i + 1][..i] == tets[..i];
  }

  /** Appending a piece whose faces index its own vertices, shifted past the
      buffer, keeps every face in range. */
  lemma Appended(acc: Fragment, piece: Fragment)
    requires FacesWithin(acc.faces, 0, |acc.verts|)
    requires FacesWithin(piece.faces, |acc.verts|, |acc.verts| + |piece.verts|)
    ensures FacesWithin(acc.faces + piece.faces, 0, |acc.verts + piece.verts|)
  {
    var F := acc.faces + piece.faces;
    forall k | 0 <= k < |F|
      ensures 0 <= F[k].a < |acc.verts + piece.verts|
      ensures 0 <= F[k].b < |acc.verts + piece.verts|
      ensures 0 <= F[k].c < |acc.verts + piece.verts|
    {
      if k >= |acc.faces| {
        assert F[k] == piece.faces[k - |acc.faces|];
      }
    }
  }

  /** Every face of the surface indexes its vertex buffer. */
  lemma {:induction false} SurfaceFacesInRange(tets: seq<Tet>, snap: Snapshot)
    requires AllIndexed(snap, tets)
    requires Surface(tets, snap).Ok?
    ensures FacesWithin(Surface(tets, snap).value.faces, 0, |Surface(tets, snap).value.verts|)
    decreases |tets|
  {
    if tets != [] {
      var init := tets[..|tets| - 1];
      SurfaceFacesInRange(init, snap);
      var acc := Surface(init, snap).value;
      var piece := VertsAndFaces(tets[|tets| - 1], |acc.verts|, snap).value;
      Appended(acc, piece);
    }
  }

  /** Once a prefix fails, the whole surface fails with the same error. */
  lemma {:induction false} SurfaceErrPersists(tets: seq<Tet>, snap: Snapshot, i: nat)
    requires AllIndexed(snap, tets)
    requires i <= |tets|
    requires Surface(tets[..i], snap).Err?
    ensures Surface(tets, snap) == Surface(tets[..i], snap)
    decreases |tets| - i
  {
    if i < |tets| {
      assert tets[..i + 1][..i] == tets[..i];
      SurfaceErrPersists(tets, snap, i + 1);
    } else {
      assert tets[..i] == tets;
    }
  }

  /** `cells[Lc]`. */
  function Pick(cells: seq<Tet>, lc: seq<nat>): (tets: seq<Tet>)
    requires forall k :: 0 <= k < |lc| ==> lc[k] < |cells|
    ensures |tets| == |lc|
    ensures forall k :: 0 <= k < |lc| ==> tets[k] == cells[lc[k]]
  {
    seq(|lc|, k requires 0 <= k < |lc| => cells[lc[k]])
  }

  /** The driver loop: append each cell's piece to `V` and `F`, passing
      `len(V)` as the face offset. The result is the surface of `tets`, and
      every face indexes `V`. */
  method Accumulate(tets: seq<Tet>, snap: Snapshot) returns (r: Result<Fragment>)
    requires AllIndexed(snap, tets)
    ensures r == Surface(tets, snap)
    ensures r.Ok? ==> FacesWithin(r.value.faces, 0, |r.value.verts|)
  {
    var V: seq<Point> := [];
    var F: seq<Face> := [];
    var i := 0;
    while i < |tets|
      invariant 0 <= i <= |tets|
      invariant Surface(tets[..i], snap) == Ok(Fragment(V, F))
      invariant FacesWithin(F, 0, |V|)
    {
      SurfaceExtends(tets, snap, i);
      var piece := VertsAndFaces(tets[i], |V|, snap);
      if piece.Err? {
        SurfaceErrPersists(tets, snap, i + 1);
        return Err(piece.error);
      }
      Appended(Fragment(V, F), piece.value);
      V := V + piece.value.verts;
      F := F + piece.value.faces;
      i := i + 1;
    }
    assert tets[..i] == tets;
    r := Ok(Fragment(V, F));
  }

  /** The driver: select the straddling cells, then accumulate their
      pieces. The result is the surface of the straddling cells in order, and
      every face indexes `V`. */
  method ExtractSurface(cells: seq<Tet>, snap: Snapshot) returns (r: Result<Fragment>)
    requires AllIndexed(snap, cells)
    ensures r == Surface(Pick(cells, BoundaryCells(cells, snap.state, 0)), snap)
    ensures r.Ok? ==> FacesWithin(r.value.faces, 0, |r.value.verts|)
  {
    var lc := BoundaryCells(cells, snap.state, 0);
    var tets := Pick(cells, lc);
    assert AllIndexed(snap, tets);
    r := Accumulate(tets, snap);
  }
}
