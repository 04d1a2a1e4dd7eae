/** The two constraint sets of the curved-cells output program, one per
    coordinate direction: every vertex dof is fixed to zero, and the midpoint
    dof of every boundary face is fixed either to zero (outer circle) or to
    the shift that moves it onto the inner circle. Both sets are closed and
    then used to distribute the solutions of two Laplace problems. */
module BoundaryConstraints {
  import opened Common
  import opened ConstraintLines
  import opened Closure
  import opened VectorExpansion
  import opened Constraints

  /** A face of a cell: whether it lies on the boundary, the dof at its
      midpoint, the distance of its second vertex from the centre, and the
      shift (one value per coordinate direction) that moves its midpoint onto
      the inner circle. */
  datatype Face = Face(atBoundary: bool, mid: nat, radius: real, shift: (real, real))

  /** A cell: the dofs at its vertices and its faces. */
  datatype Cell = Cell(vertices: seq<nat>, faces: seq<Face>)

  /** The two radii of the ring and the tolerance that decides on which
      circle a boundary face lies. */
  datatype Ring = Ring(inner: real, outer: real, eps: real)

  /** What a boundary face's midpoint receives. */
  datatype Treatment = ZeroPlusShift | ZeroOnly | Unexpected

  function Abs(x: real): (r: real)
    ensures r >= 0.0 && (r == x || r == -x)
  {
    if x < 0.0 then -x else x
  }

  /** The inner circle is tested first, then the outer one; a face on
      neither is an internal error. */
  function Classify(f: Face, g: Ring): Treatment
  {
    if Abs(f.radius - g.inner) < g.eps then ZeroPlusShift
    else if Abs(f.radius - g.outer) < g.eps then ZeroOnly
    else Unexpected
  }

  /** When the circles are at least 2·eps apart, a face is treated as lying
      on a circle exactly when it is within eps of it. */
  lemma ClassifyExact(f: Face, g: Ring)
    requires Abs(g.inner - g.outer) >= 2.0 * g.eps
    ensures Classify(f, g) == ZeroPlusShift <==> Abs(f.radius - g.inner) < g.eps
    ensures Classify(f, g) == ZeroOnly <==> Abs(f.radius - g.outer) < g.eps
    ensures Classify(f, g) == Unexpected <==>
      Abs(f.radius - g.inner) >= g.eps && Abs(f.radius - g.outer) >= g.eps
  {
  }

  /** Coordinate i (0 or 1) of a pair. */
  function Component(s: (real, real), i: nat): real
  {
    if i == 0 then s.0 else s.1
  }

  /** cell->at_boundary(): some face of the cell lies on the boundary. */
  predicate AtBoundary(c: Cell)
  {
    exists x :: 0 <= x < |c.faces| && c.faces[x].atBoundary
  }

  predicate BadFace(f: Face, g: Ring)
  {
    f.atBoundary && Classify(f, g) == Unexpected
  }

  predicate HasBadFace(fs: seq<Face>, g: Ring)
  {
    exists x :: 0 <= x < |fs| && BadFace(fs[x], g)
  }

  /** Some boundary face of the mesh lies on neither circle. */
  predicate HasUnexpected(cs: seq<Cell>, g: Ring)
  {
    exists a :: 0 <= a < |cs| && HasBadFace(cs[a].faces, g)
  }

  /** No line names a master. */
  predicate EntryFree(L: Lines)
  {
    forall d :: d in L ==> L[d].entries == []
  }

  // ---------------------------------------------------------------------
  // What the loops do to the lines of coordinate i.

  /** constrain_dof_to_zero on every dof of ds that is not yet constrained. */
  function ZeroLines(L: Lines, ds: set<nat>): (r: Lines)
    ensures r.Keys == L.Keys + ds
  {
    map d | d in L.Keys + ds :: if d in L then L[d] else Line([], 0.0)
  }

  /** One boundary face treated for coordinate i: constrain_dof_to_zero on
      its midpoint, followed, on the inner circle, by set_inhomogeneity with
      the shift's coordinate i. */
  function AfterFace(L: Lines, f: Face, i: nat, g: Ring): (r: Lines)
  {
    if !f.atBoundary then L
    else match Classify(f, g)
      case ZeroPlusShift =>
        var z := ZeroLines(L, {f.mid});
        z[f.mid := Line(z[f.mid].entries, Component(f.shift, i))]
      case ZeroOnly => ZeroLines(L, {f.mid})
      case Unexpected => L
  }

  function AfterFaces(L: Lines, fs: seq<Face>, i: nat, g: Ring): Lines
  {
    if fs == [] then L else AfterFace(AfterFaces(L, fs[..|fs| - 1], i, g), fs[|fs| - 1], i, g)
  }

  /** One cell: its vertices fixed to zero, then, on a boundary cell, its
      boundary faces treated. */
  function AfterCell(L: Lines, c: Cell, i: nat, g: Ring): Lines
  {
    var z := ZeroLines(L, VertexSet(c));
    if AtBoundary(c) then AfterFaces(z, c.faces, i, g) else z
  }

  function AfterCells(L: Lines, cs: seq<Cell>, i: nat, g: Ring): Lines
  {
    if cs == [] then L else AfterCell(AfterCells(L, cs[..|cs| - 1], i, g), cs[|cs| - 1], i, g)
  }

  // ---------------------------------------------------------------------
  // The constraints the loops build.

  /** The midpoint dofs of the boundary faces of a list. */
  function BoundaryMids(fs: seq<Face>): set<nat>
  {
    set x | 0 <= x < |fs| && fs[x].atBoundary :: fs[x].mid
  }

  /** Every vertex dof and boundary midpoint dof of a mesh. */
  function MeshDofs(cs: seq<Cell>): set<nat>
  {
    MeshVertices(cs) +
    (set a, x | 0 <= a < |cs| && 0 <= x < |cs[a].faces| && cs[a].faces[x].atBoundary :: cs[a].faces[x].mid)
  }

  /** The line a boundary face's midpoint gets for coordinate i. */
  function FaceLine(f: Face, i: nat, g: Ring): Line
  {
    Line([], if Classify(f, g) == ZeroPlusShift then Component(f.shift, i) else 0.0)
  }

  /** A mesh in which every boundary face has a midpoint dof of its own:
      no two boundary faces share one and no vertex carries one. */
  predicate WellFormed(cs: seq<Cell>)
  {
    (forall a, x, b, y ::
       (0 <= a < |cs| && 0 <= x < |cs[a].faces| && 0 <= b < |cs| && 0 <= y < |cs[b].faces| &&
        cs[a].faces[x].atBoundary && cs[b].faces[y].atBoundary && (a, x) != (b, y)) ==>
       cs[a].faces[x].mid != cs[b].faces[y].mid) &&
    (forall a, x, b, v ::
       (0 <= a < |cs| && 0 <= x < |cs[a].faces| && 0 <= b < |cs| &&
        cs[a].faces[x].atBoundary && v in cs[b].vertices) ==>
       cs[a].faces[x].mid != v)
  }

  /** No two boundary faces of a list share a midpoint dof. */
  predicate OwnMids(fs: seq<Face>)
  {
    forall x, y :: (0 <= x < y < |fs| && fs[x].atBoundary && fs[y].atBoundary) ==> fs[x].mid != fs[y].mid
  }

  lemma {:induction false} AfterFacesKeys(L: Lines, fs: seq<Face>, i: nat, g: Ring)
    requires !HasBadFace(fs, g)
    ensures AfterFaces(L, fs, i, g).Keys == L.Keys + BoundaryMids(fs)
    ensures EntryFree(L) ==> EntryFree(AfterFaces(L, fs, i, g))
    ensures forall d :: d in L && d !in BoundaryMids(fs) ==> AfterFaces(L, fs, i, g)[d] == L[d]
  {
    if fs != [] {
      var n := |fs| - 1;
      assert !HasBadFace(fs[..n], g) by {
        forall x | 0 <= x < n ensures !BadFace(fs[..n][x], g) {
          assert fs[..n][x] == fs[x];
          assert !BadFace(fs[x], g);
        }
      }
      assert !BadFace(fs[n], g);
      AfterFacesKeys(L, fs[..n], i, g);
      assert BoundaryMids(fs) == BoundaryMids(fs[..n]) + (if fs[n].atBoundary then {fs[n].mid} else {}) by {
        forall m | m in BoundaryMids(fs)
          ensures m in BoundaryMids(fs[..n]) + (if fs[n].atBoundary then {fs[n].mid} else {})
        {
          var x :| 0 <= x < |fs| && fs[x].atBoundary && fs[x].mid == m;
          if x < n { assert fs[..n][x] == fs[x]; }
        }
        forall m | m in BoundaryMids(fs[..n]) ensures m in BoundaryMids(fs) {
          var x :| 0 <= x < n && fs[..n][x].atBoundary && fs[..n][x].mid == m;
          assert fs[x] == fs[..n][x];
        }
      }
    }
  }

  /** With midpoints not yet constrained and not shared, the faces give
      each boundary midpoint its line. */
  lemma {:induction false} AfterFacesLines(L: Lines, fs: seq<Face>, i: nat, g: Ring)
    requires !HasBadFace(fs, g)
    requires BoundaryMids(fs) !! L.Keys
    requires OwnMids(fs)
    ensures forall x :: 0 <= x < |fs| && fs[x].atBoundary ==>
      fs[x].mid in AfterFaces(L, fs, i, g) && AfterFaces(L, fs, i, g)[fs[x].mid] == FaceLine(fs[x], i, g)
  {
    if fs != [] {
      var n := |fs| - 1;
      var prev := AfterFaces(L, fs[..n], i, g);
      assert !HasBadFace(fs[..n], g) by {
        forall x | 0 <= x < n ensures !BadFace(fs[..n][x], g) {
          assert fs[..n][x] == fs[x];
          assert !BadFace(fs[x], g);
        }
      }
      assert !BadFace(fs[n], g);
      assert BoundaryMids(fs[..n]) <= BoundaryMids(fs) by {
        forall m | m in BoundaryMids(fs[..n]) ensures m in BoundaryMids(fs) {
          var x :| 0 <= x < n && fs[..n][x].atBoundary && fs[..n][x].mid == m;
          assert fs[x] == fs[..n][x];
        }
      }
      AfterFacesLines(L, fs[..n], i, g);
      AfterFacesKeys(L, fs[..n], i, g);
      if fs[n].atBoundary {
        forall m | m in BoundaryMids(fs[..n]) ensures m != fs[n].mid {
          var z :| 0 <= z < n && fs[..n][z].atBoundary && fs[..n][z].mid == m;
          assert fs[z] == fs[..n][z];
        }
        assert fs[n].mid in BoundaryMids(fs);
      }
      forall x | 0 <= x < |fs| && fs[x].atBoundary
        ensures fs[x].mid in AfterFaces(L, fs, i, g) && AfterFaces(L, fs, i, g)[fs[x].mid] == FaceLine(fs[x], i, g)
      {
        if x < n {
          assert fs[..n][x] == fs[x];
          assert prev[fs[x].mid] == FaceLine(fs[x], i, g);
        }
      }
    }
  }

  lemma WellFormedPrefix(cs: seq<Cell>, g: Ring)
    requires cs != [] && WellFormed(cs) && !HasUnexpected(cs, g)
    ensures WellFormed(cs[..|cs| - 1]) && !HasUnexpected(cs[..|cs| - 1], g)
    ensures !HasBadFace(cs[|cs| - 1].faces, g)
  {
    var n := |cs| - 1;
    var p := cs[..n];
    forall a | 0 <= a < n ensures p[a] == cs[a] { }
    assert !HasBadFace(cs[n].faces, g);
  }

  /** The dofs at the vertices of a cell. */
  function VertexSet(c: Cell): set<nat>
  {
    set k | 0 <= k < |c.vertices| :: c.vertices[k]
  }

  /** The vertex dofs of a mesh. */
  function MeshVertices(cs: seq<Cell>): set<nat>
  {
    set a, k | 0 <= a < |cs| && 0 <= k < |cs[a].vertices| :: cs[a].vertices[k]
  }

  lemma MeshDofsSnoc(cs: seq<Cell>)
    requires cs != []
    ensures MeshVertices(cs) == MeshVertices(cs[..|cs| - 1]) + VertexSet(cs[|cs| - 1])
    ensures MeshDofs(cs) == MeshDofs(cs[..|cs| - 1]) + VertexSet(cs[|cs| - 1]) + BoundaryMids(cs[|cs| - 1].faces)
  {
    var n := |cs| - 1;
    var p, c := cs[..n], cs[n];
    forall a | 0 <= a < n ensures p[a] == cs[a] { }
    forall d | d in MeshVertices(cs) ensures d in MeshVertices(p) + VertexSet(c) {
      var a, k :| 0 <= a < |cs| && 0 <= k < |cs[a].vertices| && cs[a].vertices[k] == d;
      if a < n { assert p[a].vertices[k] == d; } else { assert c.vertices[k] == d; }
    }
    forall d | d in MeshVertices(p) ensures d in MeshVertices(cs) {
      var a, k :| 0 <= a < n && 0 <= k < |p[a].vertices| && p[a].vertices[k] == d;
      assert cs[a].vertices[k] == d;
    }
    forall d | d in VertexSet(c) ensures d in MeshVertices(cs) {
      var k :| 0 <= k < |c.vertices| && c.vertices[k] == d;
      assert cs[n].vertices[k] == d;
    }
    forall d | d in BoundaryMids(c.faces) ensures d in MeshDofs(cs) {
      var x :| 0 <= x < |c.faces| && c.faces[x].atBoundary && c.faces[x].mid == d;
      assert cs[n].faces[x].mid == d;
    }
    forall d | d in MeshDofs(cs) ensures d in MeshDofs(p) + VertexSet(c) + BoundaryMids(c.faces) {
      if d !in MeshVertices(cs) {
        var a, x :| 0 <= a < |cs| && 0 <= x < |cs[a].faces| && cs[a].faces[x].atBoundary && cs[a].faces[x].mid == d;
        if a < n { assert p[a].faces[x].mid == d; } else { assert c.faces[x].mid == d; }
      }
    }
    forall d | d in MeshDofs(p) ensures d in MeshDofs(cs) {
      if d !in MeshVertices(p) {
        var a, x :| 0 <= a < n && 0 <= x < |p[a].faces| && p[a].faces[x].atBoundary && p[a].faces[x].mid == d;
        assert cs[a].faces[x].mid == d;
      }
    }
  }

  /** What a well-formed mesh guarantees about its last cell: its boundary
      midpoints are new, distinct, and carry no vertex. */
  lemma WellFormedLast(cs: seq<Cell>)
    requires cs != [] && WellFormed(cs)
    ensures BoundaryMids(cs[|cs| - 1].faces) !! MeshDofs(cs[..|cs| - 1]) + VertexSet(cs[|cs| - 1])
    ensures MeshVertices(cs) !! BoundaryMids(cs[|cs| - 1].faces)
    ensures VertexSet(cs[|cs| - 1]) * MeshDofs(cs[..|cs| - 1]) <= MeshVertices(cs[..|cs| - 1])
    ensures OwnMids(cs[|cs| - 1].faces)
  {
    var n := |cs| - 1;
    var p, c := cs[..n], cs[n];
    forall a | 0 <= a < n ensures p[a] == cs[a] { }
    forall m | m in BoundaryMids(c.faces) ensures m !in MeshDofs(p) + VertexSet(c) && m !in MeshVertices(cs) {
      var x :| 0 <= x < |c.faces| && c.faces[x].atBoundary && c.faces[x].mid == m;
      assert cs[n].faces[x].mid == m;
      forall b, k | 0 <= b < |cs| && 0 <= k < |cs[b].vertices| ensures cs[b].vertices[k] != m {
        assert cs[b].vertices[k] in cs[b].vertices;
      }
      forall b, y | 0 <= b < n && 0 <= y < |p[b].faces| && p[b].faces[y].atBoundary ensures p[b].faces[y].mid != m {
        assert (b, y) != (n, x);
        assert cs[b].faces[y] == p[b].faces[y];
      }
      forall k | 0 <= k < |c.vertices| ensures c.vertices[k] != m {
        assert cs[n].vertices[k] in cs[n].vertices;
      }
      forall b, k | 0 <= b < n && 0 <= k < |p[b].vertices| ensures p[b].vertices[k] != m {
        assert cs[b].vertices[k] in cs[b].vertices;
      }
    }
    forall d | d in VertexSet(c) && d in MeshDofs(p) ensures d in MeshVertices(p) {
      var k :| 0 <= k < |c.vertices| && c.vertices[k] == d;
      assert d in cs[n].vertices;
      forall b, y | 0 <= b < n && 0 <= y < |p[b].faces| && p[b].faces[y].atBoundary ensures p[b].faces[y].mid != d {
        assert cs[b].faces[y] == p[b].faces[y];
      }
    }
    forall x, y | 0 <= x < y < |c.faces| && c.faces[x].atBoundary && c.faces[y].atBoundary
      ensures c.faces[x].mid != c.faces[y].mid
    {
      assert (n, x) != (n, y);
    }
  }

  /** One cell applied to lines that know none of its boundary midpoints. */
  lemma AfterCellFacts(R: Lines, c: Cell, i: nat, g: Ring)
    requires !HasBadFace(c.faces, g) && EntryFree(R)
    requires BoundaryMids(c.faces) !! R.Keys + VertexSet(c)
    requires OwnMids(c.faces)
    ensures AfterCell(R, c, i, g).Keys == R.Keys + VertexSet(c) + BoundaryMids(c.faces)
    ensures EntryFree(AfterCell(R, c, i, g))
    ensures forall d :: d in R && d !in BoundaryMids(c.faces) ==> AfterCell(R, c, i, g)[d] == R[d]
    ensures forall d :: d in VertexSet(c) && d !in R ==> AfterCell(R, c, i, g)[d] == Line([], 0.0)
    ensures forall x :: 0 <= x < |c.faces| && c.faces[x].atBoundary ==>
      AfterCell(R, c, i, g)[c.faces[x].mid] == FaceLine(c.faces[x], i, g)
  {
    assert (set v | v in c.vertices) == VertexSet(c) by {
      forall v | v in c.vertices ensures v in VertexSet(c) {
        var k :| 0 <= k < |c.vertices| && c.vertices[k] == v;
      }
    }
    var Z := ZeroLines(R, VertexSet(c));
    if AtBoundary(c) {
      AfterFacesKeys(Z, c.faces, i, g);
      AfterFacesLines(Z, c.faces, i, g);
    } else {
      assert BoundaryMids(c.faces) == {};
    }
  }

  /** The loops of a mesh whose boundary faces all lie on one of the two
      circles constrain exactly its vertex and boundary midpoint dofs, all
      without entries; on a mesh where every boundary face has a midpoint
      dof of its own, every vertex dof is fixed to zero and every boundary
      midpoint to its face's value. */
  lemma {:induction false} AfterCellsLines(cs: seq<Cell>, i: nat, g: Ring)
    requires WellFormed(cs) && !HasUnexpected(cs, g)
    ensures AfterCells(map[], cs, i, g).Keys == MeshDofs(cs)
    ensures EntryFree(AfterCells(map[], cs, i, g))
    ensures forall d :: d in MeshVertices(cs) ==> AfterCells(map[], cs, i, g)[d] == Line([], 0.0)
    ensures forall a, x :: 0 <= a < |cs| && 0 <= x < |cs[a].faces| && cs[a].faces[x].atBoundary ==>
      AfterCells(map[], cs, i, g)[cs[a].faces[x].mid] == FaceLine(cs[a].faces[x], i, g)
  {
    if cs == [] {
      return;
    }
    var n := |cs| - 1;
    var p, c := cs[..n], cs[n];
    WellFormedPrefix(cs, g);
    AfterCellsLines(p, i, g);
    MeshDofsSnoc(cs);
    WellFormedLast(cs);
    var R := AfterCells(map[], p, i, g);
    AfterCellFacts(R, c, i, g);
    var result := AfterCells(map[], cs, i, g);
    assert result == AfterCell(R, c, i, g);
    forall a, x | 0 <= a < |cs| && 0 <= x < |cs[a].faces| && cs[a].faces[x].atBoundary
      ensures result[cs[a].faces[x].mid] == FaceLine(cs[a].faces[x], i, g)
    {
      if a < n {
        var m := cs[a].faces[x].mid;
        assert p[a].faces[x] == cs[a].faces[x];
        assert m in MeshDofs(p);
      }
    }
  }

  // ---------------------------------------------------------------------
  // The loops.

  /** The vertex loop's body for one vertex dof d, for both sets: d is
      fixed to zero only where it is not constrained yet, so no line that
      exists is touched. z0 and z1 say where constrain_dof_to_zero ran. */
  method FixVertex(m0: AffineConstraints, m1: AffineConstraints, d: nat) returns (ghost z0: bool, ghost z1: bool)
    requires m0 != m1 && m0.Valid() && m1.Valid() && !m0.closed && !m1.closed
    modifies m0, m1
    ensures m0.Valid() && m1.Valid() && !m0.closed && !m1.closed
    ensures m0.lines == ZeroLines(old(m0.lines), {d}) && m1.lines == ZeroLines(old(m1.lines), {d})
    ensures z0 == (d !in old(m0.lines)) && z1 == (d !in old(m1.lines))
  {
    z0, z1 := false, false;
    for i := 0 to 2
      invariant m0.Valid() && m1.Valid() && !m0.closed && !m1.closed
      invariant m0.lines == if i > 0 then ZeroLines(old(m0.lines), {d}) else old(m0.lines)
      invariant m1.lines == if i > 1 then ZeroLines(old(m1.lines), {d}) else old(m1.lines)
      invariant z0 == (i > 0 && d !in old(m0.lines)) && z1 == (i > 1 && d !in old(m1.lines))
    {
      var c := if i == 0 then m0 else m1;
      if !c.IsConstrained(d) {
        var r := c.ConstrainDofToZero(d);
        if i == 0 { z0 := true; } else { z1 := true; }
      }
    }
  }

  /** The vertex loop of one cell. zs0 and zs1 list the dofs
      constrain_dof_to_zero ran on: each newly constrained dof once, and no
      other. */
  method FixVertices(m0: AffineConstraints, m1: AffineConstraints, c: Cell)
    returns (ghost zs0: seq<nat>, ghost zs1: seq<nat>)
    requires m0 != m1 && m0.Valid() && m1.Valid() && !m0.closed && !m1.closed
    modifies m0, m1
    ensures m0.Valid() && m1.Valid() && !m0.closed && !m1.closed
    ensures m0.lines == ZeroLines(old(m0.lines), VertexSet(c)) && m1.lines == ZeroLines(old(m1.lines), VertexSet(c))
    ensures Distinct(zs0) && Elems(zs0) == m0.lines.Keys - old(m0.lines).Keys
    ensures Distinct(zs1) && Elems(zs1) == m1.lines.Keys - old(m1.lines).Keys
  {
    zs0, zs1 := [], [];
    for k := 0 to |c.vertices|
      invariant m0.Valid() && m1.Valid() && !m0.closed && !m1.closed
      invariant m0.lines == ZeroLines(old(m0.lines), VertexPrefix(c, k))
      invariant m1.lines == ZeroLines(old(m1.lines), VertexPrefix(c, k))
      invariant Distinct(zs0) && forall x :: x in zs0 <==> x in m0.lines && x !in old(m0.lines)
      invariant Distinct(zs1) && forall x :: x in zs1 <==> x in m1.lines && x !in old(m1.lines)
    {
      var d := c.vertices[k];
      assert VertexPrefix(c, k + 1) == VertexPrefix(c, k) + {d};
      ZeroLinesUnion(old(m0.lines), VertexPrefix(c, k), {d});
      ZeroLinesUnion(old(m1.lines), VertexPrefix(c, k), {d});
      var z0, z1 := FixVertex(m0, m1, d);
      if z0 {
        DistinctSnoc(zs0, d);
        zs0 := zs0 + [d];
      }
      if z1 {
        DistinctSnoc(zs1, d);
        zs1 := zs1 + [d];
      }
    }
    assert VertexPrefix(c, |c.vertices|) == VertexSet(c);
    assert Elems(zs0) == m0.lines.Keys - old(m0.lines).Keys;
    assert Elems(zs1) == m1.lines.Keys - old(m1.lines).Keys;
  }

  /** The dofs of a cell's first k vertices. */
  function VertexPrefix(c: Cell, k: nat): set<nat>
    requires k <= |c.vertices|
  {
    set j | 0 <= j < k :: c.vertices[j]
  }

  lemma ZeroLinesUnion(L: Lines, A: set<nat>, B: set<nat>)
    ensures ZeroLines(ZeroLines(L, A), B) == ZeroLines(L, A + B)
  {
  }

  /** The elements of a list. */
  function Elems(s: seq<nat>): set<nat>
  {
    set x | x in s
  }

  lemma DistinctSnoc(s: seq<nat>, d: nat)
    requires Distinct(s) && d !in s
    ensures Distinct(s + [d])
  {
  }

  /** The treatment of one boundary face, for both sets. */
  method TreatFace(m0: AffineConstraints, m1: AffineConstraints, f: Face, g: Ring) returns (o: Outcome)
    requires m0 != m1 && m0.Valid() && m1.Valid() && !m0.closed && !m1.closed
    requires f.atBoundary
    modifies m0, m1
    ensures m0.Valid() && m1.Valid() && !m0.closed && !m1.closed
    ensures o == if Classify(f, g) == Unexpected then Fail(InternalError) else Pass
    ensures m0.lines == AfterFace(old(m0.lines), f, 0, g) && m1.lines == AfterFace(old(m1.lines), f, 1, g)
  {
    var t := Classify(f, g);
    if t == ZeroPlusShift {
      for i := 0 to 2
        invariant m0.Valid() && m1.Valid() && !m0.closed && !m1.closed
        invariant m0.lines == if i > 0 then AfterFace(old(m0.lines), f, 0, g) else old(m0.lines)
        invariant m1.lines == if i > 1 then AfterFace(old(m1.lines), f, 1, g) else old(m1.lines)
      {
        var c := if i == 0 then m0 else m1;
        var r := c.ConstrainDofToZero(f.mid);
        r := c.SetInhomogeneity(f.mid, Component(f.shift, i));
      }
    } else if t == ZeroOnly {
      for i := 0 to 2
        invariant m0.Valid() && m1.Valid() && !m0.closed && !m1.closed
        invariant m0.lines == if i > 0 then AfterFace(old(m0.lines), f, 0, g) else old(m0.lines)
        invariant m1.lines == if i > 1 then AfterFace(old(m1.lines), f, 1, g) else old(m1.lines)
      {
        var c := if i == 0 then m0 else m1;
        var r := c.ConstrainDofToZero(f.mid);
      }
    } else {
      return Fail(InternalError);
    }
    o := Pass;
  }

  /** The face loop of a boundary cell; it stops at the first face that
      lies on neither circle. */
  method TreatFaces(m0: AffineConstraints, m1: AffineConstraints, fs: seq<Face>, g: Ring) returns (o: Outcome)
    requires m0 != m1 && m0.Valid() && m1.Valid() && !m0.closed && !m1.closed
    modifies m0, m1
    ensures m0.Valid() && m1.Valid() && !m0.closed && !m1.closed
    ensures o == if HasBadFace(fs, g) then Fail(InternalError) else Pass
    ensures o.Pass? ==> m0.lines == AfterFaces(old(m0.lines), fs, 0, g) && m1.lines == AfterFaces(old(m1.lines), fs, 1, g)
  {
    for k := 0 to |fs|
      invariant m0.Valid() && m1.Valid() && !m0.closed && !m1.closed
      invariant !HasBadFace(fs[..k], g)
      invariant m0.lines == AfterFaces(old(m0.lines), fs[..k], 0, g)
      invariant m1.lines == AfterFaces(old(m1.lines), fs[..k], 1, g)
    {
      assert fs[..k + 1][..k] == fs[..k];
      if fs[k].atBoundary {
        o := TreatFace(m0, m1, fs[k], g);
        if o.Fail? {
          assert BadFace(fs[k], g);
          return;
        }
      }
      ghost var done := fs[..k + 1];
      assert !HasBadFace(done, g) by {
        forall x | 0 <= x < k + 1 ensures !BadFace(done[x], g) {
          if x < k { assert done[x] == fs[..k][x]; }
        }
      }
    }
    assert fs[..|fs|] == fs;
    o := Pass;
  }

  lemma AfterCellEntryFree(L: Lines, c: Cell, i: nat, g: Ring)
    requires EntryFree(L) && !HasBadFace(c.faces, g)
    ensures EntryFree(AfterCell(L, c, i, g))
  {
    AfterFacesKeys(ZeroLines(L, VertexSet(c)), c.faces, i, g);
  }

  /** Lines without entries are closed already: close() keeps them. */
  lemma EntryFreeClosed(L: Lines)
    requires EntryFree(L)
    ensures Closure.Close(L) == Ok(L)
  {
    CloseUnchanged(L);
  }

  /** The constraint-building block: the vertex and face loops over all
      cells for both sets, then close() on both. A boundary face on
      neither circle stops it with an internal error. */
  method BuildBoundaryConstraints(cells: seq<Cell>, g: Ring) returns (m0: AffineConstraints, m1: AffineConstraints, o: Outcome)
    ensures fresh(m0) && fresh(m1) && m0 != m1 && m0.Valid() && m1.Valid()
    ensures o == if HasUnexpected(cells, g) then Fail(InternalError) else Pass
    ensures o.Pass? ==> m0.closed && m1.closed
    ensures o.Pass? ==> m0.lines == AfterCells(map[], cells, 0, g) && m1.lines == AfterCells(map[], cells, 1, g)
  {
    m0 := new AffineConstraints();
    m1 := new AffineConstraints();
    for k := 0 to |cells|
      invariant fresh(m0) && fresh(m1) && m0.Valid() && m1.Valid() && !m0.closed && !m1.closed
      invariant !HasUnexpected(cells[..k], g)
      invariant m0.lines == AfterCells(map[], cells[..k], 0, g) && m1.lines == AfterCells(map[], cells[..k], 1, g)
      invariant EntryFree(m0.lines) && EntryFree(m1.lines)
    {
      var cell := cells[k];
      assert cells[..k + 1][..k] == cells[..k];
      ghost var before0, before1 := m0.lines, m1.lines;
      ghost var zs0: seq<nat>, zs1: seq<nat>;
      zs0, zs1 := FixVertices(m0, m1, cell);
      if AtBoundary(cell) {
        o := TreatFaces(m0, m1, cell.faces, g);
        if o.Fail? {
          assert HasBadFace(cells[k].faces, g);
          return;
        }
      } else {
        assert !HasBadFace(cell.faces, g);
      }
      AfterCellEntryFree(before0, cell, 0, g);
      AfterCellEntryFree(before1, cell, 1, g);
      ghost var done := cells[..k + 1];
      assert !HasUnexpected(done, g) by {
        forall a | 0 <= a < k + 1 ensures !HasBadFace(done[a].faces, g) {
          if a < k { assert done[a] == cells[..k][a]; }
        }
      }
    }
    assert cells[..|cells|] == cells;
    EntryFreeClosed(m0.lines);
    EntryFreeClosed(m1.lines);
    var r := m0.Close();
    r := m1.Close();
    o := Pass;
  }

  /** distribute() through entry-free lines writes each constrained entry
      with its line's inhomogeneity and keeps every other entry. */
  lemma DistributedEntryFree(L: Lines, u: seq<real>, d: nat)
    requires EntryFree(L) && d < |u|
    ensures Distributed(L, u)[d] == if d in L then L[d].inhomogeneity else u[d]
  {
  }

  /** The end of laplace_solve: the solver's u distributed through a closed
      set that is only read. */
  method LaplaceSolveDistribute(c: AffineConstraints, u: array<real>)
    requires c.Valid() && c.closed && EntryFree(c.lines) && Fits(c.lines, u.Length)
    modifies u
    ensures forall d :: 0 <= d < u.Length ==> u[d] == if d in c.lines then c.lines[d].inhomogeneity else old(u[d])
  {
    c.Distribute(u);
    forall d | 0 <= d < u.Length
      ensures u[d] == if d in c.lines then c.lines[d].inhomogeneity else old(u[d])
    {
      DistributedEntryFree(c.lines, old(u[..]), d);
    }
  }

  /** The whole use of the two sets on a well-formed ring mesh: built,
      closed, and applied to the two solver outputs u0 and u1 (solved for
      the x and y displacement). Every vertex entry ends up 0, every inner
      boundary midpoint the coordinate of its shift, every outer one 0. */
  method CurvedCellsDisplacements(cells: seq<Cell>, g: Ring, u0: array<real>, u1: array<real>) returns (o: Outcome)
    requires WellFormed(cells) && !HasUnexpected(cells, g)
    requires u0 != u1 && MeshFits(cells, u0.Length) && MeshFits(cells, u1.Length)
    modifies u0, u1
    ensures o == Pass
    ensures forall d :: d in MeshVertices(cells) ==> u0[d] == 0.0 && u1[d] == 0.0
    ensures forall a, x :: 0 <= a < |cells| && 0 <= x < |cells[a].faces| && cells[a].faces[x].atBoundary ==>
      u0[cells[a].faces[x].mid] == FaceLine(cells[a].faces[x], 0, g).inhomogeneity &&
      u1[cells[a].faces[x].mid] == FaceLine(cells[a].faces[x], 1, g).inhomogeneity
  {
    var m0, m1;
    m0, m1, o := BuildBoundaryConstraints(cells, g);
    AfterCellsLines(cells, 0, g);
    AfterCellsLines(cells, 1, g);
    MeshFitsDofs(cells, u0.Length);
    MeshFitsDofs(cells, u1.Length);
    LaplaceSolveDistribute(m0, u0);
    LaplaceSolveDistribute(m1, u1);
  }

  /** Every vertex and boundary midpoint dof of the mesh is below n. */
  predicate MeshFits(cs: seq<Cell>, n: nat)
  {
    (forall d :: d in MeshVertices(cs) ==> d < n) &&
    (forall a, x :: 0 <= a < |cs| && 0 <= x < |cs[a].faces| && cs[a].faces[x].atBoundary ==> cs[a].faces[x].mid < n)
  }

  lemma MeshFitsDofs(cs: seq<Cell>, n: nat)
    requires MeshFits(cs, n)
    ensures forall d :: d in MeshDofs(cs) ==> d < n
  {
    forall d | d in MeshDofs(cs) && d !in MeshVertices(cs) ensures d < n {
      var a, x :| 0 <= a < |cs| && 0 <= x < |cs[a].faces| && cs[a].faces[x].atBoundary && cs[a].faces[x].mid == d;
    }
  }
}
