/** The minimal surface driver of the nonlinear solver selector test. Its
    constraint set holds the hanging node lines and is closed once, on the
    initial setup; the Jacobian goes through distribute_local_to_global
    cell by cell, while the residual is scattered unconstrained, condensed,
    and then zeroed at the boundary and hanging node dofs; every linear
    solve and every write of boundary values is followed by distribute().
    The element integrals, the boundary dof lists and values and the output
    of the direct solver are inputs; the member objects of the driver are
    passed to each step explicitly. */
module MinimalSurface {
  import opened Common
  import opened ConstraintLines
  import opened Closure
  import opened Sparse
  import opened Expansion
  import opened Condensation
  import opened VectorExpansion
  import opened Constraints
  import opened Assembly
  import opened HpLaplace

  // ---------------------------------------------------------------------
  // setup_system

  /** setup_system(initial_step): only the initial step sizes the solution
      and clears, fills and closes the constraints; every step builds the
      pattern of the mesh couplings, condenses it, fixes it and puts a zero
      Jacobian over it. A later step reuses the closed constraint set and
      the solution u0 as they are. */
  method SetupSystem(c: AffineConstraints, initial: bool, n: nat, cells: seq<seq<nat>>,
                     hanging: seq<(nat, Line)>, u0: array<real>)
    returns (o: Outcome, u: array<real>, sp: SparsityPattern, m: SparseMatrix?)
    requires c.Valid() && DofsBelow(cells, n)
    requires initial ==> Enterable(map[], hanging) && Fits(LinesOf(hanging), n)
    requires !initial ==> c.closed && Fits(c.lines, n)
    modifies c
    ensures c.Valid() && fresh(sp) && sp.Valid()
    ensures initial ==> fresh(u) && u[..] == Zeros(n)
    ensures !initial ==> u == u0 && c.lines == old(c.lines) && c.closed
    ensures o.Fail? <==> initial && Closure.Close(LinesOf(hanging)).Err?
    ensures o.Fail? ==> o.error == Closure.Close(LinesOf(hanging)).error &&
                        !c.closed && c.lines == LinesOf(hanging) && m == null
    ensures initial && o.Pass? ==> c.lines == Closure.Close(LinesOf(hanging)).value
    ensures o.Pass? ==>
      sp.compressed && sp.entries == Coupled(n, cells) + Predicted(c.lines, Coupled(n, cells)) &&
      m != null && fresh(m) && fresh(m.val) && m.Valid() && Ready(n, cells, c, sp, m) &&
      m.layout == sp.layout && m.val[..] == Zeros(|m.layout|)
  {
    u := u0;
    o := Pass;
    if initial {
      u := ZeroVector(n);
      o := FillConstraints(c, hanging);
    }
    sp := CouplingPattern(n, cells);
    m := null;
    if o.Pass? {
      if initial {
        CloseFits(LinesOf(hanging), n);
      }
      CondenseAndCompress(c, sp);
      m := new SparseMatrix(sp);
    }
  }

  // ---------------------------------------------------------------------
  // compute_and_factorize_jacobian

  /** The contributions of cells, cell after cell, each expanded through the
      constraints as distribute_local_to_global does. */
  lemma MeshExpansionPrefix(L: Lines, mats: seq<seq<seq<real>>>, cells: seq<seq<nat>>, c: nat, p: Pos)
    requires CellsShaped(mats, cells) && c < |cells|
    ensures CellsShaped(mats[..c], cells[..c]) && CellsShaped(mats[..c + 1], cells[..c + 1])
    ensures SumAt(ExpandAll(L, MeshContributions(mats[..c + 1], cells[..c + 1])), p)
         == SumAt(ExpandAll(L, MeshContributions(mats[..c], cells[..c])), p)
          + SumAt(ExpandAll(L, CellContributions(mats[c], cells[c], cells[c])), p)
  {
    MeshContributionsPrefix(mats, cells, c);
    ExpandAllConcat(L, MeshContributions(mats[..c], cells[..c]), CellContributions(mats[c], cells[c], cells[c]));
    SumAtConcat(ExpandAll(L, MeshContributions(mats[..c], cells[..c])),
                ExpandAll(L, CellContributions(mats[c], cells[c], cells[c])), p);
  }

  /** Every local entry of a cell sits at a coupling of the mesh, so inside
      a pattern that holds those couplings. */
  lemma CellContributionsInLayout(layout: seq<Pos>, mats: seq<seq<seq<real>>>, cells: seq<seq<nat>>, c: nat)
    requires CellsShaped(mats, cells) && c < |cells|
    requires forall p :: p in MeshCouplings(cells) ==> p in layout
    ensures forall i :: 0 <= i < |CellContributions(mats[c], cells[c], cells[c])| ==>
      CellContributions(mats[c], cells[c], cells[c])[i].pos in layout
  {
    var cs := CellContributions(mats[c], cells[c], cells[c]);
    CellCouplingsInMesh(cells, c);
    forall i | 0 <= i < |cs| ensures cs[i].pos in layout {
      var p := cs[i].pos;
      assert Positions(cs)[i] == p;
      CellPositions(mats[c], cells[c], cells[c], p);
      var a :| 0 <= a < |cells[c]| && cells[c][a] == p.0;
      var b :| 0 <= b < |cells[c]| && cells[c][b] == p.1;
      assert p == (cells[c][a], cells[c][b]);
      assert p in CellCouplings(cells[c]);
    }
  }

  /** The cell loop of compute_and_factorize_jacobian: every cell matrix
      distributed into m through the constraints. Over a pattern closed
      under expansion no entry is missing, and every stored value grows by
      what the expanded contributions put at its position. */
  method DistributeCells(c: AffineConstraints, S: set<Pos>, m: SparseMatrix,
                         mats: seq<seq<seq<real>>>, cells: seq<seq<nat>>) returns (o: Outcome)
    requires c.Valid() && c.closed && m.Valid() && CellsShaped(mats, cells)
    requires PredictionClosed(c.lines, S) && forall q :: q in m.layout <==> q in S
    requires forall p :: p in MeshCouplings(cells) ==> p in S
    modifies m.val
    ensures o == Pass
    ensures forall k :: 0 <= k < |m.layout| ==>
      m.val[k] == old(m.val[k]) + SumAt(ExpandAll(c.lines, MeshContributions(mats, cells)), m.layout[k])
  {
    ghost var L := c.lines;
    o := Pass;
    for e := 0 to |cells|
      invariant o == Pass
      invariant CellsShaped(mats[..e], cells[..e])
      invariant forall k :: 0 <= k < |m.layout| ==>
        m.val[k] == old(m.val[k]) + SumAt(ExpandAll(L, MeshContributions(mats[..e], cells[..e])), m.layout[k])
    {
      var cs := CellContributions(mats[e], cells[e], cells[e]);
      CellContributionsInLayout(m.layout, mats, cells, e);
      ExpandFitsClosedPattern(L, m.layout, S, cs);
      ghost var before := m.val[..];
      ApplyAddsInPattern(m.layout, before, ExpandAll(L, cs));
      o := c.DistributeLocalToGlobal(mats[e], cells[e], m);
      forall k | 0 <= k < |m.layout|
        ensures m.val[k] == old(m.val[k]) + SumAt(ExpandAll(L, MeshContributions(mats[..e + 1], cells[..e + 1])), m.layout[k])
      {
        assert m.val[k] == before[k] + SumAt(ExpandAll(L, cs), m.layout[k]);
        MeshExpansionPrefix(L, mats, cells, e, m.layout[k]);
      }
    }
    assert mats[..|cells|] == mats && cells[..|cells|] == cells;
  }

  /** compute_and_factorize_jacobian without the element integrals, the
      boundary rows and the factorization: the matrix is zeroed and every
      cell matrix is distributed into it through the constraints. Over the
      pattern that setup_system builds no entry is ever missing, and the
      Jacobian holds the expanded contributions of the whole mesh. */
  method ComputeJacobian(n: nat, cells: seq<seq<nat>>, c: AffineConstraints, sp: SparsityPattern,
                         m: SparseMatrix, mats: seq<seq<seq<real>>>) returns (o: Outcome)
    requires c.Valid() && m.Valid() && Ready(n, cells, c, sp, m)
    requires CellsShaped(mats, cells)
    modifies m.val
    ensures o == Pass
    ensures m.val[..] == ApplyAdds(m.layout, Zeros(|m.layout|), ExpandAll(c.lines, MeshContributions(mats, cells))).0
  {
    forall k | 0 <= k < m.val.Length {
      m.val[k] := 0.0;
    }
    ghost var zero := m.val[..];
    o := DistributeCells(c, sp.entries, m, mats, cells);
    ghost var L := c.lines;
    MeshContributionsInPattern(m.layout, mats, cells);
    ExpandFitsClosedPattern(L, m.layout, sp.entries, MeshContributions(mats, cells));
    ApplyAddsInPattern(m.layout, Zeros(|m.layout|), ExpandAll(L, MeshContributions(mats, cells)));
    ghost var sum := ApplyAdds(m.layout, Zeros(|m.layout|), ExpandAll(L, MeshContributions(mats, cells))).0;
    assert m.val[..] == sum by {
      forall k | 0 <= k < |m.layout| ensures m.val[k] == sum[k] {
        assert zero[k] == 0.0;
      }
    }
  }

  // ---------------------------------------------------------------------
  // compute_residual

  /** u with the entries at the listed indices set to zero. */
  function ZeroedAt(u: seq<real>, ds: seq<nat>): (r: seq<real>)
    ensures |r| == |u|
  {
    seq(|u|, i requires 0 <= i < |u| => if i in ds then 0.0 else u[i])
  }

  /** `v(i) = 0` for every listed index. */
  method ZeroEntries(v: array<real>, ds: seq<nat>)
    requires forall k :: 0 <= k < |ds| ==> ds[k] < v.Length
    modifies v
    ensures v[..] == ZeroedAt(old(v[..]), ds)
  {
    ghost var u := v[..];
    for k := 0 to |ds|
      invariant forall i :: 0 <= i < v.Length ==> v[i] == if i in ds[..k] then 0.0 else u[i]
    {
      v[ds[k]] := 0.0;
      assert ds[..k + 1] == ds[..k] + [ds[k]];
    }
    assert ds[..|ds|] == ds;
  }

  /** The unconstrained residual loop: every cell vector added at the
      cell's dof indices. */
  method ScatterResidual(v: array<real>, vecs: seq<seq<real>>, cells: seq<seq<nat>>)
    requires DofsBelow(cells, v.Length) && VectorsShaped(vecs, cells)
    modifies v
    ensures v[..] == AddedTo(old(v[..]), MeshVector(vecs, cells))
  {
    for e := 0 to |cells|
      invariant VectorsShaped(vecs[..e], cells[..e])
      invariant v[..] == AddedTo(old(v[..]), MeshVector(vecs[..e], cells[..e]))
    {
      MeshVectorPrefix(vecs, cells, e);
      AddContributions(v, LocalVector(cells[e], vecs[e]));
      AddedToConcat(old(v[..]), MeshVector(vecs[..e], cells[..e]), LocalVector(cells[e], vecs[e]));
    }
    assert vecs[..|cells|] == vecs && cells[..|cells|] == cells;
  }

  /** compute_residual without the element integrals: the residual is
      zeroed, the cell vectors are added unconstrained, the result is
      condensed, and the entries at the boundary dofs and then at the
      hanging node dofs are set to zero. */
  method ComputeResidual(c: AffineConstraints, r: array<real>, vecs: seq<seq<real>>, cells: seq<seq<nat>>,
                         boundary: seq<nat>, hangingDofs: seq<nat>)
    requires c.Valid() && c.closed && Fits(c.lines, r.Length)
    requires DofsBelow(cells, r.Length) && VectorsShaped(vecs, cells)
    requires forall k :: 0 <= k < |boundary| ==> boundary[k] < r.Length
    requires forall k :: 0 <= k < |hangingDofs| ==> hangingDofs[k] < r.Length
    modifies r
    ensures r[..] == ZeroedAt(ZeroedAt(Condensed(c.lines, AddedTo(Zeros(r.Length), MeshVector(vecs, cells))),
                                       boundary), hangingDofs)
  {
    forall i | 0 <= i < r.Length {
      r[i] := 0.0;
    }
    assert r[..] == Zeros(r.Length);
    ScatterResidual(r, vecs, cells);
    c.CondenseVector(r);
    ZeroEntries(r, boundary);
    ZeroEntries(r, hangingDofs);
  }

  /** Zeroing the hanging node dofs after condense() changes nothing when
      they are constrained dofs of a closed set: condense() has already
      left zero at every constrained index. */
  lemma HangingZeroingRedundant(L: Lines, u: seq<real>, boundary: seq<nat>, hangingDofs: seq<nat>)
    requires ChainFree(L) && forall k :: 0 <= k < |hangingDofs| ==> hangingDofs[k] in L
    ensures ZeroedAt(ZeroedAt(Condensed(L, u), boundary), hangingDofs) == ZeroedAt(Condensed(L, u), boundary)
  {
    var w := ZeroedAt(Condensed(L, u), boundary);
    forall i | 0 <= i < |u| ensures ZeroedAt(w, hangingDofs)[i] == w[i] {
      if i in hangingDofs {
        CondensedZeroAtConstrained(L, u, i);
      }
    }
  }

  // ---------------------------------------------------------------------
  // solve

  /** solve: the factorized Jacobian's output x becomes the solution, which
      is then distributed so that every hanging node meets its line. */
  method Solve(c: AffineConstraints, solution: array<real>, x: seq<real>)
    requires c.Valid() && c.closed && Fits(c.lines, solution.Length) && |x| == solution.Length
    modifies solution
    ensures solution[..] == Distributed(c.lines, x)
    ensures Satisfies(c.lines, solution[..])
  {
    HpLaplace.Solve(c, solution, x);
  }

  // ---------------------------------------------------------------------
  // set_boundary_values

  /** u with the given values written at their indices. */
  function Overwritten(u: seq<real>, values: map<nat, real>): (r: seq<real>)
    ensures |r| == |u|
  {
    seq(|u|, i requires 0 <= i < |u| => if i in values then values[i] else u[i])
  }

  /** set_boundary_values: the boundary values written into the solution,
      which is then distributed so that it meets every line. */
  method SetBoundaryValues(c: AffineConstraints, u: array<real>, values: map<nat, real>)
    requires c.Valid() && c.closed && Fits(c.lines, u.Length)
    requires forall i :: i in values ==> i < u.Length
    modifies u
    ensures u[..] == Distributed(c.lines, Overwritten(old(u[..]), values))
    ensures Satisfies(c.lines, u[..])
  {
    ghost var u0 := u[..];
    var todo := values.Keys;
    while todo != {}
      invariant todo <= values.Keys
      invariant forall i :: 0 <= i < u.Length ==>
        u[i] == if i in values && i !in todo then values[i] else u0[i]
      decreases todo
    {
      var i :| i in todo;
      u[i] := values[i];
      todo := todo - {i};
    }
    assert u[..] == Overwritten(u0, values);
    c.Distribute(u);
  }

  /** A boundary value written at an unconstrained dof survives
      distribute(); a constrained one is replaced by what its line
      prescribes. */
  lemma BoundaryValuesKept(L: Lines, u: seq<real>, values: map<nat, real>, i: nat)
    requires i in values && i < |u|
    ensures i !in L ==> Distributed(L, Overwritten(u, values))[i] == values[i]
    ensures i in L ==> Distributed(L, Overwritten(u, values))[i] == LineValue(L[i], Overwritten(u, values))
  {
  }
}
