/** The Laplace driver of the hp test with a mapping collection. Different
    polynomial degrees on neighbouring cells create hanging nodes; their
    constraint set is cleared, filled and closed before it condenses the
    sparsity pattern, the matrix and right hand side are assembled without
    constraints and condensed once afterwards, and the solution is
    distributed after the linear solve. The mesh, the dof lists, the
    hanging node lines, the cell matrices and vectors and the solver's
    output are inputs. The member objects of the driver (constraint set,
    pattern, matrix, solution and right hand side) are passed to each step
    explicitly. */
module HpLaplace {
  import opened Common
  import opened ConstraintLines
  import opened Closure
  import opened Sparse
  import opened Expansion
  import opened Condensation
  import opened VectorExpansion
  import opened Constraints
  import opened Assembly

  /** The positions of a fresh n × n pattern after make_sparsity_pattern: the
      diagonal and every coupling of every cell. */
  function Coupled(n: nat, cells: seq<seq<nat>>): set<Pos>
  {
    (set i | 0 <= i < n :: (i, i)) + MeshCouplings(cells)
  }

  /** A fresh n × n pattern with every coupling of the mesh. */
  method CouplingPattern(n: nat, cells: seq<seq<nat>>) returns (sp: SparsityPattern)
    requires DofsBelow(cells, n)
    ensures fresh(sp) && sp.Valid() && !sp.compressed
    ensures sp.rows == n && sp.cols == n && sp.entries == Coupled(n, cells)
  {
    sp := new SparsityPattern(n, n);
    MakeSparsityPattern(sp, cells);
  }

  /** clear(), the lines entered, close(). */
  method FillConstraints(c: AffineConstraints, ls: seq<(nat, Line)>) returns (o: Outcome)
    requires c.Valid() && Enterable(map[], ls)
    modifies c
    ensures c.Valid()
    ensures Closure.Close(LinesOf(ls)).Err? ==>
      o == Fail(Closure.Close(LinesOf(ls)).error) && !c.closed && c.lines == LinesOf(ls)
    ensures Closure.Close(LinesOf(ls)).Ok? ==>
      o == Pass && c.closed && c.lines == Closure.Close(LinesOf(ls)).value
  {
    c.Clear();
    EnterLines(c, ls);
    assert c.lines == LinesOf(ls);
    o := c.Close();
  }

  /** condense(pattern), then compress(): the pattern gains everything the
      constraints expand its positions into and is then closed under
      expansion. */
  method CondenseAndCompress(c: AffineConstraints, sp: SparsityPattern)
    requires c.Valid() && c.closed && sp.Valid() && !sp.compressed && sp.rows == sp.cols && Fits(c.lines, sp.rows)
    modifies sp
    ensures sp.Valid() && sp.compressed && sp.rows == old(sp.rows) && sp.cols == old(sp.cols)
    ensures sp.entries == old(sp.entries) + Predicted(c.lines, old(sp.entries))
    ensures PredictionClosed(c.lines, sp.entries)
  {
    var o := c.CondensePattern(sp);
    sp.Compress();
    CondensedPatternClosed(c.lines, old(sp.entries));
  }

  /** What assembly relies on: closed constraints that fit the vectors, and
      a matrix over a pattern that holds every coupling of the mesh and
      everything the constraints expand a stored position into. */
  ghost predicate Ready(n: nat, cells: seq<seq<nat>>, c: AffineConstraints, sp: SparsityPattern, m: SparseMatrix)
    reads c, sp, m
  {
    c.closed && Fits(c.lines, n) &&
    (forall q :: q in m.layout <==> q in sp.entries) &&
    (forall p :: p in MeshCouplings(cells) ==> p in sp.entries) &&
    PredictionClosed(c.lines, sp.entries)
  }

  /** make_grid_and_dofs: zero vectors u (solution) and f (right hand side)
      of the new size, a pattern of the cell couplings, the hanging node
      lines entered into the cleared constraint set and closed, the pattern
      condensed and only then compressed, and a zero matrix over it. A cycle
      among the lines stops the setup at close(), before any matrix exists. */
  method MakeGridAndDofs(c: AffineConstraints, n: nat, cells: seq<seq<nat>>, hanging: seq<(nat, Line)>)
    returns (o: Outcome, u: array<real>, f: array<real>, sp: SparsityPattern, m: SparseMatrix?)
    requires c.Valid() && DofsBelow(cells, n)
    requires Enterable(map[], hanging) && Fits(LinesOf(hanging), n)
    modifies c
    ensures fresh(u) && fresh(f) && fresh(sp) && u != f && u[..] == Zeros(n) && f[..] == Zeros(n)
    ensures c.Valid() && sp.Valid()
    ensures o.Pass? <==> Closure.Close(LinesOf(hanging)).Ok?
    ensures o.Fail? ==> Closure.Close(LinesOf(hanging)).Err? && o.error == Closure.Close(LinesOf(hanging)).error &&
                        !c.closed && c.lines == LinesOf(hanging) && m == null
    ensures o.Pass? ==>
      c.lines == Closure.Close(LinesOf(hanging)).value && sp.compressed &&
      sp.entries == Coupled(n, cells) + Predicted(c.lines, Coupled(n, cells)) &&
      m != null && fresh(m) && fresh(m.val) && m.Valid() && Ready(n, cells, c, sp, m) &&
      m.layout == sp.layout && m.val[..] == Zeros(|m.layout|)
  {
    u := ZeroVector(n);
    f := ZeroVector(n);
    sp := CouplingPattern(n, cells);
    o := FillConstraints(c, hanging);
    m := null;
    if o.Pass? {
      CloseFits(LinesOf(hanging), n);
      CondenseAndCompress(c, sp);
      m := new SparseMatrix(sp);
    }
  }

  /** The cell loop of assemble_system: every cell matrix and vector added
      at the cell's dof indices, without constraints. Every position lands
      in the matrix because the pattern holds the couplings of the mesh. */
  method ScatterCells(m: SparseMatrix, v: array<real>, mats: seq<seq<seq<real>>>, vecs: seq<seq<real>>,
                      cells: seq<seq<nat>>)
    requires m.Valid() && m.val != v && DofsBelow(cells, v.Length)
    requires CellsShaped(mats, cells) && VectorsShaped(vecs, cells)
    requires forall p :: p in MeshCouplings(cells) ==> p in m.layout
    modifies m.val, v
    ensures m.val[..] == ApplyAdds(m.layout, old(m.val[..]), MeshContributions(mats, cells)).0
    ensures v[..] == AddedTo(old(v[..]), MeshVector(vecs, cells))
  {
    for c := 0 to |cells|
      invariant forall k :: 0 <= k < |m.layout| ==>
        m.val[k] == old(m.val[k]) + SumAt(MeshContributions(mats[..c], cells[..c]), m.layout[k])
      invariant v[..] == AddedTo(old(v[..]), MeshVector(vecs[..c], cells[..c]))
    {
      MeshContributionsPrefix(mats, cells, c);
      MeshVectorPrefix(vecs, cells, c);
      CellCouplingsInMesh(cells, c);
      ScatterCellMatrix(m, mats[c], cells[c]);
      forall k | 0 <= k < |m.layout| {
        SumAtConcat(MeshContributions(mats[..c], cells[..c]), CellContributions(mats[c], cells[c], cells[c]), m.layout[k]);
      }
      AddContributions(v, LocalVector(cells[c], vecs[c]));
      AddedToConcat(old(v[..]), MeshVector(vecs[..c], cells[..c]), LocalVector(cells[c], vecs[c]));
    }
    assert mats[..|cells|] == mats && cells[..|cells|] == cells && vecs[..|cells|] == vecs;
    MeshContributionsInPattern(m.layout, mats, cells);
    ApplyAddsInPattern(m.layout, old(m.val[..]), MeshContributions(mats, cells));
    ghost var sum := ApplyAdds(m.layout, old(m.val[..]), MeshContributions(mats, cells)).0;
    assert m.val[..] == sum by {
      forall k | 0 <= k < |m.layout| ensures m.val[k] == sum[k] { }
    }
  }

  /** assemble_system: the cell loop, then the matrix and the right hand
      side condensed once. The condensed pattern guarantees that condense()
      finds every position it writes. */
  method AssembleSystem(n: nat, cells: seq<seq<nat>>, c: AffineConstraints, sp: SparsityPattern,
                        m: SparseMatrix, f: array<real>, mats: seq<seq<seq<real>>>, vecs: seq<seq<real>>)
    requires c.Valid() && m.Valid() && f.Length == n && m.val != f && DofsBelow(cells, n)
    requires Ready(n, cells, c, sp, m)
    requires CellsShaped(mats, cells) && VectorsShaped(vecs, cells)
    modifies m.val, f
    ensures m.val[..] == CondensedValues(c.lines, m.layout,
      ApplyAdds(m.layout, old(m.val[..]), MeshContributions(mats, cells)).0)
    ensures f[..] == Condensed(c.lines, AddedTo(old(f[..]), MeshVector(vecs, cells)))
  {
    ScatterCells(m, f, mats, vecs, cells);
    CondenseFitsClosedPattern(c.lines, m.layout, m.val[..], sp.entries);
    var o := c.CondenseMatrix(m);
    c.CondenseVector(f);
  }

  /** solve: the solver's output x written into the solution, which is then
      distributed so that every constrained entry meets its line. */
  method Solve(c: AffineConstraints, u: array<real>, x: seq<real>)
    requires c.Valid() && c.closed && Fits(c.lines, u.Length) && |x| == u.Length
    modifies u
    ensures u[..] == Distributed(c.lines, x)
    ensures Satisfies(c.lines, u[..])
  {
    forall i | 0 <= i < u.Length {
      u[i] := x[i];
    }
    assert u[..] == x;
    c.Distribute(u);
  }

  /** What the condensed matrix of assemble_system holds: at every stored position
      but a constrained diagonal, the value that distributing the cell
      matrices through the constraints would have added up, as the
      nonlinear driver does. */
  lemma CondensedAssemblyIsScatter(L: Lines, layout: seq<Pos>, S: set<Pos>,
                                   mats: seq<seq<seq<real>>>, dofs: seq<seq<nat>>, k: nat)
    requires ChainFree(L) && Distinct(layout) && k < |layout|
    requires PredictionClosed(L, S) && forall q :: q in layout <==> q in S
    requires CellsShaped(mats, dofs) && forall p :: p in MeshCouplings(dofs) ==> p in S
    ensures ApplyAdds(layout, Zeros(|layout|), ExpandAll(L, MeshContributions(mats, dofs))).1 == Pass
    ensures CondensedValues(L, layout, ApplyAdds(layout, Zeros(|layout|), MeshContributions(mats, dofs)).0)[k] ==
      if ConstrainedDiagonal(L, layout[k]) then 1.0
      else ApplyAdds(layout, Zeros(|layout|), ExpandAll(L, MeshContributions(mats, dofs))).0[k]
  {
    MeshContributionsInPattern(layout, mats, dofs);
    CondenseMatchesScatter(L, layout, S, MeshContributions(mats, dofs), k);
  }
}
