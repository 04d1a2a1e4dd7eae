/** The pieces of a finite element assembly that the two drivers share: the
    couplings of the cells' dof lists entered into a sparsity pattern, the
    lines of a constraint set entered one call at a time, and the
    unconstrained scatter of a cell matrix into a global matrix. The dof
    lists, the lines and the cell matrices come from code that is not part
    of this model (the DoFHandler, the hanging node computation and the
    quadrature loops). */
module Assembly {
  import opened Common
  import opened ConstraintLines
  import opened Closure
  import opened Sparse
  import opened Expansion
  import opened Condensation
  import opened VectorExpansion
  import opened Constraints

  /** Vector::reinit(n): a fresh vector of n zeros. */
  method ZeroVector(n: nat) returns (v: array<real>)
    ensures fresh(v) && v[..] == Zeros(n)
  {
    v := new real[n](_ => 0.0);
  }

  /** All positions (g[i], g[j]) of one cell's dof list. */
  function CellCouplings(g: seq<nat>): set<Pos>
  {
    set i, j | 0 <= i < |g| && 0 <= j < |g| :: (g[i], g[j])
  }

  /** The couplings of every cell. */
  function MeshCouplings(cells: seq<seq<nat>>): set<Pos>
  {
    set c, i, j | 0 <= c < |cells| && 0 <= i < |cells[c]| && 0 <= j < |cells[c]| :: (cells[c][i], cells[c][j])
  }

  /** Every dof of every cell lies below n. */
  predicate DofsBelow(cells: seq<seq<nat>>, n: nat)
  {
    forall c, i :: 0 <= c < |cells| && 0 <= i < |cells[c]| ==> cells[c][i] < n
  }

  /** The couplings of the first rows of a cell: rows g[0..i), all columns. */
  function RowsCouplings(g: seq<nat>, i: nat): set<Pos>
    requires i <= |g|
  {
    set a, b | 0 <= a < i && 0 <= b < |g| :: (g[a], g[b])
  }

  /** One row of couplings, its first j columns. */
  function RowCouplings(g: seq<nat>, i: nat, j: nat): set<Pos>
    requires i < |g| && j <= |g|
  {
    set b | 0 <= b < j :: (g[i], g[b])
  }

  /** The couplings of one cell entered with add(g[i], g[j]). */
  method AddCellCouplings(sp: SparsityPattern, g: seq<nat>)
    requires sp.Valid() && !sp.compressed
    requires forall i :: 0 <= i < |g| ==> g[i] < sp.rows && g[i] < sp.cols
    modifies sp
    ensures sp.Valid() && !sp.compressed
    ensures sp.rows == old(sp.rows) && sp.cols == old(sp.cols) && sp.layout == old(sp.layout)
    ensures sp.entries == old(sp.entries) + CellCouplings(g)
  {
    for i := 0 to |g|
      invariant sp.Valid() && !sp.compressed
      invariant sp.rows == old(sp.rows) && sp.cols == old(sp.cols) && sp.layout == old(sp.layout)
      invariant sp.entries == old(sp.entries) + RowsCouplings(g, i)
    {
      AddRowCouplings(sp, g, i);
      RowsCouplingsStep(g, i);
    }
    assert RowsCouplings(g, |g|) == CellCouplings(g);
  }

  /** The inner loop: add(g[i], g[j]) for every column j of the cell. */
  method AddRowCouplings(sp: SparsityPattern, g: seq<nat>, i: nat)
    requires sp.Valid() && !sp.compressed && i < |g|
    requires forall i :: 0 <= i < |g| ==> g[i] < sp.rows && g[i] < sp.cols
    modifies sp
    ensures sp.Valid() && !sp.compressed
    ensures sp.rows == old(sp.rows) && sp.cols == old(sp.cols) && sp.layout == old(sp.layout)
    ensures sp.entries == old(sp.entries) + RowCouplings(g, i, |g|)
  {
    for j := 0 to |g|
      invariant sp.Valid() && !sp.compressed
      invariant sp.rows == old(sp.rows) && sp.cols == old(sp.cols) && sp.layout == old(sp.layout)
      invariant sp.entries == old(sp.entries) + RowCouplings(g, i, j)
    {
      var o := sp.Add(g[i], g[j]);
      assert RowCouplings(g, i, j + 1) == RowCouplings(g, i, j) + {(g[i], g[j])};
    }
  }

  lemma RowsCouplingsStep(g: seq<nat>, i: nat)
    requires i < |g|
    ensures RowsCouplings(g, i + 1) == RowsCouplings(g, i) + RowCouplings(g, i, |g|)
  {
    forall p | p in RowsCouplings(g, i + 1) ensures p in RowsCouplings(g, i) + RowCouplings(g, i, |g|) {
      var a, b :| 0 <= a < i + 1 && 0 <= b < |g| && p == (g[a], g[b]);
      if a == i { assert p in RowCouplings(g, i, |g|); }
    }
  }

  /** make_sparsity_pattern: the couplings of every cell, cell after cell. */
  method MakeSparsityPattern(sp: SparsityPattern, cells: seq<seq<nat>>)
    requires sp.Valid() && !sp.compressed && DofsBelow(cells, sp.rows) && DofsBelow(cells, sp.cols)
    modifies sp
    ensures sp.Valid() && !sp.compressed
    ensures sp.rows == old(sp.rows) && sp.cols == old(sp.cols) && sp.layout == old(sp.layout)
    ensures sp.entries == old(sp.entries) + MeshCouplings(cells)
  {
    for c := 0 to |cells|
      invariant sp.Valid() && !sp.compressed
      invariant sp.rows == old(sp.rows) && sp.cols == old(sp.cols) && sp.layout == old(sp.layout)
      invariant sp.entries == old(sp.entries) + MeshCouplings(cells[..c])
    {
      AddCellCouplings(sp, cells[c]);
      MeshCouplingsStep(cells, c);
    }
    assert cells[..|cells|] == cells;
  }

  lemma MeshCouplingsStep(cells: seq<seq<nat>>, c: nat)
    requires c < |cells|
    ensures MeshCouplings(cells[..c + 1]) == MeshCouplings(cells[..c]) + CellCouplings(cells[c])
  {
    var p, q := cells[..c + 1], cells[..c];
    forall x | x in MeshCouplings(p) ensures x in MeshCouplings(q) + CellCouplings(cells[c]) {
      var e, i, j :| 0 <= e < |p| && 0 <= i < |p[e]| && 0 <= j < |p[e]| && x == (p[e][i], p[e][j]);
      if e < c { assert p[e] == q[e]; } else { assert p[e] == cells[c]; }
    }
    forall x | x in MeshCouplings(q) ensures x in MeshCouplings(p) {
      var e, i, j :| 0 <= e < |q| && 0 <= i < |q[e]| && 0 <= j < |q[e]| && x == (q[e][i], q[e][j]);
      assert p[e] == q[e];
    }
    forall x | x in CellCouplings(cells[c]) ensures x in MeshCouplings(p) {
      var i, j :| 0 <= i < |cells[c]| && 0 <= j < |cells[c]| && x == (cells[c][i], cells[c][j]);
      assert p[c] == cells[c];
    }
  }

  // ---------------------------------------------------------------------
  // Entering lines into a constraint set.

  /** The lines a list of (dof, line) pairs describes. */
  function LinesOf(ls: seq<(nat, Line)>): Lines
  {
    if ls == [] then map[] else LinesOf(ls[..|ls| - 1])[ls[|ls| - 1].0 := ls[|ls| - 1].1]
  }

  /** Lines that can be entered one by one into a set holding L: each dof
      once, none already constrained, none naming itself. */
  predicate Enterable(L: Lines, ls: seq<(nat, Line)>)
  {
    (forall k :: 0 <= k < |ls| ==> ls[k].0 !in L) &&
    (forall k, t :: 0 <= k < t < |ls| ==> ls[k].0 != ls[t].0) &&
    (forall k, e :: 0 <= k < |ls| && e in ls[k].1.entries ==> e.master != ls[k].0)
  }

  /** add_line(d), add_entry(d, m, w) for each entry, set_inhomogeneity(d,
      c): line l becomes d's line. */
  method EnterLine(c: AffineConstraints, d: nat, l: Line)
    requires c.Valid() && !c.closed && d !in c.lines
    requires forall e :: e in l.entries ==> e.master != d
    modifies c
    ensures c.Valid() && !c.closed && c.lines == old(c.lines)[d := l]
  {
    var o := c.AddLine(d);
    for k := 0 to |l.entries|
      invariant c.Valid() && !c.closed
      invariant c.lines == old(c.lines)[d := Line(l.entries[..k], 0.0)]
    {
      assert l.entries[k] in l.entries;
      o := c.AddEntry(d, l.entries[k].master, l.entries[k].weight);
      assert l.entries[..k] + [l.entries[k]] == l.entries[..k + 1];
    }
    assert l.entries[..|l.entries|] == l.entries;
    o := c.SetInhomogeneity(d, l.inhomogeneity);
  }

  /** The lines of a list entered one after the other. */
  method EnterLines(c: AffineConstraints, ls: seq<(nat, Line)>)
    requires c.Valid() && !c.closed && Enterable(c.lines, ls)
    modifies c
    ensures c.Valid() && !c.closed
    ensures c.lines.Keys == old(c.lines).Keys + LinesOf(ls).Keys
    ensures forall d :: d in c.lines ==> c.lines[d] == if d in LinesOf(ls) then LinesOf(ls)[d] else old(c.lines)[d]
  {
    for k := 0 to |ls|
      invariant c.Valid() && !c.closed
      invariant c.lines.Keys == old(c.lines).Keys + LinesOf(ls[..k]).Keys
      invariant forall d :: d in c.lines ==> c.lines[d] == if d in LinesOf(ls[..k]) then LinesOf(ls[..k])[d] else old(c.lines)[d]
      invariant forall t :: k <= t < |ls| ==> ls[t].0 !in c.lines
    {
      assert ls[..k + 1][..k] == ls[..k];
      forall e | e in ls[k].1.entries ensures e.master != ls[k].0 { }
      EnterLine(c, ls[k].0, ls[k].1);
    }
    assert ls[..|ls|] == ls;
  }

  // ---------------------------------------------------------------------
  // The unconstrained scatter of a cell matrix.

  lemma {:induction false} CellContributionsSnoc(cell: seq<seq<real>>, rowIndices: seq<nat>, colIndices: seq<nat>, row: seq<real>, r: nat)
    requires |cell| == |rowIndices| && |row| == |colIndices|
    requires forall i :: 0 <= i < |cell| ==> |cell[i]| == |colIndices|
    ensures forall i :: 0 <= i < |cell + [row]| ==> |(cell + [row])[i]| == |colIndices|
    ensures CellContributions(cell + [row], rowIndices + [r], colIndices)
         == CellContributions(cell, rowIndices, colIndices) + RowContributions(r, colIndices, row)
  {
    if cell == [] {
      assert CellContributions([row], [r], colIndices)
          == RowContributions(r, colIndices, row) + CellContributions([], [], colIndices);
    } else {
      assert (cell + [row])[1..] == cell[1..] + [row];
      assert (rowIndices + [r])[1..] == rowIndices[1..] + [r];
      CellContributionsSnoc(cell[1..], rowIndices[1..], colIndices, row, r);
    }
  }

  lemma RowContributionsSnoc(r: nat, cols: seq<nat>, vals: seq<real>, j: nat, p: Pos)
    requires |cols| == |vals| && j < |cols|
    ensures SumAt(RowContributions(r, cols[..j + 1], vals[..j + 1]), p)
         == SumAt(RowContributions(r, cols[..j], vals[..j]), p) + (if (r, cols[j]) == p then vals[j] else 0.0)
  {
    var c := Contribution((r, cols[j]), vals[j]);
    var a, b := RowContributions(r, cols[..j + 1], vals[..j + 1]), RowContributions(r, cols[..j], vals[..j]) + [c];
    forall t | 0 <= t < |a| ensures a[t] == b[t] {
      if t < j { assert cols[..j + 1][t] == cols[..j][t] && vals[..j + 1][t] == vals[..j][t]; }
    }
    assert a == b;
    SumAtConcat(RowContributions(r, cols[..j], vals[..j]), [c], p);
  }

  /** `M(g[i], g[j]) += C(i, j)` for all i, j: every stored value grows by
      what the cell puts at its position. */
  method ScatterCellMatrix(m: SparseMatrix, cell: seq<seq<real>>, g: seq<nat>)
    requires m.Valid() && CellShape(cell, g)
    requires forall p :: p in CellCouplings(g) ==> p in m.layout
    modifies m.val
    ensures forall k :: 0 <= k < |m.layout| ==>
      m.val[k] == old(m.val[k]) + SumAt(CellContributions(cell, g, g), m.layout[k])
  {
    for i := 0 to |g|
      invariant forall k :: 0 <= k < |m.layout| ==>
        m.val[k] == old(m.val[k]) + SumAt(CellContributions(cell[..i], g[..i], g), m.layout[k])
    {
      ScatterCellRow(m, g, i, cell[i]);
      assert cell[..i + 1] == cell[..i] + [cell[i]] && g[..i + 1] == g[..i] + [g[i]];
      CellContributionsSnoc(cell[..i], g[..i], g, cell[i], g[i]);
      forall k | 0 <= k < |m.layout| {
        SumAtConcat(CellContributions(cell[..i], g[..i], g), RowContributions(g[i], g, cell[i]), m.layout[k]);
      }
    }
    assert cell[..|g|] == cell && g[..|g|] == g;
  }

  /** The inner loop: `M(g[i], g[j]) += row[j]` for every column j. */
  method ScatterCellRow(m: SparseMatrix, g: seq<nat>, i: nat, row: seq<real>)
    requires m.Valid() && i < |g| && |row| == |g|
    requires forall p :: p in CellCouplings(g) ==> p in m.layout
    modifies m.val
    ensures forall k :: 0 <= k < |m.layout| ==>
      m.val[k] == old(m.val[k]) + SumAt(RowContributions(g[i], g, row), m.layout[k])
  {
    for j := 0 to |g|
      invariant forall k :: 0 <= k < |m.layout| ==>
        m.val[k] == old(m.val[k]) + SumAt(RowContributions(g[i], g[..j], row[..j]), m.layout[k])
    {
      assert (g[i], g[j]) in CellCouplings(g);
      var o := m.Add(g[i], g[j], row[j]);
      forall k | 0 <= k < |m.layout| {
        RowContributionsSnoc(g[i], g, row, j, m.layout[k]);
      }
    }
    assert g[..|g|] == g && row[..|g|] == row;
  }

  // ---------------------------------------------------------------------
  // The contributions of a whole mesh.

  /** One square cell matrix per cell, sized by the cell's dof list. */
  predicate CellsShaped(mats: seq<seq<seq<real>>>, cells: seq<seq<nat>>)
  {
    |mats| == |cells| && forall c :: 0 <= c < |cells| ==> CellShape(mats[c], cells[c])
  }

  /** One cell vector per cell, sized by the cell's dof list. */
  predicate VectorsShaped(vecs: seq<seq<real>>, cells: seq<seq<nat>>)
  {
    |vecs| == |cells| && forall c :: 0 <= c < |cells| ==> |vecs[c]| == |cells[c]|
  }

  /** The local matrix contributions of every cell, cell after cell. */
  function MeshContributions(mats: seq<seq<seq<real>>>, cells: seq<seq<nat>>): seq<Contribution<Pos>>
    requires CellsShaped(mats, cells)
    decreases |cells|
  {
    if cells == [] then []
    else
      var n := |cells| - 1;
      assert CellsShaped(mats[..n], cells[..n]) by {
        forall c | 0 <= c < n ensures CellShape(mats[..n][c], cells[..n][c]) {
          assert mats[..n][c] == mats[c] && cells[..n][c] == cells[c];
        }
      }
      MeshContributions(mats[..n], cells[..n]) + CellContributions(mats[n], cells[n], cells[n])
  }

  /** The local vector contributions of every cell, cell after cell. */
  function MeshVector(vecs: seq<seq<real>>, cells: seq<seq<nat>>): seq<Contribution<nat>>
    requires VectorsShaped(vecs, cells)
    decreases |cells|
  {
    if cells == [] then []
    else
      var n := |cells| - 1;
      assert VectorsShaped(vecs[..n], cells[..n]) by {
        forall c | 0 <= c < n ensures |vecs[..n][c]| == |cells[..n][c]| {
          assert vecs[..n][c] == vecs[c] && cells[..n][c] == cells[c];
        }
      }
      MeshVector(vecs[..n], cells[..n]) + LocalVector(cells[n], vecs[n])
  }

  /** The contributions of the first c cells. */
  lemma MeshContributionsPrefix(mats: seq<seq<seq<real>>>, cells: seq<seq<nat>>, c: nat)
    requires CellsShaped(mats, cells) && c < |cells|
    ensures CellsShaped(mats[..c], cells[..c]) && CellsShaped(mats[..c + 1], cells[..c + 1])
    ensures MeshContributions(mats[..c + 1], cells[..c + 1])
         == MeshContributions(mats[..c], cells[..c]) + CellContributions(mats[c], cells[c], cells[c])
  {
    var m1, c1 := mats[..c + 1], cells[..c + 1];
    assert m1[..c] == mats[..c] && c1[..c] == cells[..c];
    forall e | 0 <= e <= c ensures CellShape(m1[e], c1[e]) {
      assert m1[e] == mats[e] && c1[e] == cells[e];
    }
  }

  lemma MeshVectorPrefix(vecs: seq<seq<real>>, cells: seq<seq<nat>>, c: nat)
    requires VectorsShaped(vecs, cells) && c < |cells|
    ensures VectorsShaped(vecs[..c], cells[..c]) && VectorsShaped(vecs[..c + 1], cells[..c + 1])
    ensures MeshVector(vecs[..c + 1], cells[..c + 1])
         == MeshVector(vecs[..c], cells[..c]) + LocalVector(cells[c], vecs[c])
  {
    var v1, c1 := vecs[..c + 1], cells[..c + 1];
    assert v1[..c] == vecs[..c] && c1[..c] == cells[..c];
    forall e | 0 <= e <= c ensures |v1[e]| == |c1[e]| {
      assert v1[e] == vecs[e] && c1[e] == cells[e];
    }
  }

  /** Every contribution of the mesh sits at a coupling of its cell. */
  lemma {:induction false} MeshContributionsCoupled(mats: seq<seq<seq<real>>>, cells: seq<seq<nat>>, i: nat)
    requires CellsShaped(mats, cells) && i < |MeshContributions(mats, cells)|
    ensures MeshContributions(mats, cells)[i].pos in MeshCouplings(cells)
    decreases |cells|
  {
    var n := |cells| - 1;
    MeshContributionsPrefix(mats, cells, n);
    assert mats[..n + 1] == mats && cells[..n + 1] == cells;
    var head := MeshContributions(mats[..n], cells[..n]);
    var p := MeshContributions(mats, cells)[i].pos;
    if i < |head| {
      MeshContributionsCoupled(mats[..n], cells[..n], i);
      var e, a, b :| 0 <= e < n && 0 <= a < |cells[..n][e]| && 0 <= b < |cells[..n][e]|
                     && p == (cells[..n][e][a], cells[..n][e][b]);
      assert cells[..n][e] == cells[e];
    } else {
      var tail := CellContributions(mats[n], cells[n], cells[n]);
      assert Positions(tail)[i - |head|] == p;
      CellPositions(mats[n], cells[n], cells[n], p);
      var a :| 0 <= a < |cells[n]| && cells[n][a] == p.0;
      var b :| 0 <= b < |cells[n]| && cells[n][b] == p.1;
      assert p == (cells[n][a], cells[n][b]);
    }
  }

  /** A cell's couplings are couplings of the mesh. */
  lemma CellCouplingsInMesh(cells: seq<seq<nat>>, c: nat)
    requires c < |cells|
    ensures CellCouplings(cells[c]) <= MeshCouplings(cells)
  {
    forall p | p in CellCouplings(cells[c]) ensures p in MeshCouplings(cells) {
      var i, j :| 0 <= i < |cells[c]| && 0 <= j < |cells[c]| && p == (cells[c][i], cells[c][j]);
    }
  }

  /** A pattern holding every coupling holds every contribution of the
      mesh. */
  lemma MeshContributionsInPattern(layout: seq<Pos>, mats: seq<seq<seq<real>>>, cells: seq<seq<nat>>)
    requires CellsShaped(mats, cells)
    requires forall p :: p in MeshCouplings(cells) ==> p in layout
    ensures forall i :: 0 <= i < |MeshContributions(mats, cells)| ==> MeshContributions(mats, cells)[i].pos in layout
    ensures InPattern(layout, MeshContributions(mats, cells))
  {
    forall i | 0 <= i < |MeshContributions(mats, cells)| {
      MeshContributionsCoupled(mats, cells, i);
    }
  }

  // ---------------------------------------------------------------------
  // A condensed pattern is closed under expansion.

  /** Every position the expansion of a stored position reaches is stored. */
  predicate PredictionClosed(L: Lines, S: set<Pos>)
  {
    forall q, p :: q in S && p in PredictPositions(L, q) ==> p in S
  }

  /** With a chain-free set, every dof an expansion yields is unconstrained. */
  lemma ExpandedFree(L: Lines, d: nat, m: nat)
    requires ChainFree(L) && m in Masters(ExpandDof(L, d))
    ensures m !in L && ExpandDof(L, m) == [Entry(m, 1.0)]
  {
    if d !in L {
      MastersSingle(Entry(d, 1.0));
    }
  }

  /** condense(pattern) makes the pattern closed: expanding a position it
      added only gives back that position. */
  lemma CondensedPatternClosed(L: Lines, E: set<Pos>)
    requires ChainFree(L)
    ensures PredictionClosed(L, E + Predicted(L, E))
  {
    forall q, p | q in E + Predicted(L, E) && p in PredictPositions(L, q)
      ensures p in E + Predicted(L, E)
    {
      if q !in E {
        var q0 :| q0 in E && q in PredictPositions(L, q0);
        PairPositionsIn(ExpandDof(L, q0.0), ExpandDof(L, q0.1), q);
        ExpandedFree(L, q0.0, q.0);
        ExpandedFree(L, q0.1, q.1);
        PairPositionsIn(ExpandDof(L, q.0), ExpandDof(L, q.1), p);
        MastersSingle(Entry(q.0, 1.0));
        MastersSingle(Entry(q.1, 1.0));
        assert p == q;
      }
    }
  }

  /** condense(matrix) on a closed pattern never finds a missing position. */
  lemma CondenseFitsClosedPattern(L: Lines, layout: seq<Pos>, vals: seq<real>, S: set<Pos>)
    requires |vals| == |layout| && PredictionClosed(L, S)
    requires forall q :: q in layout <==> q in S
    ensures InPattern(layout, ExpandAll(L, StoredContributions(layout, vals)))
  {
    var cs := StoredContributions(layout, vals);
    forall i | 0 <= i < |ExpandAll(L, cs)| ensures ExpandAll(L, cs)[i].pos in layout {
      var p := ExpandAll(L, cs)[i].pos;
      assert Positions(ExpandAll(L, cs))[i] == p;
      PredictionExact(L, cs);
      PredictAllIn(L, Positions(cs), p);
      var q :| q in Positions(cs) && p in PredictPositions(L, q);
      var k :| 0 <= k < |cs| && Positions(cs)[k] == q;
      assert q == layout[k];
    }
  }

  /** The two assembly routes agree. Assembling the local contributions
      unconstrained and condensing the matrix afterwards gives, at every
      stored position but a constrained diagonal, what distributing them
      through the constraints cell by cell gives. */
  lemma CondenseMatchesScatter(L: Lines, layout: seq<Pos>, S: set<Pos>, cs: seq<Contribution<Pos>>, k: nat)
    requires ChainFree(L) && Distinct(layout) && k < |layout|
    requires PredictionClosed(L, S) && forall q :: q in layout <==> q in S
    requires forall i :: 0 <= i < |cs| ==> cs[i].pos in layout
    ensures ApplyAdds(layout, Zeros(|layout|), ExpandAll(L, cs)).1 == Pass
    ensures CondensedValues(L, layout, ApplyAdds(layout, Zeros(|layout|), cs).0)[k] ==
      if ConstrainedDiagonal(L, layout[k]) then 1.0
      else ApplyAdds(layout, Zeros(|layout|), ExpandAll(L, cs)).0[k]
  {
    var raw := ApplyAdds(layout, Zeros(|layout|), cs).0;
    assert InPattern(layout, ExpandAll(L, cs)) by {
      ExpandFitsClosedPattern(L, layout, S, cs);
    }
    assert ApplyAdds(layout, Zeros(|layout|), ExpandAll(L, cs)).1 == Pass by {
      ApplyAddsInPattern(layout, Zeros(|layout|), ExpandAll(L, cs));
    }
    assert CondensedValues(L, layout, raw)[k] ==
      if ConstrainedDiagonal(L, layout[k]) then 1.0 else CondensedAt(L, layout, raw, layout[k]) by {
      CondenseFitsClosedPattern(L, layout, raw, S);
      CondensedValuesMeaning(L, layout, raw, k);
    }
    ScatterCondenseEquivalence(L, layout, cs, k);
  }

  /** Contributions inside a closed pattern expand inside it. */
  lemma ExpandFitsClosedPattern(L: Lines, layout: seq<Pos>, S: set<Pos>, cs: seq<Contribution<Pos>>)
    requires PredictionClosed(L, S) && forall q :: q in layout <==> q in S
    requires forall i :: 0 <= i < |cs| ==> cs[i].pos in layout
    ensures InPattern(layout, ExpandAll(L, cs))
  {
    forall i | 0 <= i < |ExpandAll(L, cs)| ensures ExpandAll(L, cs)[i].pos in layout {
      var p := ExpandAll(L, cs)[i].pos;
      assert Positions(ExpandAll(L, cs))[i] == p;
      PredictionExact(L, cs);
      PredictAllIn(L, Positions(cs), p);
      var q :| q in Positions(cs) && p in PredictPositions(L, q);
      var j :| 0 <= j < |cs| && Positions(cs)[j] == q;
    }
  }
}
