/** condense() on an assembled matrix and on a sparsity pattern, and the
    local contributions of a dense cell matrix. */
module Condensation {
  import opened Common
  import opened ConstraintLines
  import opened Closure
  import opened Sparse
  import opened Expansion

  /** The stored entries of a matrix as contributions at their positions. */
  function StoredContributions(layout: seq<Pos>, vals: seq<real>): (r: seq<Contribution<Pos>>)
    requires |vals| == |layout|
    ensures |r| == |layout| && forall k :: 0 <= k < |r| ==> r[k] == Contribution(layout[k], vals[k])
  {
    seq(|layout|, k requires 0 <= k < |layout| => Contribution(layout[k], vals[k]))
  }

  /** The contributions a dense cell matrix makes at (indices[i], indices[j]),
      row by row. */
  function CellContributions(cell: seq<seq<real>>, rowIndices: seq<nat>, colIndices: seq<nat>): seq<Contribution<Pos>>
    requires |cell| == |rowIndices|
    requires forall i :: 0 <= i < |cell| ==> |cell[i]| == |colIndices|
  {
    if cell == [] then []
    else RowContributions(rowIndices[0], colIndices, cell[0]) + CellContributions(cell[1..], rowIndices[1..], colIndices)
  }

  /** A square cell matrix with one index per local row and column. */
  predicate CellShape(cell: seq<seq<real>>, indices: seq<nat>)
  {
    |cell| == |indices| && forall i :: 0 <= i < |cell| ==> |cell[i]| == |indices|
  }

  lemma {:induction false} CellPositions(cell: seq<seq<real>>, rowIndices: seq<nat>, colIndices: seq<nat>, p: Pos)
    requires |cell| == |rowIndices|
    requires forall i :: 0 <= i < |cell| ==> |cell[i]| == |colIndices|
    requires p in Positions(CellContributions(cell, rowIndices, colIndices))
    ensures p.0 in rowIndices && p.1 in colIndices
  {
    var row := RowContributions(rowIndices[0], colIndices, cell[0]);
    var rest := CellContributions(cell[1..], rowIndices[1..], colIndices);
    PositionsConcat(row, rest);
    if p in Positions(row) {
      var k :| 0 <= k < |row| && Positions(row)[k] == p;
      assert p == (rowIndices[0], colIndices[k]);
    } else {
      CellPositions(cell[1..], rowIndices[1..], colIndices, p);
    }
  }

  /** The value condense() leaves at position p: the stored entries
      redistributed along the expansions of their rows and columns. */
  lemma {:induction false} CondensedAtStored(L: Lines, layout: seq<Pos>, vals: seq<real>, p: Pos)
    requires |vals| == |layout|
    ensures CondensedAt(L, layout, vals, p) == SumAt(ExpandAll(L, StoredContributions(layout, vals)), p)
  {
    if layout != [] {
      var cs := StoredContributions(layout, vals);
      assert cs[1..] == StoredContributions(layout[1..], vals[1..]);
      CondensedAtStored(L, layout[1..], vals[1..], p);
      SumAtConcat(ExpandContribution(L, cs[0]), ExpandAll(L, cs[1..]), p);
    }
  }

  /** The first position a list of contributions needs that the pattern
      lacks, if any. */
  function FirstOutside(layout: seq<Pos>, cs: seq<Contribution<Pos>>): (r: Option<Pos>)
    ensures r.None? <==> InPattern(layout, cs)
    ensures r.Some? ==> r.value !in layout && exists k :: 0 <= k < |cs| && cs[k].value != 0.0 && cs[k].pos == r.value
  {
    if cs == [] then None
    else if cs[0].value != 0.0 && cs[0].pos !in layout then Some(cs[0].pos)
    else
      var r := FirstOutside(layout, cs[1..]);
      if r.None? then
        assert InPattern(layout, cs) by {
          forall i | 0 <= i < |cs| && cs[i].value != 0.0 ensures cs[i].pos in layout {
            if i > 0 { assert cs[i] == cs[1..][i - 1]; }
          }
        }
        r
      else
        var k :| 0 <= k < |cs[1..]| && cs[1..][k].value != 0.0 && cs[1..][k].pos == r.value;
        assert cs[k + 1] == cs[1..][k];
        r
  }

  /** A constrained dof's diagonal entry, which condense() sets to 1 so that
      the condensed matrix stays invertible. */
  predicate ConstrainedDiagonal(L: Lines, p: Pos)
  {
    p.0 == p.1 && p.0 in L
  }

  /** The stored values after condense(): the stored entries scattered
      through the constraints into a zeroed matrix, with 1 on the diagonal
      of every constrained dof. */
  function CondensedValues(L: Lines, layout: seq<Pos>, vals: seq<real>): (r: seq<real>)
    requires |vals| == |layout|
    ensures |r| == |layout|
  {
    var s := ApplyAdds(layout, Zeros(|layout|), ExpandAll(L, StoredContributions(layout, vals))).0;
    seq(|layout|, k requires 0 <= k < |layout| => if ConstrainedDiagonal(L, layout[k]) then 1.0 else s[k])
  }

  lemma SumAtOutsidePositions(cs: seq<Contribution<Pos>>, p: Pos)
    requires p !in Positions(cs)
    ensures SumAt(cs, p) == 0.0
  {
    forall i | 0 <= i < |cs| ensures cs[i].pos != p {
      assert Positions(cs)[i] == cs[i].pos;
    }
    SumAtAbsent(cs, p);
  }

  /** What condense() leaves in each slot: the redistributed value, zero in
      every other slot of a constrained row or column, and 1 on a
      constrained diagonal. */
  lemma CondensedValuesMeaning(L: Lines, layout: seq<Pos>, vals: seq<real>, k: nat)
    requires ChainFree(L) && Distinct(layout) && |vals| == |layout| && k < |layout|
    requires InPattern(layout, ExpandAll(L, StoredContributions(layout, vals)))
    ensures CondensedValues(L, layout, vals)[k] ==
      if ConstrainedDiagonal(L, layout[k]) then 1.0 else CondensedAt(L, layout, vals, layout[k])
    ensures !ConstrainedDiagonal(L, layout[k]) && (layout[k].0 in L || layout[k].1 in L) ==>
      CondensedValues(L, layout, vals)[k] == 0.0
  {
    var targets := ExpandAll(L, StoredContributions(layout, vals));
    ApplyAddsInPattern(layout, Zeros(|layout|), targets);
    CondensedAtStored(L, layout, vals, layout[k]);
    if layout[k].0 in L || layout[k].1 in L {
      if layout[k] in Positions(targets) {
        ExpandAvoidsConstrained(L, StoredContributions(layout, vals), layout[k]);
      }
      SumAtOutsidePositions(targets, layout[k]);
    }
  }

  // ---------------------------------------------------------------------
  // condense() on a sparsity pattern.

  /** Every position scatter could reach from the stored positions E. */
  function Predicted(L: Lines, E: set<Pos>): set<Pos>
  {
    set q, p | q in E && p in PredictPositions(L, q) :: p
  }

  lemma PredictAllWithin(L: Lines, qs: seq<Pos>, E: set<Pos>, p: Pos)
    requires forall q :: q in qs ==> q in E
    requires p in PredictAll(L, qs)
    ensures p in Predicted(L, E)
  {
    PredictAllIn(L, qs, p);
  }

  /** After condense(pattern), every position that scattering contributions
      at stored positions through the constraints writes is stored. */
  lemma CondensedPatternCovers(L: Lines, E: set<Pos>, cs: seq<Contribution<Pos>>, p: Pos)
    requires forall k :: 0 <= k < |cs| ==> cs[k].pos in E
    requires p in Positions(ExpandAll(L, cs))
    ensures p in Predicted(L, E)
  {
    PredictionExact(L, cs);
    PredictAllWithin(L, Positions(cs), E, p);
  }

  /** Conversely every position condense(pattern) adds is one that some
      contribution at a stored position scatters to: the added positions are
      exactly those scatter needs. */
  lemma CondensedPatternExact(L: Lines, E: set<Pos>, p: Pos)
    requires p in Predicted(L, E)
    ensures exists q :: q in E && p in Positions(ExpandAll(L, [Contribution(q, 1.0)]))
  {
    var q :| q in E && p in PredictPositions(L, q);
    PredictionExact(L, [Contribution(q, 1.0)]);
    assert Positions([Contribution(q, 1.0)]) == [q];
    assert PredictAll(L, [q]) == PredictPositions(L, q) + PredictAll(L, []);
  }
}
