/** The constraint object AffineConstraints: a store of lines that is open
    while it is filled, closed by close(), and afterwards applied to
    matrices, sparsity patterns and vectors. */
module Constraints {
  import opened Common
  import opened ConstraintLines
  import opened Closure
  import opened Merge
  import opened Sparse
  import opened Expansion
  import opened Condensation
  import opened VectorExpansion

  class AffineConstraints {
    var lines: Lines
    var closed: bool

    /** A closed object holds its lines in closed form. */
    ghost predicate Valid()
      reads this
    {
      closed ==> ClosedForm(lines)
    }

    /** An empty, open object. */
    constructor ()
      ensures Valid() && lines == map[] && !closed
    {
      lines := map[];
      closed := false;
    }

    /** clear(): back to an empty, open object. */
    method Clear()
      modifies this
      ensures Valid() && lines == map[] && !closed
    {
      lines := map[];
      closed := false;
    }

    /** is_constrained(d): whether d has a line. Once the object is closed,
        a constrained dof is the master of no line. */
    function IsConstrained(d: nat): (r: bool)
      reads this
      ensures r <==> d in lines
      ensures r && closed && Valid() ==> forall c :: c in lines ==> d !in Masters(lines[c].entries)
    {
      d in lines
    }

    /** is_closed(): when it holds, every line is sorted and names only
        unconstrained masters. */
    function IsClosed(): (r: bool)
      reads this
      ensures r && Valid() ==> ChainFree(lines) && forall d :: d in lines ==> StrictlySorted(lines[d].entries)
    {
      closed
    }

    /** get_constraint_entries(d): the entries of d's line, if d has one. */
    function ConstraintEntries(d: nat): (r: Option<seq<Entry>>)
      reads this
      ensures r.Some? <==> IsConstrained(d)
    {
      if d in lines then Some(lines[d].entries) else None
    }

    /** add_line(d): registers d with no entries and no offset; a line that
        is already there is left as it is. */
    method AddLine(d: nat) returns (o: Outcome)
      requires Valid()
      modifies this
      ensures Valid() && closed == old(closed)
      ensures old(closed) ==> o == Fail(MatrixIsClosed) && lines == old(lines)
      ensures !old(closed) ==>
        o == Pass && lines == (if d in old(lines) then old(lines) else old(lines)[d := Line([], 0.0)])
    {
      if closed {
        return Fail(MatrixIsClosed);
      }
      if d !in lines {
        lines := lines[d := Line([], 0.0)];
      }
      o := Pass;
    }

    /** add_entry(d, m, w): appends the term w · x[m] to d's line. Duplicates
        are summed later by close(). */
    method AddEntry(d: nat, m: nat, w: real) returns (o: Outcome)
      requires Valid()
      modifies this
      ensures Valid() && closed == old(closed)
      ensures o == (if old(closed) then Fail(MatrixIsClosed)
                    else if d !in old(lines) then Fail(LineNotPresent(d))
                    else if m == d then Fail(SelfConstraint(d))
                    else Pass)
      ensures o.Fail? ==> lines == old(lines)
      ensures o.Pass? ==>
        lines == old(lines)[d := Line(old(lines)[d].entries + [Entry(m, w)], old(lines)[d].inhomogeneity)]
    {
      if closed {
        return Fail(MatrixIsClosed);
      }
      if d !in lines {
        return Fail(LineNotPresent(d));
      }
      if m == d {
        return Fail(SelfConstraint(d));
      }
      lines := lines[d := Line(lines[d].entries + [Entry(m, w)], lines[d].inhomogeneity)];
      o := Pass;
    }

    /** set_inhomogeneity(d, c): replaces the offset of d's line. */
    method SetInhomogeneity(d: nat, c: real) returns (o: Outcome)
      requires Valid()
      modifies this
      ensures Valid() && closed == old(closed)
      ensures o == (if old(closed) then Fail(MatrixIsClosed)
                    else if d !in old(lines) then Fail(LineNotPresent(d))
                    else Pass)
      ensures o.Fail? ==> lines == old(lines)
      ensures o.Pass? ==> lines == old(lines)[d := Line(old(lines)[d].entries, c)]
    {
      if closed {
        return Fail(MatrixIsClosed);
      }
      if d !in lines {
        return Fail(LineNotPresent(d));
      }
      lines := lines[d := Line(lines[d].entries, c)];
      o := Pass;
    }

    /** constrain_dof_to_zero(d): the line x[d] = 0, with no entries and no
        offset, for a dof without a line; a line d already has is kept. Every
        caller passes an unconstrained dof. */
    method ConstrainDofToZero(d: nat) returns (o: Outcome)
      requires Valid()
      modifies this
      ensures Valid() && closed == old(closed)
      ensures old(closed) ==> o == Fail(MatrixIsClosed) && lines == old(lines)
      ensures !old(closed) ==>
        o == Pass && lines == (if d in old(lines) then old(lines) else old(lines)[d := Line([], 0.0)])
    {
      o := AddLine(d);
    }

    /** close(): resolves chains, drops zero weights and sorts every line. A
        cycle leaves the object open and unchanged; closing a closed object
        changes nothing. */
    method Close() returns (o: Outcome)
      requires Valid()
      modifies this
      ensures Valid()
      ensures old(closed) ==> o == Pass && closed && lines == old(lines)
      ensures !old(closed) && Closure.Close(old(lines)).Ok? ==>
        o == Pass && closed && lines == Closure.Close(old(lines)).value
      ensures !old(closed) && Closure.Close(old(lines)).Err? ==>
        o == Fail(Closure.Close(old(lines)).error) && !closed && lines == old(lines)
    {
      if closed {
        return Pass;
      }
      match Closure.Close(lines)
      case Ok(c) =>
        lines, closed := c, true;
        o := Pass;
      case Err(e) =>
        o := Fail(e);
    }

    /** merge(other, policy): adds other's lines to this object as the policy
        decides, substituting them into this object's entries; a closed
        receiver is closed again afterwards. */
    method Merge(other: AffineConstraints, policy: MergeConflictBehavior) returns (o: Outcome)
      requires Valid()
      modifies this
      ensures Valid()
      ensures MergeLines(old(lines), old(other.lines), policy).Err? ==>
        o == Fail(MergeLines(old(lines), old(other.lines), policy).error) &&
        lines == old(lines) && closed == old(closed)
      ensures MergeLines(old(lines), old(other.lines), policy).Ok? && !old(closed) ==>
        o == Pass && !closed && lines == MergeLines(old(lines), old(other.lines), policy).value
      ensures MergeLines(old(lines), old(other.lines), policy).Ok? && old(closed) ==>
        var m := MergeLines(old(lines), old(other.lines), policy).value;
        if Closure.Close(m).Ok? then o == Pass && closed && lines == Closure.Close(m).value
        else o == Fail(Closure.Close(m).error) && !closed && lines == m
    {
      match MergeLines(lines, other.lines, policy)
      case Err(e) =>
        o := Fail(e);
      case Ok(m) =>
        if !closed {
          lines := m;
          o := Pass;
        } else {
          match Closure.Close(m)
          case Ok(c) =>
            lines := c;
            o := Pass;
          case Err(e) =>
            lines, closed := m, false;
            o := Fail(e);
        }
    }

    /** distribute(v): writes every constrained entry from its masters and
        its offset. Masters are unconstrained once closed, so one pass in
        place suffices and leaves v meeting every constraint. */
    method Distribute(v: array<real>)
      requires Valid() && closed && Fits(lines, v.Length)
      modifies v
      ensures v[..] == Distributed(lines, old(v[..]))
      ensures Satisfies(lines, v[..])
    {
      ghost var u := v[..];
      var i := 0;
      while i < v.Length
        invariant 0 <= i <= v.Length
        invariant forall j :: 0 <= j < v.Length ==>
          v[j] == if j < i && j in lines then LineValue(lines[j], u) else u[j]
      {
        if i in lines {
          var es := lines[i].entries;
          var s := EvalLine(v, es);
          forall e | e in es ensures At(v[..], e.master) == At(u, e.master) {
            assert e.master !in lines by { MastersInEntry(es, e); }
          }
          EvalAgree(es, v[..], u);
          v[i] := s + lines[i].inhomogeneity;
        }
        i := i + 1;
      }
      DistributedSatisfies(lines, u);
    }

    /** condense(v): moves every constrained entry onto its masters, scaled
        by their weights, and zeroes it. Masters are unconstrained once
        closed, so one pass in place suffices. */
    method CondenseVector(v: array<real>)
      requires Valid() && closed && Fits(lines, v.Length)
      modifies v
      ensures v[..] == Condensed(lines, old(v[..]))
    {
      ghost var u := v[..];
      ghost var cs := VectorContributions(u);
      var i := 0;
      while i < v.Length
        invariant 0 <= i <= v.Length
        invariant forall j :: 0 <= j < v.Length ==>
          v[j] == SumAt(ExpandIndices(lines, cs[..i]), j) + (if j >= i then u[j] else 0.0)
      {
        ghost var before := v[..];
        if i in lines {
          var x := v[i];
          AddScaledLine(v, lines[i].entries, x);
          v[i] := 0.0;
        }
        CondenseVectorStep(lines, u, cs, i, before, v[..]);
        i := i + 1;
      }
      assert cs[..i] == cs;
    }

    /** condense(sparsity): adds every position that scattering a stored
        position through the constraints reaches. */
    method CondensePattern(sp: SparsityPattern) returns (o: Outcome)
      requires Valid() && closed && sp.Valid() && sp.rows == sp.cols && Fits(lines, sp.rows)
      modifies sp
      ensures sp.Valid()
      ensures sp.rows == old(sp.rows) && sp.cols == old(sp.cols) && sp.compressed == old(sp.compressed)
      ensures sp.layout == old(sp.layout)
      ensures old(sp.compressed) ==> o == Fail(MatrixIsCompressed) && sp.entries == old(sp.entries)
      ensures !old(sp.compressed) ==> o == Pass && sp.entries == old(sp.entries) + Predicted(lines, old(sp.entries))
    {
      if sp.compressed {
        return Fail(MatrixIsCompressed);
      }
      forall p | p in Predicted(lines, sp.entries) ensures p.0 < sp.rows && p.1 < sp.cols {
        PredictedInBounds(lines, sp.entries, sp.rows, p);
      }
      sp.entries := sp.entries + Predicted(lines, sp.entries);
      o := Pass;
    }

    /** condense(matrix): every stored entry redistributed through the
        constraints, constrained rows and columns zeroed and their diagonal
        set to 1. A position the pattern lacks is reported before anything
        is changed. */
    method CondenseMatrix(m: SparseMatrix) returns (o: Outcome)
      requires Valid() && closed && m.Valid()
      modifies m.val
      ensures !InPattern(m.layout, ExpandAll(lines, StoredContributions(m.layout, old(m.val[..])))) ==>
        o.Fail? && o.error.IncompatibleSparsityPattern? && m.val[..] == old(m.val[..])
      ensures InPattern(m.layout, ExpandAll(lines, StoredContributions(m.layout, old(m.val[..])))) ==>
        o == Pass && m.val[..] == CondensedValues(lines, m.layout, old(m.val[..]))
    {
      var targets := ExpandAll(lines, StoredContributions(m.layout, m.val[..]));
      var outside := FirstOutside(m.layout, targets);
      if outside.Some? {
        return Fail(IncompatibleSparsityPattern(outside.value.0, outside.value.1));
      }
      forall k | 0 <= k < m.val.Length {
        m.val[k] := 0.0;
      }
      assert m.val[..] == Zeros(|m.layout|);
      var added := m.AddAll(targets);
      forall k | 0 <= k < m.val.Length && ConstrainedDiagonal(lines, m.layout[k]) {
        m.val[k] := 1.0;
      }
      o := Pass;
    }

    /** distribute_local_to_global(cell_matrix, indices, matrix): adds the
        cell matrix with each row and column expanded through the
        constraints. */
    method DistributeLocalToGlobal(cell: seq<seq<real>>, indices: seq<nat>, m: SparseMatrix) returns (o: Outcome)
      requires Valid() && closed && m.Valid() && CellShape(cell, indices)
      modifies m.val
      ensures (m.val[..], o) == ApplyAdds(m.layout, old(m.val[..]), ExpandAll(lines, CellContributions(cell, indices, indices)))
    {
      o := m.AddAll(ExpandAll(lines, CellContributions(cell, indices, indices)));
    }
  }

  /** Σ w · v[m] over the entries (m, w) of a line. */
  method EvalLine(v: array<real>, es: seq<Entry>) returns (s: real)
    requires forall e :: e in es ==> e.master < v.Length
    ensures s == Eval(es, v[..])
  {
    s := 0.0;
    var k := 0;
    while k < |es|
      invariant 0 <= k <= |es|
      invariant s == Eval(es[..k], v[..])
    {
      assert es[k] in es;
      EvalSnoc(es, k, v[..]);
      s := s + es[k].weight * v[es[k].master];
      k := k + 1;
    }
    assert es[..k] == es;
  }

  /** v[m] += x · w for every entry (m, w) of a line. */
  method AddScaledLine(v: array<real>, es: seq<Entry>, x: real)
    requires forall e :: e in es ==> e.master < v.Length
    modifies v
    ensures forall j :: 0 <= j < v.Length ==> v[j] == old(v[j]) + SumAt(LineContributions(es, x), j)
  {
    var k := 0;
    while k < |es|
      invariant 0 <= k <= |es|
      invariant forall j :: 0 <= j < v.Length ==> v[j] == old(v[j]) + SumAt(LineContributions(es[..k], x), j)
    {
      assert es[k] in es;
      forall j | 0 <= j < v.Length
        ensures (if j == es[k].master then v[j] + x * es[k].weight else v[j])
             == old(v[j]) + SumAt(LineContributions(es[..k + 1], x), j)
      {
        LineContributionsSnoc(es, x, k, j);
      }
      v[es[k].master] := v[es[k].master] + x * es[k].weight;
      k := k + 1;
    }
    assert es[..k] == es;
  }

  lemma EvalSnoc(es: seq<Entry>, k: nat, u: seq<real>)
    requires k < |es|
    ensures Eval(es[..k + 1], u) == Eval(es[..k], u) + Term(es[k], u)
  {
    assert es[..k + 1] == es[..k] + [es[k]];
    EvalConcat(es[..k], [es[k]], u);
  }

  /** A line's contributions never land on a constrained dof. */
  lemma LineContributionsAvoid(L: Lines, d: nat, x: real)
    requires ChainFree(L) && d in L
    ensures forall j :: j in L ==> SumAt(LineContributions(L[d].entries, x), j) == 0.0
  {
    var es := L[d].entries;
    forall j | j in L ensures SumAt(LineContributions(es, x), j) == 0.0 {
      forall k | 0 <= k < |es| ensures LineContributions(es, x)[k].pos != j {
        assert es[k].master in Masters(es) by { MastersIn(es, es[k].master); }
      }
      SumAtAbsent(LineContributions(es, x), j);
    }
  }

  /** One position of condense(v): an unconstrained entry stays, a
      constrained one moves onto its masters. */
  lemma CondenseVectorStep(L: Lines, u: seq<real>, cs: seq<Contribution<nat>>, i: nat, before: seq<real>, after: seq<real>)
    requires ChainFree(L) && cs == VectorContributions(u) && i < |u|
    requires |before| == |u| && |after| == |u|
    requires forall j :: 0 <= j < |u| ==>
      before[j] == SumAt(ExpandIndices(L, cs[..i]), j) + (if j >= i then u[j] else 0.0)
    requires i !in L ==> after == before
    requires i in L ==> after[i] == 0.0
    requires i in L ==> forall j :: 0 <= j < |u| && j != i ==>
      after[j] == before[j] + SumAt(LineContributions(L[i].entries, before[i]), j)
    ensures forall j :: 0 <= j < |u| ==>
      after[j] == SumAt(ExpandIndices(L, cs[..i + 1]), j) + (if j >= i + 1 then u[j] else 0.0)
  {
    if i in L {
      ExpandIndicesAvoid(L, cs[..i], i);
      LineContributionsAvoid(L, i, before[i]);
    }
    forall j | 0 <= j < |u|
      ensures after[j] == SumAt(ExpandIndices(L, cs[..i + 1]), j) + (if j >= i + 1 then u[j] else 0.0)
    {
      CondenseStep(L, cs, i, j);
    }
  }

  lemma CondenseStep(L: Lines, cs: seq<Contribution<nat>>, i: nat, j: nat)
    requires i < |cs|
    ensures SumAt(ExpandIndices(L, cs[..i + 1]), j)
         == SumAt(ExpandIndices(L, cs[..i]), j) + SumAt(ExpandIndex(L, cs[i]), j)
  {
    assert cs[..i + 1] == cs[..i] + [cs[i]];
    ExpandIndicesConcat(L, cs[..i], [cs[i]]);
    ExpandIndicesSingle(L, cs[i]);
    SumAtConcat(ExpandIndices(L, cs[..i]), ExpandIndex(L, cs[i]), j);
  }

  lemma PredictedInBounds(L: Lines, E: set<Pos>, n: nat, p: Pos)
    requires Fits(L, n) && forall q :: q in E ==> q.0 < n && q.1 < n
    requires p in Predicted(L, E)
    ensures p.0 < n && p.1 < n
  {
    var q :| q in E && p in PredictPositions(L, q);
    PairPositionsIn(ExpandDof(L, q.0), ExpandDof(L, q.1), p);
    ExpandDofBelow(L, q.0, n, p.0);
    ExpandDofBelow(L, q.1, n, p.1);
  }

  lemma ExpandDofBelow(L: Lines, d: nat, n: nat, m: nat)
    requires Fits(L, n) && d < n && m in Masters(ExpandDof(L, d))
    ensures m < n
  {
    MastersIn(ExpandDof(L, d), m);
    var i :| 0 <= i < |ExpandDof(L, d)| && ExpandDof(L, d)[i].master == m;
    if d in L {
      assert ExpandDof(L, d)[i] in L[d].entries;
    }
  }
}
