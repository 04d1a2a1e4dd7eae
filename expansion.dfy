/** Expansion of global indices through a constraint set: an unconstrained
    dof stands for itself with weight 1, a constrained one for its masters
    with their weights. A matrix contribution at (row, col) expands into the
    products of both expansions. Scatter (distribute_local_to_global) adds
    the expanded contributions, condense() redistributes the entries of an
    already assembled matrix the same way; this module proves the two agree. */
module Expansion {
  import opened Common
  import opened ConstraintLines
  import opened Closure
  import opened Sparse

  /** The expansion of one dof. */
  function ExpandDof(L: Lines, d: nat): seq<Entry>
  {
    if d in L then L[d].entries else [Entry(d, 1.0)]
  }

  /** One row entry times every column entry. */
  function Outer(er: Entry, C: seq<Entry>, v: real): (r: seq<Contribution<Pos>>)
    ensures |r| == |C|
  {
    if C == [] then []
    else [Contribution((er.master, C[0].master), v * er.weight * C[0].weight)] + Outer(er, C[1..], v)
  }

  function ExpandPair(R: seq<Entry>, C: seq<Entry>, v: real): seq<Contribution<Pos>>
  {
    if R == [] then [] else Outer(R[0], C, v) + ExpandPair(R[1..], C, v)
  }

  /** The global contributions one local entry turns into. */
  function ExpandContribution(L: Lines, c: Contribution<Pos>): seq<Contribution<Pos>>
  {
    ExpandPair(ExpandDof(L, c.pos.0), ExpandDof(L, c.pos.1), c.value)
  }

  function ExpandAll(L: Lines, cs: seq<Contribution<Pos>>): seq<Contribution<Pos>>
  {
    if cs == [] then [] else ExpandContribution(L, cs[0]) + ExpandAll(L, cs[1..])
  }

  /** Expanding two lists one after the other is expanding their
      concatenation. */
  lemma {:induction false} ExpandAllConcat(L: Lines, a: seq<Contribution<Pos>>, b: seq<Contribution<Pos>>)
    ensures ExpandAll(L, a + b) == ExpandAll(L, a) + ExpandAll(L, b)
    decreases |a|
  {
    if a != [] {
      assert (a + b)[1..] == a[1..] + b;
      ExpandAllConcat(L, a[1..], b);
    } else {
      assert a + b == b;
    }
  }

  // ---------------------------------------------------------------------
  // Arithmetic steps, kept apart so that the inductions see no products.

  lemma SplitFactor(a: real, b: real, r: real, c: real)
    ensures (a + b) * r * c == a * r * c + b * r * c
  {
  }

  lemma {:induction false} OuterZero(er: Entry, C: seq<Entry>, p: Pos)
    ensures SumAt(Outer(er, C, 0.0), p) == 0.0
  {
    if C != [] {
      assert Outer(er, C, 0.0)[1..] == Outer(er, C[1..], 0.0);
      OuterZero(er, C[1..], p);
    }
  }

  lemma {:induction false} OuterLinear(er: Entry, C: seq<Entry>, a: real, b: real, p: Pos)
    ensures SumAt(Outer(er, C, a + b), p) == SumAt(Outer(er, C, a), p) + SumAt(Outer(er, C, b), p)
  {
    if C != [] {
      assert Outer(er, C, a + b)[1..] == Outer(er, C[1..], a + b);
      assert Outer(er, C, a)[1..] == Outer(er, C[1..], a);
      assert Outer(er, C, b)[1..] == Outer(er, C[1..], b);
      OuterLinear(er, C[1..], a, b, p);
      SplitFactor(a, b, er.weight, C[0].weight);
    }
  }

  lemma {:induction false} PairLinear(R: seq<Entry>, C: seq<Entry>, a: real, b: real, p: Pos)
    ensures SumAt(ExpandPair(R, C, a + b), p) == SumAt(ExpandPair(R, C, a), p) + SumAt(ExpandPair(R, C, b), p)
  {
    if R != [] {
      PairLinear(R[1..], C, a, b, p);
      OuterLinear(R[0], C, a, b, p);
      SumAtConcat(Outer(R[0], C, a + b), ExpandPair(R[1..], C, a + b), p);
      SumAtConcat(Outer(R[0], C, a), ExpandPair(R[1..], C, a), p);
      SumAtConcat(Outer(R[0], C, b), ExpandPair(R[1..], C, b), p);
    }
  }

  lemma {:induction false} PairZero(R: seq<Entry>, C: seq<Entry>, p: Pos)
    ensures SumAt(ExpandPair(R, C, 0.0), p) == 0.0
  {
    if R != [] {
      SumAtConcat(Outer(R[0], C, 0.0), ExpandPair(R[1..], C, 0.0), p);
      OuterZero(R[0], C, p);
      PairZero(R[1..], C, p);
    }
  }

  /** Scattering is linear in the value scattered. */
  lemma ScatterLinear(L: Lines, q: Pos, a: real, b: real, p: Pos)
    ensures SumAt(ExpandContribution(L, Contribution(q, a + b)), p)
         == SumAt(ExpandContribution(L, Contribution(q, a)), p)
          + SumAt(ExpandContribution(L, Contribution(q, b)), p)
  {
    PairLinear(ExpandDof(L, q.0), ExpandDof(L, q.1), a, b, p);
  }

  /** A zero entry scatters nothing. */
  lemma ScatterZero(L: Lines, q: Pos, p: Pos)
    ensures SumAt(ExpandContribution(L, Contribution(q, 0.0)), p) == 0.0
  {
    PairZero(ExpandDof(L, q.0), ExpandDof(L, q.1), p);
  }

  // ---------------------------------------------------------------------
  // Condensing an assembled matrix.

  /** The value condense() gives position p of a matrix whose slot k holds
      vals[k] at layout[k]: every stored entry redistributed along the
      expansion of its row and column. */
  function CondensedAt(L: Lines, layout: seq<Pos>, vals: seq<real>, p: Pos): real
    requires |vals| == |layout|
  {
    if layout == [] then 0.0
    else
      SumAt(ExpandContribution(L, Contribution(layout[0], vals[0])), p)
      + CondensedAt(L, layout[1..], vals[1..], p)
  }

  lemma {:induction false} CondensedAtZero(L: Lines, layout: seq<Pos>, p: Pos)
    ensures CondensedAt(L, layout, Zeros(|layout|), p) == 0.0
  {
    if layout != [] {
      assert Zeros(|layout|)[1..] == Zeros(|layout| - 1);
      CondensedAtZero(L, layout[1..], p);
      ScatterZero(L, layout[0], p);
    }
  }

  /** Condensing is linear in the stored values: raising one slot by x
      raises the result by what x scattered from that slot adds. */
  lemma {:induction false} CondensedAtBump(L: Lines, layout: seq<Pos>, vals: seq<real>, kk: nat, x: real, p: Pos)
    requires |vals| == |layout| && kk < |layout|
    ensures CondensedAt(L, layout, vals[kk := vals[kk] + x], p)
         == CondensedAt(L, layout, vals, p) + SumAt(ExpandContribution(L, Contribution(layout[kk], x)), p)
  {
    var bumped := vals[kk := vals[kk] + x];
    if kk == 0 {
      assert bumped[1..] == vals[1..];
      ScatterLinear(L, layout[0], vals[0], x, p);
    } else {
      assert bumped[1..] == vals[1..][kk - 1 := vals[1..][kk - 1] + x];
      CondensedAtBump(L, layout[1..], vals[1..], kk - 1, x, p);
    }
  }

  /** Adding contributions inside the pattern, then condensing, is condensing
      first and adding what the contributions scatter. */
  lemma {:induction false} CondensedAtAfterAdds(L: Lines, layout: seq<Pos>, vals: seq<real>, cs: seq<Contribution<Pos>>, p: Pos)
    requires |vals| == |layout| && Distinct(layout)
    requires InPattern(layout, cs)
    ensures CondensedAt(L, layout, ApplyAdds(layout, vals, cs).0, p)
         == CondensedAt(L, layout, vals, p) + SumAt(ExpandAll(L, cs), p)
    decreases |cs|
  {
    if cs != [] {
      var c := cs[0];
      InPatternTail(layout, cs);
      SumAtConcat(ExpandContribution(L, c), ExpandAll(L, cs[1..]), p);
      if c.value == 0.0 {
        CondensedAtAfterAdds(L, layout, vals, cs[1..], p);
        ScatterZero(L, c.pos, p);
      } else {
        var kk := IndexOf(layout, c.pos).value;
        var vals' := vals[kk := vals[kk] + c.value];
        assert ApplyAdds(layout, vals, cs) == ApplyAdds(layout, vals', cs[1..]);
        CondensedAtAfterAdds(L, layout, vals', cs[1..], p);
        CondensedAtBump(L, layout, vals, kk, c.value, p);
      }
    }
  }

  /** Scatter/condense equivalence. Assembling the local contributions
      unconstrained and condensing the assembled matrix gives, at every
      position, what scattering them with the constraints resolved inline
      gives, provided the pattern holds every position either pass writes. */
  lemma ScatterCondenseEquivalence(L: Lines, layout: seq<Pos>, cs: seq<Contribution<Pos>>, k: nat)
    requires Distinct(layout) && k < |layout|
    requires InPattern(layout, cs) && InPattern(layout, ExpandAll(L, cs))
    ensures ApplyAdds(layout, Zeros(|layout|), ExpandAll(L, cs)).0[k]
         == CondensedAt(L, layout, ApplyAdds(layout, Zeros(|layout|), cs).0, layout[k])
  {
    ApplyAddsInPattern(layout, Zeros(|layout|), ExpandAll(L, cs));
    CondensedAtAfterAdds(L, layout, Zeros(|layout|), cs, layout[k]);
    CondensedAtZero(L, layout, layout[k]);
  }

  // ---------------------------------------------------------------------
  // Where expanded contributions land.

  /** The positions of a list of contributions. */
  function Positions(cs: seq<Contribution<Pos>>): (r: seq<Pos>)
    ensures |r| == |cs| && forall i :: 0 <= i < |cs| ==> r[i] == cs[i].pos
  {
    seq(|cs|, i requires 0 <= i < |cs| => cs[i].pos)
  }

  /** The index-only expansion used to predict the sparsity pattern. */
  function OuterPositions(m: nat, C: seq<Entry>): seq<Pos>
  {
    if C == [] then [] else [(m, C[0].master)] + OuterPositions(m, C[1..])
  }

  function PairPositions(R: seq<Entry>, C: seq<Entry>): seq<Pos>
  {
    if R == [] then [] else OuterPositions(R[0].master, C) + PairPositions(R[1..], C)
  }

  function PredictPositions(L: Lines, q: Pos): seq<Pos>
  {
    PairPositions(ExpandDof(L, q.0), ExpandDof(L, q.1))
  }

  function PredictAll(L: Lines, qs: seq<Pos>): seq<Pos>
  {
    if qs == [] then [] else PredictPositions(L, qs[0]) + PredictAll(L, qs[1..])
  }

  lemma PositionsConcat(a: seq<Contribution<Pos>>, b: seq<Contribution<Pos>>)
    ensures Positions(a + b) == Positions(a) + Positions(b)
  {
  }

  lemma {:induction false} OuterPositionsExact(er: Entry, C: seq<Entry>, v: real)
    ensures Positions(Outer(er, C, v)) == OuterPositions(er.master, C)
  {
    if C != [] {
      OuterPositionsExact(er, C[1..], v);
      PositionsConcat([Contribution((er.master, C[0].master), v * er.weight * C[0].weight)], Outer(er, C[1..], v));
    }
  }

  lemma {:induction false} PairPositionsExact(R: seq<Entry>, C: seq<Entry>, v: real)
    ensures Positions(ExpandPair(R, C, v)) == PairPositions(R, C)
  {
    if R != [] {
      OuterPositionsExact(R[0], C, v);
      PairPositionsExact(R[1..], C, v);
      PositionsConcat(Outer(R[0], C, v), ExpandPair(R[1..], C, v));
    }
  }

  /** Sparsity prediction is exact: the index-only pass yields, in order,
      exactly the positions the numeric scatter writes, whatever the values. */
  lemma {:induction false} PredictionExact(L: Lines, cs: seq<Contribution<Pos>>)
    ensures Positions(ExpandAll(L, cs)) == PredictAll(L, Positions(cs))
  {
    if cs != [] {
      PairPositionsExact(ExpandDof(L, cs[0].pos.0), ExpandDof(L, cs[0].pos.1), cs[0].value);
      PredictionExact(L, cs[1..]);
      PositionsConcat(ExpandContribution(L, cs[0]), ExpandAll(L, cs[1..]));
      assert Positions(cs)[1..] == Positions(cs[1..]);
    }
  }

  /** The predicted positions of q: pairs of a row master and a column
      master. */
  lemma {:induction false} PairPositionsIn(R: seq<Entry>, C: seq<Entry>, p: Pos)
    ensures p in PairPositions(R, C) <==> p.0 in Masters(R) && p.1 in Masters(C)
  {
    if R != [] {
      PairPositionsIn(R[1..], C, p);
      OuterPositionsIn(R[0].master, C, p);
    }
  }

  lemma {:induction false} OuterPositionsIn(m: nat, C: seq<Entry>, p: Pos)
    ensures p in OuterPositions(m, C) <==> p.0 == m && p.1 in Masters(C)
  {
    if C != [] {
      OuterPositionsIn(m, C[1..], p);
    }
  }

  /** With a chain-free set, expanded positions never touch a constrained
      row or column. */
  lemma ExpandAvoidsConstrained(L: Lines, cs: seq<Contribution<Pos>>, p: Pos)
    requires ChainFree(L)
    requires p in Positions(ExpandAll(L, cs))
    ensures p.0 !in L && p.1 !in L
  {
    PredictionExact(L, cs);
    PredictAllIn(L, Positions(cs), p);
    var q :| q in Positions(cs) && p in PredictPositions(L, q);
    PairPositionsIn(ExpandDof(L, q.0), ExpandDof(L, q.1), p);
  }

  lemma {:induction false} PredictAllIn(L: Lines, qs: seq<Pos>, p: Pos)
    ensures p in PredictAll(L, qs) <==> exists q :: q in qs && p in PredictPositions(L, q)
  {
    if qs != [] {
      PredictAllIn(L, qs[1..], p);
      if p in PredictPositions(L, qs[0]) {
        assert qs[0] in qs;
      }
      if exists q :: q in qs[1..] && p in PredictPositions(L, q) {
        var q :| q in qs[1..] && p in PredictPositions(L, q);
        assert q in qs;
      }
      if exists q :: q in qs && p in PredictPositions(L, q) {
        var q :| q in qs && p in PredictPositions(L, q);
        if q != qs[0] {
          assert q in qs[1..];
        }
      }
    }
  }
}
