/** Vectors through a constraint set. condense(vector) moves the value of
    every constrained entry onto its masters, scaled by their weights, and
    zeroes the constrained entry; distribute(vector) does the converse and
    writes every constrained entry from its masters and its inhomogeneity. */
module VectorExpansion {
  import opened Common
  import opened ConstraintLines
  import opened Closure

  /** Every line's dof and every master lie inside a vector of length n. */
  predicate Fits(L: Lines, n: nat)
  {
    forall d :: d in L ==> d < n && forall e :: e in L[d].entries ==> e.master < n
  }

  /** The indices of a vector of length n. */
  function Below(n: nat): (r: set<nat>)
    ensures forall m: nat :: m in r <==> m < n
  {
    if n == 0 then {} else Below(n - 1) + {n - 1}
  }

  /** A set that fits a vector still fits it once closed. */
  lemma CloseFits(L: Lines, n: nat)
    requires Fits(L, n) && Close(L).Ok?
    ensures Fits(Close(L).value, n)
  {
    var below := Below(n);
    forall d | d in L ensures Masters(L[d].entries) <= below {
      forall m | m in Masters(L[d].entries) ensures m < n {
        MastersIn(L[d].entries, m);
      }
    }
    CloseMastersWithin(L, below);
    var C := Close(L).value;
    forall d, e | d in C && e in C[d].entries ensures e.master < n {
      var i :| 0 <= i < |C[d].entries| && C[d].entries[i] == e;
      MastersIn(C[d].entries, e.master);
    }
  }

  /** The contributions x · weight at each master of a list. */
  function LineContributions(es: seq<Entry>, x: real): (r: seq<Contribution<nat>>)
    ensures |r| == |es|
    ensures forall k :: 0 <= k < |es| ==> r[k] == Contribution(es[k].master, x * es[k].weight)
  {
    seq(|es|, k requires 0 <= k < |es| => Contribution(es[k].master, x * es[k].weight))
  }

  /** Where a vector contribution goes: to itself when unconstrained, to the
      masters otherwise. */
  function ExpandIndex(L: Lines, c: Contribution<nat>): seq<Contribution<nat>>
  {
    if c.pos in L then LineContributions(L[c.pos].entries, c.value) else [c]
  }

  function ExpandIndices(L: Lines, cs: seq<Contribution<nat>>): seq<Contribution<nat>>
  {
    if cs == [] then [] else ExpandIndex(L, cs[0]) + ExpandIndices(L, cs[1..])
  }

  lemma {:induction false} ExpandIndicesConcat(L: Lines, a: seq<Contribution<nat>>, b: seq<Contribution<nat>>)
    ensures ExpandIndices(L, a + b) == ExpandIndices(L, a) + ExpandIndices(L, b)
  {
    if a == [] {
      assert a + b == b;
    } else {
      assert (a + b)[1..] == a[1..] + b;
      ExpandIndicesConcat(L, a[1..], b);
    }
  }

  lemma ExpandIndicesSingle(L: Lines, c: Contribution<nat>)
    ensures ExpandIndices(L, [c]) == ExpandIndex(L, c)
  {
    assert ExpandIndices(L, [c]) == ExpandIndex(L, c) + ExpandIndices(L, []);
  }

  /** The entries of a vector as contributions at their own index. */
  function VectorContributions(u: seq<real>): (r: seq<Contribution<nat>>)
    ensures |r| == |u| && forall i :: 0 <= i < |u| ==> r[i] == Contribution(i, u[i])
  {
    seq(|u|, i requires 0 <= i < |u| => Contribution(i, u[i]))
  }

  /** The vector a list of contributions adds up to. */
  function Assemble(cs: seq<Contribution<nat>>, n: nat): (r: seq<real>)
    ensures |r| == n && forall i :: 0 <= i < n ==> r[i] == SumAt(cs, i)
  {
    seq(n, i requires 0 <= i < n => SumAt(cs, i))
  }

  /** condense(u): every entry redistributed along the expansion of its
      index. */
  function Condensed(L: Lines, u: seq<real>): (r: seq<real>)
    ensures |r| == |u|
  {
    Assemble(ExpandIndices(L, VectorContributions(u)), |u|)
  }

  /** distribute(u): each constrained entry set to the value its line
      prescribes, the others kept. */
  function Distributed(L: Lines, u: seq<real>): (r: seq<real>)
    ensures |r| == |u|
  {
    seq(|u|, i requires 0 <= i < |u| => if i in L then LineValue(L[i], u) else u[i])
  }

  // ---------------------------------------------------------------------
  // Where expanded vector contributions land.

  /** With a chain-free set, no expanded contribution lands on a constrained
      index. */
  lemma {:induction false} ExpandIndicesAvoid(L: Lines, cs: seq<Contribution<nat>>, d: nat)
    requires ChainFree(L) && d in L
    ensures SumAt(ExpandIndices(L, cs), d) == 0.0
  {
    if cs != [] {
      var c := cs[0];
      SumAtConcat(ExpandIndex(L, c), ExpandIndices(L, cs[1..]), d);
      ExpandIndicesAvoid(L, cs[1..], d);
      if c.pos in L {
        var es := L[c.pos].entries;
        forall k | 0 <= k < |es| ensures LineContributions(es, c.value)[k].pos != d {
          assert es[k].master in Masters(es) by { MastersIn(es, es[k].master); }
        }
        SumAtAbsent(LineContributions(es, c.value), d);
      }
    }
  }

  /** condense(u) is zero at every constrained index. */
  lemma CondensedZeroAtConstrained(L: Lines, u: seq<real>, d: nat)
    requires ChainFree(L) && d in L && d < |u|
    ensures Condensed(L, u)[d] == 0.0
  {
    ExpandIndicesAvoid(L, VectorContributions(u), d);
  }

  /** SumAt over the contributions of one line's entries, at position i,
      grows by one entry at a time. */
  lemma LineContributionsSnoc(es: seq<Entry>, x: real, k: nat, i: nat)
    requires k < |es|
    ensures SumAt(LineContributions(es[..k + 1], x), i)
         == SumAt(LineContributions(es[..k], x), i)
          + (if es[k].master == i then x * es[k].weight else 0.0)
  {
    var c := Contribution(es[k].master, x * es[k].weight);
    var a, b := LineContributions(es[..k + 1], x), LineContributions(es[..k], x) + [c];
    forall t | 0 <= t < |a| ensures a[t] == b[t] {
      if t < k { assert es[..k + 1][t] == es[..k][t]; }
    }
    assert a == b;
    SumAtConcat(LineContributions(es[..k], x), [c], i);
  }

  /** A vector in which every constrained entry equals the value its line
      prescribes from the other entries. */
  lemma DistributedSatisfies(L: Lines, u: seq<real>)
    requires ChainFree(L) && Fits(L, |u|)
    ensures Satisfies(L, Distributed(L, u))
  {
    var w := Distributed(L, u);
    forall d | d in L ensures At(w, d) == LineValue(L[d], w) {
      forall e | e in L[d].entries ensures At(u, e.master) == At(w, e.master) {
        assert e.master in Masters(L[d].entries) by { MastersInEntry(L[d].entries, e); }
      }
      EvalAgree(L[d].entries, u, w);
    }
  }

  lemma MastersInEntry(es: seq<Entry>, e: Entry)
    requires e in es
    ensures e.master in Masters(es)
  {
    var i :| 0 <= i < |es| && es[i] == e;
    MastersIn(es, e.master);
  }

  /** distribute() is idempotent: a distributed vector is its own
      distribution. */
  lemma DistributedIdempotent(L: Lines, u: seq<real>)
    requires ChainFree(L) && Fits(L, |u|)
    ensures Distributed(L, Distributed(L, u)) == Distributed(L, u)
  {
    var w := Distributed(L, u);
    DistributedSatisfies(L, u);
    forall i | 0 <= i < |u| ensures Distributed(L, w)[i] == w[i] {
      if i in L {
        assert At(w, i) == LineValue(L[i], w);
      }
    }
  }

  /** Distribution leaves every unconstrained entry alone, and a vector that
      already meets the constraints is left entirely alone. */
  lemma DistributedFixesSolutions(L: Lines, u: seq<real>)
    requires Satisfies(L, u)
    ensures Distributed(L, u) == u
  {
    forall i | 0 <= i < |u| ensures Distributed(L, u)[i] == u[i] {
      if i in L {
        assert At(u, i) == LineValue(L[i], u);
      }
    }
  }

  // ---------------------------------------------------------------------
  // Adding contributions to a vector, as `v(i) += x` does.

  /** Every contribution lands inside a vector of length n. */
  predicate InRange(cs: seq<Contribution<nat>>, n: nat)
  {
    forall k :: 0 <= k < |cs| ==> cs[k].pos < n
  }

  /** u with every contribution added at its index. */
  function AddedTo(u: seq<real>, cs: seq<Contribution<nat>>): (r: seq<real>)
    ensures |r| == |u|
  {
    seq(|u|, i requires 0 <= i < |u| => u[i] + SumAt(cs, i))
  }

  /** The contributions `v(indices[k]) += values[k]` of a local vector. */
  function LocalVector(indices: seq<nat>, values: seq<real>): (r: seq<Contribution<nat>>)
    requires |indices| == |values|
    ensures |r| == |indices| && forall k :: 0 <= k < |r| ==> r[k] == Contribution(indices[k], values[k])
  {
    seq(|indices|, k requires 0 <= k < |indices| => Contribution(indices[k], values[k]))
  }

  lemma SumAtSnoc(cs: seq<Contribution<nat>>, n: nat, i: nat)
    requires n < |cs|
    ensures SumAt(cs[..n + 1], i) == SumAt(cs[..n], i) + (if cs[n].pos == i then cs[n].value else 0.0)
  {
    assert cs[..n + 1] == cs[..n] + [cs[n]];
    SumAtConcat(cs[..n], [cs[n]], i);
  }

  /** Adds the contributions one after the other. */
  method AddContributions(v: array<real>, cs: seq<Contribution<nat>>)
    requires InRange(cs, v.Length)
    modifies v
    ensures v[..] == AddedTo(old(v[..]), cs)
  {
    ghost var u := v[..];
    var n := 0;
    while n < |cs|
      invariant 0 <= n <= |cs|
      invariant forall i :: 0 <= i < v.Length ==> v[i] == u[i] + SumAt(cs[..n], i)
    {
      var c := cs[n];
      v[c.pos] := v[c.pos] + c.value;
      forall i | 0 <= i < v.Length ensures v[i] == u[i] + SumAt(cs[..n + 1], i) {
        SumAtSnoc(cs, n, i);
      }
      n := n + 1;
    }
    assert cs[..n] == cs;
  }

  /** Adding two lists one after the other is adding their concatenation. */
  lemma AddedToConcat(u: seq<real>, a: seq<Contribution<nat>>, b: seq<Contribution<nat>>)
    ensures AddedTo(AddedTo(u, a), b) == AddedTo(u, a + b)
  {
    forall i | 0 <= i < |u| ensures AddedTo(AddedTo(u, a), b)[i] == AddedTo(u, a + b)[i] {
      SumAtConcat(a, b, i);
    }
  }
}
