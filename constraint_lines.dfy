/** The constraint line store: one line `x[dof] = Σ weight·x[master] + inhomogeneity`
    per constrained degree of freedom, with the operations on entry lists that
    close() and merge() are built from. */
module ConstraintLines {

  /** One term `weight · x[master]` of a constraint. */
  datatype Entry = Entry(master: nat, weight: real)

  /** The right-hand side of `x[dof] = Σ entries + inhomogeneity`. */
  datatype Line = Line(entries: seq<Entry>, inhomogeneity: real)

  /** The constraint set: at most one line per dof. */
  type Lines = map<nat, Line>

  /** Entry i of a vector, reading 0 past its end. */
  function At(v: seq<real>, i: nat): real
  {
    if i < |v| then v[i] else 0.0
  }

  /** One term weight · v[master]. */
  function Term(e: Entry, v: seq<real>): real
  {
    e.weight * At(v, e.master)
  }

  /** Σ weight · v[master] over an entry list. */
  function Eval(es: seq<Entry>, v: seq<real>): real
  {
    if es == [] then 0.0 else Term(es[0], v) + Eval(es[1..], v)
  }

  /** The value a line prescribes for its dof. */
  function LineValue(l: Line, v: seq<real>): real
  {
    Eval(l.entries, v) + l.inhomogeneity
  }

  /** v meets every equation of the set. */
  ghost predicate Satisfies(lines: Lines, v: seq<real>)
  {
    forall d {:trigger lines[d]} :: d in lines ==> At(v, d) == LineValue(lines[d], v)
  }

  function Masters(es: seq<Entry>): set<nat>
  {
    if es == [] then {} else {es[0].master} + Masters(es[1..])
  }

  lemma {:induction false} MastersIn(es: seq<Entry>, m: nat)
    ensures m in Masters(es) <==> exists i :: 0 <= i < |es| && es[i].master == m
  {
    if es != [] {
      MastersIn(es[1..], m);
      if m in Masters(es[1..]) {
        var i :| 0 <= i < |es[1..]| && es[1..][i].master == m;
        assert es[i + 1].master == m;
      }
      if exists i :: 0 <= i < |es| && es[i].master == m {
        var i :| 0 <= i < |es| && es[i].master == m;
        if i > 0 { assert es[1..][i - 1].master == m; }
      }
    }
  }

  lemma MastersSingle(e: Entry)
    ensures Masters([e]) == {e.master}
  {
    assert [e][1..] == [];
  }

  lemma {:induction false} MastersConcat(a: seq<Entry>, b: seq<Entry>)
    ensures Masters(a + b) == Masters(a) + Masters(b)
  {
    if a == [] {
      assert a + b == b;
    } else {
      assert (a + b)[1..] == a[1..] + b;
      MastersConcat(a[1..], b);
    }
  }

  /** Entries sorted by master, no master twice: the form close() leaves. */
  predicate StrictlySorted(es: seq<Entry>)
  {
    forall i, j :: 0 <= i < j < |es| ==> es[i].master < es[j].master
  }

  // ---------------------------------------------------------------------
  // Evaluation facts

  lemma {:induction false} EvalConcat(a: seq<Entry>, b: seq<Entry>, v: seq<real>)
    ensures Eval(a + b, v) == Eval(a, v) + Eval(b, v)
  {
    if a == [] {
      assert a + b == b;
    } else {
      assert (a + b)[1..] == a[1..] + b;
      EvalConcat(a[1..], b, v);
    }
  }

  /** Two vectors that agree on every master give a list the same value. */
  lemma {:induction false} EvalAgree(es: seq<Entry>, v: seq<real>, w: seq<real>)
    requires forall e :: e in es ==> At(v, e.master) == At(w, e.master)
    ensures Eval(es, v) == Eval(es, w)
  {
    if es != [] {
      assert es[0] in es;
      EvalAgree(es[1..], v, w);
    }
  }

  /** Multiplies every weight by w. */
  function Scale(es: seq<Entry>, w: real): (r: seq<Entry>)
    ensures |r| == |es|
  {
    if es == [] then [] else [Entry(es[0].master, w * es[0].weight)] + Scale(es[1..], w)
  }

  lemma TermScale(m: nat, a: real, w: real, v: seq<real>)
    ensures Term(Entry(m, w * a), v) == w * Term(Entry(m, a), v)
  {
  }

  /** w · t + w · e == w · (t + e), with the sum named. */
  lemma DistributeProduct(w: real, t: real, e: real, s: real)
    requires s == t + e
    ensures w * t + w * e == w * s
  {
  }

  lemma ScaleCons(es: seq<Entry>, w: real, v: seq<real>)
    requires es != []
    ensures Eval(Scale(es, w), v) == Term(Entry(es[0].master, w * es[0].weight), v) + Eval(Scale(es[1..], w), v)
  {
    assert Scale(es, w)[1..] == Scale(es[1..], w);
  }

  lemma {:induction false} EvalScale(es: seq<Entry>, w: real, v: seq<real>)
    ensures Eval(Scale(es, w), v) == w * Eval(es, v)
  {
    if es != [] {
      EvalScale(es[1..], w, v);
      ScaleCons(es, w, v);
      TermScale(es[0].master, es[0].weight, w, v);
      EvalCons(es, v);
      DistributeProduct(w, Term(es[0], v), Eval(es[1..], v), Eval(es, v));
    }
  }

  lemma {:induction false} MastersScale(es: seq<Entry>, w: real)
    ensures Masters(Scale(es, w)) == Masters(es)
  {
    if es != [] {
      assert Scale(es, w)[1..] == Scale(es[1..], w);
      MastersScale(es[1..], w);
    }
  }

  // ---------------------------------------------------------------------
  // Substitution: replace every entry whose master has a line in `src`
  // by that line, scaled by the entry's weight. The scaled inhomogeneities
  // are collected in the second component.

  function Substitute(es: seq<Entry>, src: Lines): (r: (seq<Entry>, real))
  {
    if es == [] then ([], 0.0)
    else
      var rest := Substitute(es[1..], src);
      var e := es[0];
      if e.master in src then
        (Scale(src[e.master].entries, e.weight) + rest.0,
         e.weight * src[e.master].inhomogeneity + rest.1)
      else ([e] + rest.0, rest.1)
  }

  /** A line with its entries substituted through `src`. */
  function SubstituteLine(l: Line, src: Lines): Line
  {
    var s := Substitute(l.entries, src);
    Line(s.0, l.inhomogeneity + s.1)
  }

  /** w · (x + c) split into its two parts, with every product named. */
  lemma SplitProduct(w: real, x: real, c: real, y: real, t: real, a: real, p: real)
    requires y == x + c && t == w * y && a == w * x && p == w * c
    ensures a + p == t
  {
  }

  /** The value of a list whose head entry was substituted, in named parts. */
  lemma EvalUnfoldIn(es: seq<Entry>, src: Lines, v: seq<real>)
    requires es != [] && es[0].master in src
    ensures Eval(Substitute(es, src).0, v) + Substitute(es, src).1
         == Eval(Scale(src[es[0].master].entries, es[0].weight), v)
          + es[0].weight * src[es[0].master].inhomogeneity
          + (Eval(Substitute(es[1..], src).0, v) + Substitute(es[1..], src).1)
  {
    EvalConcat(Scale(src[es[0].master].entries, es[0].weight), Substitute(es[1..], src).0, v);
  }

  /** A term whose master meets its line equals that line scaled by the
      term's weight. */
  lemma TermSubstitute(e: Entry, l: Line, v: seq<real>)
    requires At(v, e.master) == LineValue(l, v)
    ensures Term(e, v) == Eval(Scale(l.entries, e.weight), v) + e.weight * l.inhomogeneity
  {
    EvalScale(l.entries, e.weight, v);
    SplitProduct(e.weight, Eval(l.entries, v), l.inhomogeneity, At(v, e.master), Term(e, v),
                 Eval(Scale(l.entries, e.weight), v), e.weight * l.inhomogeneity);
  }

  lemma HeadSubstitute(es: seq<Entry>, src: Lines, v: seq<real>)
    requires Satisfies(src, v) && es != [] && es[0].master in src
    ensures Term(es[0], v)
         == Eval(Scale(src[es[0].master].entries, es[0].weight), v)
          + es[0].weight * src[es[0].master].inhomogeneity
  {
    TermSubstitute(es[0], src[es[0].master], v);
  }

  /** Substitution of a head entry whose master has a line. */
  lemma SubstituteStepIn(es: seq<Entry>, src: Lines, v: seq<real>)
    requires es != [] && es[0].master in src
    requires Term(es[0], v)
          == Eval(Scale(src[es[0].master].entries, es[0].weight), v)
           + es[0].weight * src[es[0].master].inhomogeneity
    requires Eval(Substitute(es[1..], src).0, v) + Substitute(es[1..], src).1 == Eval(es[1..], v)
    ensures Eval(Substitute(es, src).0, v) + Substitute(es, src).1 == Eval(es, v)
  {
    EvalUnfoldIn(es, src, v);
    EvalCons(es, v);
  }

  lemma EvalCons(es: seq<Entry>, v: seq<real>)
    requires es != []
    ensures Eval(es, v) == Term(es[0], v) + Eval(es[1..], v)
  {
  }

  /** Substitution of a head entry whose master is unconstrained. */
  lemma SubstituteStepOut(es: seq<Entry>, src: Lines, v: seq<real>)
    requires es != [] && es[0].master !in src
    requires Eval(Substitute(es[1..], src).0, v) + Substitute(es[1..], src).1 == Eval(es[1..], v)
    ensures Eval(Substitute(es, src).0, v) + Substitute(es, src).1 == Eval(es, v)
  {
    EvalConcat([es[0]], Substitute(es[1..], src).0, v);
  }

  /** Substitution keeps the value of a list at every vector that satisfies
      the substituted lines. */
  lemma {:induction false} SubstituteSound(es: seq<Entry>, src: Lines, v: seq<real>)
    requires Satisfies(src, v)
    ensures Eval(Substitute(es, src).0, v) + Substitute(es, src).1 == Eval(es, v)
  {
    if es != [] {
      SubstituteSound(es[1..], src, v);
      if es[0].master in src {
        HeadSubstitute(es, src, v);
        SubstituteStepIn(es, src, v);
      } else {
        SubstituteStepOut(es, src, v);
      }
    }
  }

  lemma SubstituteLineSound(l: Line, src: Lines, v: seq<real>)
    requires Satisfies(src, v)
    ensures LineValue(SubstituteLine(l, src), v) == LineValue(l, v)
  {
    SubstituteSound(l.entries, src, v);
  }

  /** The masters of a substituted list are the untouched masters of the
      input and masters of the lines substituted for the others. */
  lemma {:induction false} SubstituteMasters(es: seq<Entry>, src: Lines, outer: set<nat>)
    requires forall s :: s in src ==> Masters(src[s].entries) <= outer
    ensures Masters(Substitute(es, src).0) <= (Masters(es) - src.Keys) + outer
  {
    if es != [] {
      var e := es[0];
      assert Masters(es) == {e.master} + Masters(es[1..]);
      SubstituteMasters(es[1..], src, outer);
      var rest := Substitute(es[1..], src);
      if e.master in src {
        MastersConcat(Scale(src[e.master].entries, e.weight), rest.0);
        MastersScale(src[e.master].entries, e.weight);
      } else {
        MastersConcat([e], rest.0);
      }
    }
  }

  /** A list none of whose masters has a line in `src` is left alone. */
  lemma {:induction false} SubstituteNothing(es: seq<Entry>, src: Lines)
    requires forall e :: e in es ==> e.master !in src
    ensures Substitute(es, src) == (es, 0.0)
  {
    if es != [] {
      assert es[0] in es;
      SubstituteNothing(es[1..], src);
      assert [es[0]] + es[1..] == es;
    }
  }

  // ---------------------------------------------------------------------
  // Substituting twice: first through s1, then through s2, is substituting
  // once through the lines of s1 substituted through s2, together with the
  // lines of s2 for the dofs s1 leaves alone.

  /** The set of lines through which one substitution does what
      substituting through s1 and then through s2 does. */
  function Compose(s1: Lines, s2: Lines): (r: Lines)
    ensures r.Keys == s1.Keys + s2.Keys
  {
    map m | m in s1.Keys + s2.Keys :: if m in s1 then SubstituteLine(s1[m], s2) else s2[m]
  }

  /** Entry i of a scaled list: the same master, the weight times w. */
  lemma {:induction false} ScaleAt(es: seq<Entry>, w: real, i: nat)
    requires i < |es|
    ensures Scale(es, w)[i].master == es[i].master
    ensures Scale(es, w)[i].weight == w * es[i].weight
  {
    if i > 0 {
      ScaleAt(es[1..], w, i - 1);
    }
  }

  lemma ScaleSplit(es: seq<Entry>, w: real)
    requires es != []
    ensures Scale(es, w)[0].master == es[0].master
    ensures Scale(es, w)[0].weight == w * es[0].weight
    ensures Scale(es, w)[1..] == Scale(es[1..], w)
  {
  }

  lemma ScaleConcat(a: seq<Entry>, b: seq<Entry>, w: real)
    ensures Scale(a + b, w) == Scale(a, w) + Scale(b, w)
  {
    var l, r := Scale(a + b, w), Scale(a, w) + Scale(b, w);
    forall i | 0 <= i < |l| ensures l[i] == r[i] {
      ScaleAt(a + b, w, i);
      if i < |a| {
        ScaleAt(a, w, i);
      } else {
        ScaleAt(b, w, i - |a|);
      }
    }
  }

  /** b · (a · x) == c · x when c == b · a. */
  lemma ProductAssoc(a: real, b: real, c: real, x: real)
    requires c == b * a
    ensures b * (a * x) == c * x
  {
  }

  lemma ScaleScaleAt(es: seq<Entry>, a: real, b: real, c: real, i: nat)
    requires c == b * a && i < |es|
    ensures Scale(Scale(es, a), b)[i] == Scale(es, c)[i]
  {
    ScaleAt(Scale(es, a), b, i);
    ScaleAt(es, a, i);
    ScaleAt(es, c, i);
    ProductAssoc(a, b, c, es[i].weight);
  }

  /** Scaling by a and then by b is scaling by c == b · a. */
  lemma ScaleScale(es: seq<Entry>, a: real, b: real, c: real)
    requires c == b * a
    ensures Scale(Scale(es, a), b) == Scale(es, c)
  {
    var l, r := Scale(Scale(es, a), b), Scale(es, c);
    forall i | 0 <= i < |l| ensures l[i] == r[i] {
      ScaleScaleAt(es, a, b, c, i);
    }
  }

  /** A one-entry list scaled by w is the entry h with the weight times w. */
  lemma ScaleSingle(e: Entry, w: real, h: Entry)
    requires h.master == e.master && h.weight == w * e.weight
    ensures Scale([e], w) == [h]
  {
    var r := Scale([e], w);
    ScaleAt([e], w, 0);
    assert r[0].master == h.master && r[0].weight == h.weight;
    assert r[0] == h;
    assert r == [r[0]];
  }

  lemma {:induction false} SubstituteConcat(a: seq<Entry>, b: seq<Entry>, src: Lines)
    ensures Substitute(a + b, src).0 == Substitute(a, src).0 + Substitute(b, src).0
  {
    if a == [] {
      assert a + b == b;
    } else {
      assert (a + b)[1..] == a[1..] + b;
      assert (a + b)[0] == a[0];
      SubstituteConcat(a[1..], b, src);
    }
  }

  /** The inhomogeneity a substitution adds: Σ weight · inhomogeneity over
      the entries whose master src holds. */
  function Shift(es: seq<Entry>, src: Lines): real
  {
    if es == [] then 0.0
    else
      var head := if es[0].master in src then es[0].weight * src[es[0].master].inhomogeneity else 0.0;
      head + Shift(es[1..], src)
  }

  lemma {:induction false} ShiftIsSubstitute(es: seq<Entry>, src: Lines)
    ensures Substitute(es, src).1 == Shift(es, src)
  {
    if es != [] {
      ShiftIsSubstitute(es[1..], src);
    }
  }

  /** Substitute at a head entry whose master src holds: its line, with the
      entry's weight x, stands in for it. */
  lemma SubstituteHeadIn(es: seq<Entry>, src: Lines, x: real, l: Line)
    requires es != [] && es[0].master in src
    requires es[0].weight == x && src[es[0].master] == l
    ensures Substitute(es, src).0 == Scale(l.entries, x) + Substitute(es[1..], src).0
  {
  }

  /** Substitute at a head entry whose master src does not hold: it stays. */
  lemma SubstituteHeadOut(es: seq<Entry>, src: Lines)
    requires es != [] && es[0].master !in src
    ensures Substitute(es, src).0 == [es[0]] + Substitute(es[1..], src).0
  {
  }

  /** A one-entry list substituted. */
  lemma SubstituteSingle(e: Entry, src: Lines)
    ensures Substitute([e], src).0 == (if e.master in src then Scale(src[e.master].entries, e.weight) else [e])
  {
    var es := [e];
    assert es[1..] == [];
    assert Substitute(es[1..], src).0 == [];
    var head := if e.master in src then Scale(src[e.master].entries, e.weight) else [e];
    assert head + [] == head;
  }

  lemma ShiftSingle(e: Entry, src: Lines)
    ensures Shift([e], src) == (if e.master in src then e.weight * src[e.master].inhomogeneity else 0.0)
  {
    assert [e][1..] == [];
  }

  lemma {:induction false} ShiftConcat(a: seq<Entry>, b: seq<Entry>, src: Lines)
    ensures Shift(a + b, src) == Shift(a, src) + Shift(b, src)
  {
    if a == [] {
      assert a + b == b;
    } else {
      assert (a + b)[1..] == a[1..] + b;
      assert (a + b)[0] == a[0];
      ShiftConcat(a[1..], b, src);
    }
  }

  /** S == w · T when S == hw · c + w · R, T == x · c + R and hw == w · x. */
  lemma LinearStep(S: real, T: real, Q: real, R: real, hw: real, x: real, c: real, w: real)
    requires hw == w * x && S == hw * c + Q && Q == w * R && T == x * c + R
    ensures S == w * T
  {
    ScaledSum(w, x, c, R, hw);
  }

  lemma MulEq(w: real, a: real, b: real)
    requires a == b
    ensures w * a == w * b
  {
  }

  /** hw · c + w · y == w · (x · c + y) when hw == w · x. */
  lemma ScaledSum(w: real, x: real, c: real, y: real, hw: real)
    requires hw == w * x
    ensures hw * c + w * y == w * (x * c + y)
  {
    ProductAssoc(x, w, hw, c);
  }

  /** Scaling a list and then substituting it is substituting it and then
      scaling the result. */
  lemma {:induction false} SubstituteScale(es: seq<Entry>, w: real, src: Lines)
    ensures Substitute(Scale(es, w), src).0 == Scale(Substitute(es, src).0, w)
  {
    if es != [] {
      SubstituteScale(es[1..], w, src);
      ScaleSplit(es, w);
      var h := Scale(es, w)[0];
      var R := Substitute(es[1..], src).0;
      if es[0].master in src {
        var l := src[es[0].master];
        SubstituteHeadIn(Scale(es, w), src, h.weight, l);
        SubstituteHeadIn(es, src, es[0].weight, l);
        ScaleHeadIn(l.entries, es[0].weight, w, h.weight, R);
      } else {
        SubstituteHeadOut(Scale(es, w), src);
        SubstituteHeadOut(es, src);
        ScaleConcat([es[0]], R, w);
        ScaleSingle(es[0], w, h);
      }
    }
  }

  /** The same for the inhomogeneity a substitution adds. */
  lemma {:induction false} ShiftScale(es: seq<Entry>, w: real, src: Lines)
    ensures Shift(Scale(es, w), src) == w * Shift(es, src)
  {
    if es != [] {
      ShiftScale(es[1..], w, src);
      ScaleAt(es, w, 0);
      assert Scale(es, w)[1..] == Scale(es[1..], w);
      if es[0].master in src {
        LinearStep(Shift(Scale(es, w), src), Shift(es, src), Shift(Scale(es[1..], w), src),
                   Shift(es[1..], src), Scale(es, w)[0].weight, es[0].weight,
                   src[es[0].master].inhomogeneity, w);
      } else {
        MulEq(w, Shift(es[1..], src), Shift(es, src));
      }
    }
  }

  /** Scale(a · x ++ rest, w) == a · (w · x) ++ w · rest. */
  lemma ScaleHeadIn(a: seq<Entry>, x: real, w: real, hw: real, rest: seq<Entry>)
    requires hw == w * x
    ensures Scale(Scale(a, x) + rest, w) == Scale(a, hw) + Scale(rest, w)
  {
    ScaleConcat(Scale(a, x), rest, w);
    ScaleScale(a, x, w, hw);
  }

  /** Substituting through s1 and then s2 gives the entries substituting
      through Compose(s1, s2) gives. */
  lemma {:induction false} SubstituteTwice(es: seq<Entry>, s1: Lines, s2: Lines)
    ensures Substitute(Substitute(es, s1).0, s2).0 == Substitute(es, Compose(s1, s2)).0
  {
    if es != [] {
      SubstituteTwice(es[1..], s1, s2);
      var e := es[0];
      var c := Compose(s1, s2);
      var R1 := Substitute(es[1..], s1).0;
      if e.master in s1 {
        var l := s1[e.master];
        SubstituteHeadIn(es, s1, e.weight, l);
        SubstituteHeadIn(es, c, e.weight, SubstituteLine(l, s2));
        SubstituteConcat(Scale(l.entries, e.weight), R1, s2);
        SubstituteScale(l.entries, e.weight, s2);
      } else {
        SubstituteHeadOut(es, s1);
        SubstituteConcat([e], R1, s2);
        SubstituteSingle(e, s2);
        if e.master in s2 {
          SubstituteHeadIn(es, c, e.weight, s2[e.master]);
        } else {
          SubstituteHeadOut(es, c);
        }
      }
    }
  }

  /** The inhomogeneity both substitutions add is the one Compose(s1, s2)
      adds. */
  lemma {:induction false} ShiftTwice(es: seq<Entry>, s1: Lines, s2: Lines)
    ensures Shift(es, s1) + Shift(Substitute(es, s1).0, s2) == Shift(es, Compose(s1, s2))
  {
    if es != [] {
      ShiftTwice(es[1..], s1, s2);
      if es[0].master in s1 {
        ShiftTwiceIn(es, s1, s2);
      } else {
        ShiftTwiceOut(es, s1, s2);
      }
    }
  }




  lemma ShiftTwiceIn(es: seq<Entry>, s1: Lines, s2: Lines)
    requires es != [] && es[0].master in s1
    requires Shift(es[1..], s1) + Shift(Substitute(es[1..], s1).0, s2) == Shift(es[1..], Compose(s1, s2))
    ensures Shift(es, s1) + Shift(Substitute(es, s1).0, s2) == Shift(es, Compose(s1, s2))
  {
    ShiftHead(es, s1);
    ShiftHeadInCompose(es, s1, s2);
    SubstitutedShiftIn(es, s1, s2);
    ComposeScaledHead(es, s1, s2);
    ShiftTwiceInSum(es, s1, s2);
  }

  lemma ShiftHead(es: seq<Entry>, src: Lines)
    requires es != [] && es[0].master in src
    ensures Shift(es, src) == es[0].weight * src[es[0].master].inhomogeneity + Shift(es[1..], src)
  {
  }

  lemma ComposeScaledHead(es: seq<Entry>, s1: Lines, s2: Lines)
    requires es != [] && es[0].master in s1
    ensures es[0].weight * s1[es[0].master].inhomogeneity + Shift(Scale(s1[es[0].master].entries, es[0].weight), s2)
         == es[0].weight * Compose(s1, s2)[es[0].master].inhomogeneity
  {
    ComposeScaled(s1, s2, es[0].master, es[0].weight);
  }

  lemma ShiftHeadInCompose(es: seq<Entry>, s1: Lines, s2: Lines)
    requires es != [] && es[0].master in s1
    ensures Shift(es, Compose(s1, s2))
         == es[0].weight * Compose(s1, s2)[es[0].master].inhomogeneity + Shift(es[1..], Compose(s1, s2))
  {
    ShiftHead(es, Compose(s1, s2));
  }

  /** The arithmetic that closes ShiftTwiceIn. */
  lemma ShiftTwiceInSum(es: seq<Entry>, s1: Lines, s2: Lines)
    requires es != [] && es[0].master in s1
    requires Shift(es[1..], s1) + Shift(Substitute(es[1..], s1).0, s2) == Shift(es[1..], Compose(s1, s2))
    requires Shift(es, s1) == es[0].weight * s1[es[0].master].inhomogeneity + Shift(es[1..], s1)
    requires Shift(es, Compose(s1, s2))
          == es[0].weight * Compose(s1, s2)[es[0].master].inhomogeneity + Shift(es[1..], Compose(s1, s2))
    requires Shift(Substitute(es, s1).0, s2)
          == Shift(Scale(s1[es[0].master].entries, es[0].weight), s2) + Shift(Substitute(es[1..], s1).0, s2)
    requires es[0].weight * s1[es[0].master].inhomogeneity + Shift(Scale(s1[es[0].master].entries, es[0].weight), s2)
          == es[0].weight * Compose(s1, s2)[es[0].master].inhomogeneity
    ensures Shift(es, s1) + Shift(Substitute(es, s1).0, s2) == Shift(es, Compose(s1, s2))
  {
  }

  /** The shift, through s2, of a list whose head was substituted through s1. */
  lemma SubstitutedShiftIn(es: seq<Entry>, s1: Lines, s2: Lines)
    requires es != [] && es[0].master in s1
    ensures Shift(Substitute(es, s1).0, s2)
         == Shift(Scale(s1[es[0].master].entries, es[0].weight), s2) + Shift(Substitute(es[1..], s1).0, s2)
  {
    SubstituteHeadIn(es, s1, es[0].weight, s1[es[0].master]);
    ShiftConcat(Scale(s1[es[0].master].entries, es[0].weight), Substitute(es[1..], s1).0, s2);
  }

  /** x times the inhomogeneity Compose(s1, s2) holds for a dof m of s1. */
  lemma ComposeScaled(s1: Lines, s2: Lines, m: nat, x: real)
    requires m in s1
    ensures x * s1[m].inhomogeneity + Shift(Scale(s1[m].entries, x), s2) == x * Compose(s1, s2)[m].inhomogeneity
  {
    ComposeInhomogeneity(s1, s2, m);
    ScaledCompose(s1[m], x, s2, Compose(s1, s2)[m].inhomogeneity);
  }

  /** x · inhomogeneity + the shift of the line scaled by x is x · k, when
      k is the line's inhomogeneity plus its shift. */
  lemma ScaledCompose(l: Line, x: real, s2: Lines, k: real)
    requires k == l.inhomogeneity + Shift(l.entries, s2)
    ensures x * l.inhomogeneity + Shift(Scale(l.entries, x), s2) == x * k
  {
    ShiftScale(l.entries, x, s2);
    DistributeProduct(x, l.inhomogeneity, Shift(l.entries, s2), k);
  }

  lemma ShiftTwiceOut(es: seq<Entry>, s1: Lines, s2: Lines)
    requires es != [] && es[0].master !in s1
    requires Shift(es[1..], s1) + Shift(Substitute(es[1..], s1).0, s2) == Shift(es[1..], Compose(s1, s2))
    ensures Shift(es, s1) + Shift(Substitute(es, s1).0, s2) == Shift(es, Compose(s1, s2))
  {
    SubstituteHeadOut(es, s1);
    ShiftConcat([es[0]], Substitute(es[1..], s1).0, s2);
    ShiftHeadOutCompose(es, s1, s2);
  }

  /** The shift through Compose(s1, s2) of a list whose head master s1
      does not hold: the head's shift through s2, then the rest. */
  lemma ShiftHeadOutCompose(es: seq<Entry>, s1: Lines, s2: Lines)
    requires es != [] && es[0].master !in s1
    ensures Shift(es, Compose(s1, s2)) == Shift([es[0]], s2) + Shift(es[1..], Compose(s1, s2))
  {
    ShiftSingle(es[0], s2);
    if es[0].master in s2 {
      ShiftHead(es, Compose(s1, s2));
      assert Compose(s1, s2)[es[0].master] == s2[es[0].master];
    }
  }

  /** The inhomogeneity Compose(s1, s2) holds for a dof of s1. */
  lemma ComposeInhomogeneity(s1: Lines, s2: Lines, m: nat)
    requires m in s1
    ensures Compose(s1, s2)[m].inhomogeneity == s1[m].inhomogeneity + Shift(s1[m].entries, s2)
  {
    ShiftIsSubstitute(s1[m].entries, s2);
  }

  /** A line substituted through s1 and then s2 is the line substituted
      through Compose(s1, s2). */
  lemma SubstituteLineTwice(l: Line, s1: Lines, s2: Lines)
    ensures SubstituteLine(SubstituteLine(l, s1), s2) == SubstituteLine(l, Compose(s1, s2))
  {
    SubstituteTwice(l.entries, s1, s2);
    ShiftTwice(l.entries, s1, s2);
    ShiftIsSubstitute(l.entries, s1);
    ShiftIsSubstitute(Substitute(l.entries, s1).0, s2);
    ShiftIsSubstitute(l.entries, Compose(s1, s2));
  }

  // ---------------------------------------------------------------------
  // Normalisation: zero weights dropped, entries sorted by master, the
  // weights of duplicate masters summed.

  function DropZeros(es: seq<Entry>): (r: seq<Entry>)
    ensures forall e :: e in r ==> e in es && e.weight != 0.0
  {
    if es == [] then []
    else if es[0].weight == 0.0 then DropZeros(es[1..])
    else [es[0]] + DropZeros(es[1..])
  }

  lemma {:induction false} EvalDropZeros(es: seq<Entry>, v: seq<real>)
    ensures Eval(DropZeros(es), v) == Eval(es, v)
  {
    if es != [] {
      EvalDropZeros(es[1..], v);
    }
  }

  lemma {:induction false} DropZerosKeeps(es: seq<Entry>)
    requires forall e :: e in es ==> e.weight != 0.0
    ensures DropZeros(es) == es
  {
    if es != [] {
      assert es[0] in es;
      DropZerosKeeps(es[1..]);
      assert [es[0]] + es[1..] == es;
    }
  }

  /** Inserts one entry into a sorted list, adding its weight to an entry for
      the same master if there is one. */
  function Insert(es: seq<Entry>, e: Entry): (r: seq<Entry>)
    requires StrictlySorted(es)
    ensures StrictlySorted(r)
    ensures Masters(r) == Masters(es) + {e.master}
    ensures |r| > 0 && r[0].master == (if es == [] || e.master < es[0].master then e.master else es[0].master)
  {
    if es == [] then [e]
    else if e.master < es[0].master then [e] + es
    else if e.master == es[0].master then
      assert Masters(es) == {es[0].master} + Masters(es[1..]) by {
        assert es == [es[0]] + es[1..];
      }
      [Entry(e.master, es[0].weight + e.weight)] + es[1..]
    else
      assert Masters(es) == {es[0].master} + Masters(es[1..]) by {
        assert es == [es[0]] + es[1..];
      }
      [es[0]] + Insert(es[1..], e)
  }

  lemma {:induction false} EvalInsert(es: seq<Entry>, e: Entry, v: seq<real>)
    requires StrictlySorted(es)
    ensures Eval(Insert(es, e), v) == Eval(es, v) + Term(e, v)
  {
    if es != [] && e.master > es[0].master {
      EvalInsert(es[1..], e, v);
    }
  }

  /** Insertion sort with merging of duplicate masters. */
  function Normalize(es: seq<Entry>): (r: seq<Entry>)
    ensures StrictlySorted(r)
    ensures Masters(r) == Masters(es)
  {
    if es == [] then []
    else
      assert Masters(es) == Masters(es[..|es| - 1]) + {es[|es| - 1].master} by {
        assert es == es[..|es| - 1] + [es[|es| - 1]];
        MastersConcat(es[..|es| - 1], [es[|es| - 1]]);
      }
      Insert(Normalize(es[..|es| - 1]), es[|es| - 1])
  }

  lemma {:induction false} EvalNormalize(es: seq<Entry>, v: seq<real>)
    ensures Eval(Normalize(es), v) == Eval(es, v)
  {
    if es != [] {
      var n := |es| - 1;
      EvalNormalize(es[..n], v);
      EvalInsert(Normalize(es[..n]), es[n], v);
      assert es == es[..n] + [es[n]];
      EvalConcat(es[..n], [es[n]], v);
    }
  }

  /** Inserting a master larger than all present appends it. */
  lemma {:induction false} InsertLast(es: seq<Entry>, e: Entry)
    requires StrictlySorted(es)
    requires forall x :: x in es ==> x.master < e.master
    ensures Insert(es, e) == es + [e]
  {
    if es != [] {
      assert es[0] in es;
      InsertLast(es[1..], e);
      assert [es[0]] + (es[1..] + [e]) == es + [e];
    }
  }

  /** Dropping the last entry of a sorted list keeps it sorted, and every
      remaining master is below the dropped one. */
  lemma SortedInit(es: seq<Entry>)
    requires StrictlySorted(es) && es != []
    ensures StrictlySorted(es[..|es| - 1])
    ensures forall x :: x in es[..|es| - 1] ==> x.master < es[|es| - 1].master
  {
    var n := |es| - 1;
    forall x | x in es[..n] ensures x.master < es[n].master {
      var i :| 0 <= i < n && es[..n][i] == x;
    }
  }

  /** A list that is already sorted and free of duplicates is its own
      normal form. */
  lemma {:induction false} NormalizeSorted(es: seq<Entry>)
    requires StrictlySorted(es)
    ensures Normalize(es) == es
  {
    if es != [] {
      var n := |es| - 1;
      var init := es[..n];
      SortedInit(es);
      NormalizeSorted(init);
      InsertLast(init, es[n]);
      assert init + [es[n]] == es;
    }
  }
}
