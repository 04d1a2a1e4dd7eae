/** merge(other, policy): the union of two constraint sets. A dof
    constrained in both keeps the line the policy picks, and the receiver's
    entries whose master has a winning line in the argument are replaced by
    that line ("folded"), so that chains between the two sets are resolved. */
module Merge {
  import opened Common
  import opened ConstraintLines
  import opened Closure

  /** What merge() does with a dof that both sets constrain differently. */
  datatype MergeConflictBehavior = NoConflictsAllowed | LeftObjectWins | RightObjectWins

  /** The dofs both sets constrain, with different lines. */
  function Conflicts(a: Lines, b: Lines): (r: set<nat>)
    ensures forall d :: d in r <==> d in a && d in b && a[d] != b[d]
  {
    set d | d in a && d in b && a[d] != b[d]
  }

  /** Whether the argument's line for d is the one the merged set keeps. */
  predicate RightLineWins(a: Lines, b: Lines, d: nat, policy: MergeConflictBehavior)
  {
    d in b && (d !in a || policy.RightObjectWins?)
  }

  /** The argument's winning lines: the ones folded into the receiver's
      entries. */
  function FoldSource(a: Lines, b: Lines, policy: MergeConflictBehavior): (r: Lines)
    ensures forall m :: m in r <==> RightLineWins(a, b, m, policy)
    ensures forall m :: m in r ==> m in b && r[m] == b[m]
  {
    map m | m in b && RightLineWins(a, b, m, policy) :: b[m]
  }

  /** The merged line set, or the conflict that no_conflicts_allowed
      rejects. */
  function MergeLines(a: Lines, b: Lines, policy: MergeConflictBehavior): (r: Result<Lines>)
    ensures r.Err? <==> policy.NoConflictsAllowed? && Conflicts(a, b) != {}
    ensures r.Err? ==> r.error == ConflictingConstraint(Conflicts(a, b))
    ensures r.Ok? ==> r.value.Keys == a.Keys + b.Keys
  {
    if policy.NoConflictsAllowed? && Conflicts(a, b) != {} then
      Err(ConflictingConstraint(Conflicts(a, b)))
    else
      var src := FoldSource(a, b, policy);
      Ok(map d | d in a.Keys + b.Keys ::
           if RightLineWins(a, b, d, policy) then b[d] else SubstituteLine(a[d], src))
  }

  /** Under right_object_wins every line of the argument is taken over
      unchanged, whatever the receiver held for that dof. */
  lemma MergeRightObjectWins(a: Lines, b: Lines, d: nat)
    requires d in b
    ensures MergeLines(a, b, RightObjectWins).value[d] == b[d]
  {
  }

  /** A line the argument does not constrain, and none of whose masters has a
      winning line in the argument, is kept exactly. */
  lemma MergeKeepsUntouched(a: Lines, b: Lines, policy: MergeConflictBehavior, d: nat)
    requires MergeLines(a, b, policy).Ok?
    requires d in a && !RightLineWins(a, b, d, policy)
    requires forall e :: e in a[d].entries ==> !RightLineWins(a, b, e.master, policy)
    ensures MergeLines(a, b, policy).value[d] == a[d]
  {
    SubstituteNothing(a[d].entries, FoldSource(a, b, policy));
  }

  /** Merging never loses a solution: a vector meeting both sets meets the
      merged set, under every policy. */
  lemma MergeSound(a: Lines, b: Lines, policy: MergeConflictBehavior, v: seq<real>)
    requires MergeLines(a, b, policy).Ok?
    requires Satisfies(a, v) && Satisfies(b, v)
    ensures Satisfies(MergeLines(a, b, policy).value, v)
  {
    var src := FoldSource(a, b, policy);
    var r := MergeLines(a, b, policy).value;
    assert Satisfies(src, v);
    forall d | d in r ensures At(v, d) == LineValue(r[d], v) {
      if !RightLineWins(a, b, d, policy) {
        SubstituteLineSound(a[d], src, v);
      }
    }
  }

  /** All masters named by some line of the set. */
  function AllMasters(L: Lines): (r: set<nat>)
    ensures forall s :: s in L ==> Masters(L[s].entries) <= r
  {
    set s, m | s in L && m in Masters(L[s].entries) :: m
  }

  /** Two closed sets where the argument never names a dof the receiver
      constrains merge into a chain-free set: folding resolves every chain
      from the receiver into the argument, so no new closing round is
      needed. */
  lemma MergeChainFree(a: Lines, b: Lines, policy: MergeConflictBehavior)
    requires ChainFree(a) && ChainFree(b)
    requires AllMasters(b) !! a.Keys
    requires MergeLines(a, b, policy).Ok?
    ensures ChainFree(MergeLines(a, b, policy).value)
  {
    var src := FoldSource(a, b, policy);
    var r := MergeLines(a, b, policy).value;
    var U := AllMasters(b);
    forall d | d in r ensures Masters(r[d].entries) !! r.Keys {
      if RightLineWins(a, b, d, policy) {
        assert Masters(b[d].entries) <= U;
      } else {
        assert forall s :: s in src ==> Masters(src[s].entries) <= U;
        SubstituteMasters(a[d].entries, src, U);
        assert Masters(a[d].entries) !! a.Keys;
      }
    }
  }

  /** The merged line for d under left_object_wins: the argument's line
      when the receiver does not constrain d, else the receiver's line folded
      through the argument's lines for dofs the receiver leaves alone. */
  lemma MergeLeftAt(a: Lines, b: Lines, d: nat)
    requires d in a || d in b
    ensures MergeLines(a, b, LeftObjectWins).value[d]
         == if d in a then SubstituteLine(a[d], FoldSource(a, b, LeftObjectWins)) else b[d]
  {
  }

  lemma ComposeAt(s1: Lines, s2: Lines, m: nat)
    requires m in s1 || m in s2
    ensures Compose(s1, s2)[m] == if m in s1 then SubstituteLine(s1[m], s2) else s2[m]
  {
  }

  /** Under left_object_wins a dof that C constrains and that neither A nor
      B constrains is folded the same way whether A or only B stands in
      front of C. */
  lemma FoldSourceSkipsA(a: Lines, b: Lines, c: Lines)
    requires a.Keys !! c.Keys
    ensures FoldSource(MergeLines(a, b, LeftObjectWins).value, c, LeftObjectWins) == FoldSource(b, c, LeftObjectWins)
  {
    var ab := MergeLines(a, b, LeftObjectWins).value;
    var l, r := FoldSource(ab, c, LeftObjectWins), FoldSource(b, c, LeftObjectWins);
    assert l.Keys == r.Keys;
  }

  /** Folding B (minus A) and then C (minus B) is folding, once, the lines B
      and C merge into, minus A. */
  lemma FoldSourceCompose(a: Lines, b: Lines, c: Lines)
    requires a.Keys !! c.Keys
    ensures Compose(FoldSource(a, b, LeftObjectWins), FoldSource(b, c, LeftObjectWins))
         == FoldSource(a, MergeLines(b, c, LeftObjectWins).value, LeftObjectWins)
  {
    var s1, s2 := FoldSource(a, b, LeftObjectWins), FoldSource(b, c, LeftObjectWins);
    var bc := MergeLines(b, c, LeftObjectWins).value;
    var l, r := Compose(s1, s2), FoldSource(a, bc, LeftObjectWins);
    FoldSourceComposeKeys(a, b, c);
    forall m | m in l ensures l[m] == r[m] {
      FoldSourceComposeAt(a, b, c, m);
    }
    LinesEqual(l, r);
  }

  lemma FoldSourceComposeKeys(a: Lines, b: Lines, c: Lines)
    requires a.Keys !! c.Keys
    ensures Compose(FoldSource(a, b, LeftObjectWins), FoldSource(b, c, LeftObjectWins)).Keys
         == FoldSource(a, MergeLines(b, c, LeftObjectWins).value, LeftObjectWins).Keys
  {
    var s1, s2 := FoldSource(a, b, LeftObjectWins), FoldSource(b, c, LeftObjectWins);
    var bc := MergeLines(b, c, LeftObjectWins).value;
    MergeKeys(b, c);
    FoldSourceKeys(a, b);
    FoldSourceKeys(b, c);
    FoldSourceKeys(a, bc);
  }

  lemma FoldSourceKeys(a: Lines, b: Lines)
    ensures FoldSource(a, b, LeftObjectWins).Keys == b.Keys - a.Keys
  {
  }

  /** FoldSourceCompose at one dof. */
  lemma FoldSourceComposeAt(a: Lines, b: Lines, c: Lines, m: nat)
    requires a.Keys !! c.Keys && m !in a && (m in b || m in c)
    ensures Compose(FoldSource(a, b, LeftObjectWins), FoldSource(b, c, LeftObjectWins))[m]
         == MergeLines(b, c, LeftObjectWins).value[m]
  {
    ComposeAt(FoldSource(a, b, LeftObjectWins), FoldSource(b, c, LeftObjectWins), m);
    MergeLeftAt(b, c, m);
  }

  /** Merging A, B and C under left_object_wins gives the same set whichever
      pair is merged first, when A and C constrain no common dof. */
  lemma MergeAssociative(a: Lines, b: Lines, c: Lines)
    requires a.Keys !! c.Keys
    ensures MergeLines(MergeLines(a, b, LeftObjectWins).value, c, LeftObjectWins)
         == MergeLines(a, MergeLines(b, c, LeftObjectWins).value, LeftObjectWins)
  {
    var ab := MergeLines(a, b, LeftObjectWins).value;
    var bc := MergeLines(b, c, LeftObjectWins).value;
    var l := MergeLines(ab, c, LeftObjectWins).value;
    var r := MergeLines(a, bc, LeftObjectWins).value;
    MergeAssociativeEverywhere(a, b, c, ab, bc, l, r);
    LinesEqual(l, r);
  }

  /** MergeAssociative at every dof, with the four merges named. */
  lemma MergeAssociativeEverywhere(a: Lines, b: Lines, c: Lines, ab: Lines, bc: Lines, l: Lines, r: Lines)
    requires a.Keys !! c.Keys
    requires ab == MergeLines(a, b, LeftObjectWins).value && bc == MergeLines(b, c, LeftObjectWins).value
    requires l == MergeLines(ab, c, LeftObjectWins).value && r == MergeLines(a, bc, LeftObjectWins).value
    ensures l.Keys == r.Keys && forall d :: d in l ==> l[d] == r[d]
  {
    MergeKeys(a, b);
    MergeKeys(b, c);
    MergeKeys(ab, c);
    MergeKeys(a, bc);
    forall d | d in l ensures l[d] == r[d] {
      MergeAssociativeAt(a, b, c, d);
    }
  }

  lemma MergeKeys(a: Lines, b: Lines)
    ensures MergeLines(a, b, LeftObjectWins).value.Keys == a.Keys + b.Keys
  {
  }

  /** Two line sets with the same dofs and the same line at each are equal. */
  lemma LinesEqual(l: Lines, r: Lines)
    requires l.Keys == r.Keys && forall d :: d in l ==> l[d] == r[d]
    ensures l == r
  {
  }

  /** MergeAssociative at one dof. */
  lemma MergeAssociativeAt(a: Lines, b: Lines, c: Lines, d: nat)
    requires a.Keys !! c.Keys && (d in a || d in b || d in c)
    ensures MergeLines(MergeLines(a, b, LeftObjectWins).value, c, LeftObjectWins).value[d]
         == MergeLines(a, MergeLines(b, c, LeftObjectWins).value, LeftObjectWins).value[d]
  {
    var ab := MergeLines(a, b, LeftObjectWins).value;
    var bc := MergeLines(b, c, LeftObjectWins).value;
    var s1, s2 := FoldSource(a, b, LeftObjectWins), FoldSource(b, c, LeftObjectWins);
    MergeLeftAt(ab, c, d);
    MergeLeftAt(a, bc, d);
    if d in a {
      FoldSourceSkipsA(a, b, c);
      FoldSourceCompose(a, b, c);
      MergeLeftAt(a, b, d);
      SubstituteLineTwice(a[d], s1, s2);
    } else if d in b {
      FoldSourceSkipsA(a, b, c);
      MergeLeftAt(a, b, d);
      MergeLeftAt(b, c, d);
    } else {
      MergeLeftAt(b, c, d);
    }
  }

  /** When A and C both constrain a dof, the two groupings can differ. B's
      line for dof 1 names dof 0, which A constrains to 5 and C to 7: merging
      A and B first leaves dof 1 naming dof 0, merging B and C first folds
      C's value 7 into it. */
  lemma MergeOverlapNotAssociative()
    ensures MergeLines(MergeLines(map[0 := Line([], 5.0)], map[1 := Line([Entry(0, 1.0)], 0.0)], LeftObjectWins).value,
                       map[0 := Line([], 7.0)], LeftObjectWins).value[1]
         == Line([Entry(0, 1.0)], 0.0)
    ensures MergeLines(map[0 := Line([], 5.0)],
                       MergeLines(map[1 := Line([Entry(0, 1.0)], 0.0)], map[0 := Line([], 7.0)], LeftObjectWins).value,
                       LeftObjectWins).value[1]
         == Line([], 7.0)
  {
    var a: Lines := map[0 := Line([], 5.0)];
    var b: Lines := map[1 := Line([Entry(0, 1.0)], 0.0)];
    var c: Lines := map[0 := Line([], 7.0)];
    OverlapLeftFirst(a, b, c);
    OverlapRightFirst(a, b, c);
  }

  lemma OverlapLeftFirst(a: Lines, b: Lines, c: Lines)
    requires a == map[0 := Line([], 5.0)] && b == map[1 := Line([Entry(0, 1.0)], 0.0)] && c == map[0 := Line([], 7.0)]
    ensures MergeLines(MergeLines(a, b, LeftObjectWins).value, c, LeftObjectWins).value[1] == Line([Entry(0, 1.0)], 0.0)
  {
    var ab := MergeLines(a, b, LeftObjectWins).value;
    MergeLeftAt(a, b, 1);
    MergeLeftAt(ab, c, 1);
    var src := FoldSource(ab, c, LeftObjectWins);
    assert src.Keys == {};
    assert 0 !in src;
    var es := [Entry(0, 1.0)];
    assert es[1..] == [];
    assert Substitute(es[1..], src) == ([], 0.0);
    assert [es[0]] + [] == es;
    assert Substitute(es, src) == (es, 0.0);
  }

  lemma OverlapRightFirst(a: Lines, b: Lines, c: Lines)
    requires a == map[0 := Line([], 5.0)] && b == map[1 := Line([Entry(0, 1.0)], 0.0)] && c == map[0 := Line([], 7.0)]
    ensures MergeLines(a, MergeLines(b, c, LeftObjectWins).value, LeftObjectWins).value[1] == Line([], 7.0)
  {
    var bc := MergeLines(b, c, LeftObjectWins).value;
    MergeLeftAt(b, c, 1);
    MergeLeftAt(a, bc, 1);
    var src := FoldSource(b, c, LeftObjectWins);
    assert src.Keys == {0};
    assert src[0] == Line([], 7.0);
    var es := [Entry(0, 1.0)];
    assert es[1..] == [];
    assert Substitute(es[1..], src) == ([], 0.0);
    assert Scale([], 1.0) == [];
    assert Substitute(es, src) == ([], 7.0);
  }
}
