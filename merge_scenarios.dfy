/** The two merge() scenarios: a set whose line 1 runs through a dof the
    argument constrains (chain folding under no_conflicts_allowed), and two
    sets that constrain dof 0 differently (right_object_wins). Each is run
    once with open and once with closed objects. */
module MergeScenarios {
  import opened Common
  import opened ConstraintLines
  import opened Closure
  import opened Merge
  import opened Constraints

  // ---------------------------------------------------------------------
  // Short lines.

  lemma OneEntry(m: nat, w: real)
    ensures Masters([Entry(m, w)]) == {m}
    ensures StrictlySorted([Entry(m, w)])
  {
    MastersSingle(Entry(m, w));
  }

  lemma TwoEntries(m1: nat, w1: real, m2: nat, w2: real)
    ensures Masters([Entry(m1, w1), Entry(m2, w2)]) == {m1, m2}
    ensures m1 < m2 ==> StrictlySorted([Entry(m1, w1), Entry(m2, w2)])
  {
    var es := [Entry(m1, w1), Entry(m2, w2)];
    assert es[1..] == [Entry(m2, w2)];
    MastersSingle(Entry(m2, w2));
  }

  lemma ScaleHead(es: seq<Entry>, w: real)
    requires es != []
    ensures Scale(es, w) == [Entry(es[0].master, w * es[0].weight)] + Scale(es[1..], w)
  {
  }

  lemma ScaleOne(m: nat, a: real, w: real)
    ensures Scale([Entry(m, a)], w) == [Entry(m, w * a)]
  {
    var es := [Entry(m, a)];
    ScaleHead(es, w);
    assert es[1..] == [];
    assert Scale(es[1..], w) == [];
    assert Entry(es[0].master, w * es[0].weight) == Entry(m, w * a);
    assert Scale(es, w) == [Entry(m, w * a)] + [];
    assert [Entry(m, w * a)] + [] == [Entry(m, w * a)];
  }

  lemma ScaleTwo(m1: nat, a1: real, m2: nat, a2: real, w: real)
    ensures Scale([Entry(m1, a1), Entry(m2, a2)], w) == [Entry(m1, w * a1), Entry(m2, w * a2)]
  {
    var es := [Entry(m1, a1), Entry(m2, a2)];
    ScaleHead(es, w);
    assert es[1..] == [Entry(m2, a2)];
    ScaleOne(m2, a2, w);
    assert Entry(es[0].master, w * es[0].weight) == Entry(m1, w * a1);
    assert Scale(es, w) == [Entry(m1, w * a1)] + [Entry(m2, w * a2)];
    assert [Entry(m1, w * a1)] + [Entry(m2, w * a2)] == [Entry(m1, w * a1), Entry(m2, w * a2)];
  }

  // ---------------------------------------------------------------------
  // Chain folding: c1 constrains x1 through x3, which c2 constrains.

  /** c1: x0 = x11, x1 = w1·x3 + w2·x4. */
  function ChainReceiver(w1: real, w2: real): Lines
  {
    map[0 := Line([Entry(11, 1.0)], 0.0), 1 := Line([Entry(3, w1), Entry(4, w2)], 0.0)]
  }

  /** c2: x10 = x11, x3 = u1·x12 + u2·x13. */
  function ChainArgument(u1: real, u2: real): Lines
  {
    map[10 := Line([Entry(11, 1.0)], 0.0), 3 := Line([Entry(12, u1), Entry(13, u2)], 0.0)]
  }

  /** The merged lines, line 1's entries in the order merge() produces them:
      x1 = w1·u1·x12 + w1·u2·x13 + w2·x4. */
  function ChainFolded(w1: real, w2: real, u1: real, u2: real): Lines
  {
    map[0 := Line([Entry(11, 1.0)], 0.0),
        1 := Line([Entry(12, w1 * u1), Entry(13, w1 * u2), Entry(4, w2)], 0.0),
        10 := Line([Entry(11, 1.0)], 0.0),
        3 := Line([Entry(12, u1), Entry(13, u2)], 0.0)]
  }

  /** The same lines once close() has sorted line 1. */
  function ChainSorted(w1: real, w2: real, u1: real, u2: real): Lines
  {
    ChainFolded(w1, w2, u1, u2)[1 := Line([Entry(4, w2), Entry(12, w1 * u1), Entry(13, w1 * u2)], 0.0)]
  }

  /** With nonzero weights both inputs are already closed: their masters are
      unconstrained and their lines sorted. */
  lemma ChainInputsClosed(w1: real, w2: real, u1: real, u2: real)
    requires w1 != 0.0 && w2 != 0.0 && u1 != 0.0 && u2 != 0.0
    ensures Closure.Close(ChainReceiver(w1, w2)) == Ok(ChainReceiver(w1, w2))
    ensures Closure.Close(ChainArgument(u1, u2)) == Ok(ChainArgument(u1, u2))
  {
    OneEntry(11, 1.0);
    TwoEntries(3, w1, 4, w2);
    TwoEntries(12, u1, 13, u2);
    TwoLinesClosed(0, Line([Entry(11, 1.0)], 0.0), 1, Line([Entry(3, w1), Entry(4, w2)], 0.0));
    TwoLinesClosed(10, Line([Entry(11, 1.0)], 0.0), 3, Line([Entry(12, u1), Entry(13, u2)], 0.0));
  }

  /** Two lines, each sorted with nonzero weights and naming neither
      constrained dof, are left as they are by close(). */
  lemma TwoLinesClosed(d1: nat, l1: Line, d2: nat, l2: Line)
    requires d1 != d2
    requires Masters(l1.entries) !! {d1, d2} && Masters(l2.entries) !! {d1, d2}
    requires StrictlySorted(l1.entries) && StrictlySorted(l2.entries)
    requires forall e :: e in l1.entries ==> e.weight != 0.0
    requires forall e :: e in l2.entries ==> e.weight != 0.0
    ensures Closure.Close(map[d1 := l1, d2 := l2]) == Ok(map[d1 := l1, d2 := l2])
  {
    var L := map[d1 := l1, d2 := l2];
    assert L.Keys == {d1, d2};
    assert ClosedForm(L) by {
      forall d | d in L ensures Masters(L[d].entries) !! L.Keys && StrictlySorted(L[d].entries) {
        if d == d1 { assert L[d] == l1; } else { assert L[d] == l2; }
      }
    }
    forall d, e | d in L && e in L[d].entries ensures e.weight != 0.0 {
      if d == d1 { assert L[d] == l1; } else { assert L[d] == l2; }
    }
    CloseUnchanged(L);
  }

  /** merge() under no_conflicts_allowed: the sets constrain different dofs,
      so sharing master 11 is no conflict; x3's line is folded into line 1
      and lines 3 and 10 are copied. */
  lemma ChainMerge(w1: real, w2: real, u1: real, u2: real)
    ensures MergeLines(ChainReceiver(w1, w2), ChainArgument(u1, u2), NoConflictsAllowed)
         == Ok(ChainFolded(w1, w2, u1, u2))
  {
    var a, b := ChainReceiver(w1, w2), ChainArgument(u1, u2);
    assert Conflicts(a, b) == {};
    var src := FoldSource(a, b, NoConflictsAllowed);
    assert src.Keys == b.Keys;
    LinesEqual(src, b);
    var m := MergeLines(a, b, NoConflictsAllowed).value;
    var f := ChainFolded(w1, w2, u1, u2);
    assert m.Keys == f.Keys;
    forall d | d in m ensures m[d] == f[d] {
      if d == 0 {
        SubstituteNothing(a[0].entries, b);
      } else if d == 1 {
        ChainLineOne(w1, w2, u1, u2, w1 * u1, w1 * u2);
      }
    }
    LinesEqual(m, f);
  }

  /** Line 1 of c1 folded through c2: x3's line scaled by w1, then x4. */
  lemma ChainLineOne(w1: real, w2: real, u1: real, u2: real, p: real, q: real)
    requires p == w1 * u1 && q == w1 * u2
    ensures SubstituteLine(Line([Entry(3, w1), Entry(4, w2)], 0.0), ChainArgument(u1, u2))
         == Line([Entry(12, p), Entry(13, q), Entry(4, w2)], 0.0)
  {
    var src := ChainArgument(u1, u2);
    var es := [Entry(3, w1), Entry(4, w2)];
    assert es[1..] == [Entry(4, w2)];
    SubstituteNothing([Entry(4, w2)], src);
    ScaleTwo(12, u1, 13, u2, w1);
    assert src[3] == Line([Entry(12, u1), Entry(13, u2)], 0.0);
    assert Substitute(es, src).0 == [Entry(12, p), Entry(13, q)] + [Entry(4, w2)];
    assert Substitute(es, src).1 == w1 * 0.0 + 0.0;
  }

  /** close() on the merged set: already chain-free, so it only sorts
      line 1. */
  lemma ChainMergeClosed(w1: real, w2: real, u1: real, u2: real)
    requires w1 != 0.0 && w2 != 0.0 && u1 != 0.0 && u2 != 0.0
    ensures Closure.Close(ChainFolded(w1, w2, u1, u2)) == Ok(ChainSorted(w1, w2, u1, u2))
  {
    var m := ChainFolded(w1, w2, u1, u2);
    ChainFoldedFree(w1, w2, u1, u2);
    DropZeroEntriesKeeps(m);
    assert Iterate(m, |m|) == Ok(m);
    ChainFoldedSorts(w1, w2, u1, u2);
  }

  lemma ChainFoldedFree(w1: real, w2: real, u1: real, u2: real)
    requires w1 != 0.0 && w2 != 0.0 && u1 != 0.0 && u2 != 0.0
    ensures ChainFree(ChainFolded(w1, w2, u1, u2))
    ensures forall d, e :: d in ChainFolded(w1, w2, u1, u2) && e in ChainFolded(w1, w2, u1, u2)[d].entries ==> e.weight != 0.0
  {
    var m := ChainFolded(w1, w2, u1, u2);
    assert m.Keys == {0, 1, 10, 3};
    forall d | d in m ensures Masters(m[d].entries) !! m.Keys {
      if d == 1 {
        LineOneMasters(w1 * u1, w1 * u2, w2);
      } else if d == 3 {
        TwoEntries(12, u1, 13, u2);
      } else {
        OneEntry(11, 1.0);
      }
    }
  }

  lemma LineOneMasters(p: real, q: real, w: real)
    ensures Masters([Entry(12, p), Entry(13, q), Entry(4, w)]) == {12, 13, 4}
  {
    var es := [Entry(12, p), Entry(13, q), Entry(4, w)];
    assert es == [Entry(12, p), Entry(13, q)] + [Entry(4, w)];
    TwoEntries(12, p, 13, q);
    OneEntry(4, w);
    MastersConcat([Entry(12, p), Entry(13, q)], [Entry(4, w)]);
  }

  lemma ChainFoldedSorts(w1: real, w2: real, u1: real, u2: real)
    ensures SortEntries(ChainFolded(w1, w2, u1, u2)) == ChainSorted(w1, w2, u1, u2)
  {
    var m := ChainFolded(w1, w2, u1, u2);
    var s := SortEntries(m);
    var t := ChainSorted(w1, w2, u1, u2);
    assert s.Keys == m.Keys == t.Keys;
    forall d | d in s ensures s[d] == t[d] {
      ChainSortedAt(w1, w2, u1, u2, d);
    }
    LinesEqual(s, t);
  }

  lemma ChainSortedAt(w1: real, w2: real, u1: real, u2: real, d: nat)
    requires d in ChainFolded(w1, w2, u1, u2)
    ensures d in ChainSorted(w1, w2, u1, u2)
    ensures SortEntries(ChainFolded(w1, w2, u1, u2))[d] == ChainSorted(w1, w2, u1, u2)[d]
  {
    if d == 1 {
      LineOneSorts(w1 * u1, w1 * u2, w2);
    } else if d == 3 {
      TwoEntries(12, u1, 13, u2);
      NormalizeSorted([Entry(12, u1), Entry(13, u2)]);
    } else {
      OneEntry(11, 1.0);
      NormalizeSorted([Entry(11, 1.0)]);
    }
  }

  /** Sorting line 1 moves x4 in front of x12 and x13. */
  lemma LineOneSorts(p: real, q: real, w: real)
    ensures Normalize([Entry(12, p), Entry(13, q), Entry(4, w)]) == [Entry(4, w), Entry(12, p), Entry(13, q)]
  {
    var front := [Entry(12, p), Entry(13, q)];
    var es := [Entry(12, p), Entry(13, q), Entry(4, w)];
    assert es[..|es| - 1] == front;
    TwoEntries(12, p, 13, q);
    NormalizeSorted(front);
    assert Normalize(es) == Insert(front, Entry(4, w));
    assert Insert(front, Entry(4, w)) == [Entry(4, w)] + front;
  }

  /** The test body with its weights: c1 and c2 built line by line, closed
      in the second run, then c1.merge(c2). Line 1 ends up as
      x12/8 + 3·x13/8 + x4/2, sorted by master when the objects were
      closed. */
  method ChainMergeRun(closeFirst: bool, w1: real, w2: real, u1: real, u2: real)
    returns (c1: AffineConstraints, c2: AffineConstraints, o: Outcome)
    requires w1 != 0.0 && w2 != 0.0 && u1 != 0.0 && u2 != 0.0
    ensures o == Pass && c1.closed == closeFirst
    ensures c1.lines == if closeFirst then ChainSorted(w1, w2, u1, u2) else ChainFolded(w1, w2, u1, u2)
  {
    c1 := BuildChainReceiver(w1, w2);
    c2 := BuildChainArgument(u1, u2);
    if closeFirst {
      CloseBoth(c1, c2, w1, w2, u1, u2);
    }
    ChainMerge(w1, w2, u1, u2);
    ChainMergeClosed(w1, w2, u1, u2);
    o := c1.Merge(c2, NoConflictsAllowed);
  }

  /** The weights of the test: 0.5 and 0.5 in c1, 0.25 and 0.75 in c2, so
      that x1 ends up as 0.125·x12 + 0.375·x13 + 0.5·x4, and x3 stays
      constrained in the receiver. */
  method ChainMergeTest(closeFirst: bool) returns (c1: AffineConstraints, o: Outcome)
    ensures o == Pass && c1.closed == closeFirst
    ensures c1.lines.Keys == {0, 1, 3, 10}
    ensures c1.lines[3] == Line([Entry(12, 0.25), Entry(13, 0.75)], 0.0)
    ensures !closeFirst ==> c1.lines[1] == Line([Entry(12, 0.125), Entry(13, 0.375), Entry(4, 0.5)], 0.0)
    ensures closeFirst ==> c1.lines[1] == Line([Entry(4, 0.5), Entry(12, 0.125), Entry(13, 0.375)], 0.0)
  {
    var c2;
    c1, c2, o := ChainMergeRun(closeFirst, 0.5, 0.5, 0.25, 0.75);
  }

  method CloseBoth(c1: AffineConstraints, c2: AffineConstraints, w1: real, w2: real, u1: real, u2: real)
    requires w1 != 0.0 && w2 != 0.0 && u1 != 0.0 && u2 != 0.0
    requires c1 != c2 && c1.Valid() && c2.Valid() && !c1.closed && !c2.closed
    requires c1.lines == ChainReceiver(w1, w2) && c2.lines == ChainArgument(u1, u2)
    modifies c1, c2
    ensures c1.Valid() && c2.Valid() && c1.closed && c2.closed
    ensures c1.lines == ChainReceiver(w1, w2) && c2.lines == ChainArgument(u1, u2)
  {
    ChainInputsClosed(w1, w2, u1, u2);
    var r := c1.Close();
    r := c2.Close();
  }

  /** c1.add_line(0); c1.add_entry(0, 11, 1); c1.add_line(1);
      c1.add_entry(1, 3, w1); c1.add_entry(1, 4, w2). */
  method BuildChainReceiver(w1: real, w2: real) returns (c: AffineConstraints)
    ensures fresh(c) && c.Valid() && !c.closed && c.lines == ChainReceiver(w1, w2)
  {
    c := new AffineConstraints();
    var r := c.AddLine(0);
    r := c.AddEntry(0, 11, 1.0);
    r := c.AddLine(1);
    r := c.AddEntry(1, 3, w1);
    r := c.AddEntry(1, 4, w2);
    assert [] + [Entry(11, 1.0)] == [Entry(11, 1.0)];
    assert [] + [Entry(3, w1)] + [Entry(4, w2)] == [Entry(3, w1), Entry(4, w2)];
  }

  /** c2.add_line(10); c2.add_entry(10, 11, 1); c2.add_line(3);
      c2.add_entry(3, 12, u1); c2.add_entry(3, 13, u2). */
  method BuildChainArgument(u1: real, u2: real) returns (c: AffineConstraints)
    ensures fresh(c) && c.Valid() && !c.closed && c.lines == ChainArgument(u1, u2)
  {
    c := new AffineConstraints();
    var r := c.AddLine(10);
    r := c.AddEntry(10, 11, 1.0);
    r := c.AddLine(3);
    r := c.AddEntry(3, 12, u1);
    r := c.AddEntry(3, 13, u2);
    assert [] + [Entry(11, 1.0)] == [Entry(11, 1.0)];
    assert [] + [Entry(12, u1)] + [Entry(13, u2)] == [Entry(12, u1), Entry(13, u2)];
  }

  // ---------------------------------------------------------------------
  // A conflict resolved by right_object_wins.

  /** A set with the one line l for dof d that names masters other than d,
      sorted and with nonzero weights, is already closed. */
  lemma OneLineClosed(d: nat, l: Line)
    requires d !in Masters(l.entries) && StrictlySorted(l.entries)
    requires forall e :: e in l.entries ==> e.weight != 0.0
    ensures Closure.Close(map[d := l]) == Ok(map[d := l])
  {
    CloseUnchanged(map[d := l]);
  }

  /** Two sets that constrain d differently: right_object_wins takes the
      argument's line whole, entries and offset, and constrains nothing
      else; no_conflicts_allowed refuses, naming d. */
  lemma ConflictMerge(d: nat, left: Line, right: Line)
    requires left != right
    ensures MergeLines(map[d := left], map[d := right], RightObjectWins) == Ok(map[d := right])
    ensures MergeLines(map[d := left], map[d := right], NoConflictsAllowed) == Err(ConflictingConstraint({d}))
  {
    var a, b := map[d := left], map[d := right];
    assert Conflicts(a, b) == {d};
    var m := MergeLines(a, b, RightObjectWins).value;
    assert m.Keys == {d};
    assert RightLineWins(a, b, d, RightObjectWins);
    assert m[d] == right;
    assert m == map[d := right];
  }

  /** The test body: x0 = x11 + 42 in c1, x0 = 2·x13 + 142 in c2, closed in
      the second run, merged with right_object_wins, which does not raise.
      Afterwards only dof 0 is constrained, entirely as c2 says. */
  method ConflictMergeRun(closeFirst: bool) returns (c1: AffineConstraints, c2: AffineConstraints, o: Outcome)
    ensures o == Pass && c1.closed == closeFirst
    ensures c1.lines == map[0 := Line([Entry(13, 2.0)], 142.0)]
    ensures !c1.IsConstrained(11) && !c1.IsConstrained(13)
  {
    var left, right := Line([Entry(11, 1.0)], 42.0), Line([Entry(13, 2.0)], 142.0);
    c1 := BuildOneLine(11, 1.0, 42.0);
    c2 := BuildOneLine(13, 2.0, 142.0);
    OneEntry(11, 1.0);
    OneEntry(13, 2.0);
    if closeFirst {
      CloseOneLine(c1, left);
      CloseOneLine(c2, right);
    }
    OneLineClosed(0, right);
    assert c1.lines == map[0 := left] && c2.lines == map[0 := right] && c1.closed == closeFirst;
    ConflictMerge(0, left, right);
    o := c1.Merge(c2, RightObjectWins);
    assert c1.lines == map[0 := right];
  }

  /** close() on a set holding one line for dof 0 that is already closed. */
  method CloseOneLine(c: AffineConstraints, l: Line)
    requires c.Valid() && !c.closed && c.lines == map[0 := l]
    requires 0 !in Masters(l.entries) && StrictlySorted(l.entries)
    requires forall e :: e in l.entries ==> e.weight != 0.0
    modifies c
    ensures c.Valid() && c.closed && c.lines == map[0 := l]
  {
    OneLineClosed(0, l);
    var r := c.Close();
  }

  /** add_line(0); add_entry(0, m, w); set_inhomogeneity(0, b). */
  method BuildOneLine(m: nat, w: real, b: real) returns (c: AffineConstraints)
    requires m != 0
    ensures fresh(c) && c.Valid() && !c.closed && c.lines == map[0 := Line([Entry(m, w)], b)]
  {
    c := new AffineConstraints();
    var r := c.AddLine(0);
    r := c.AddEntry(0, m, w);
    r := c.SetInhomogeneity(0, b);
    assert [] + [Entry(m, w)] == [Entry(m, w)];
  }
}
