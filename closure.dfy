/** close(): resolving chains of constraints. Zero weights are dropped first,
    then every entry whose master is itself constrained is replaced by that
    master's line, round after round, until no master is constrained; at most
    one round per line is allowed, more means the lines form a cycle. Finally
    each line is sorted by master with duplicate masters summed. */
module Closure {
  import opened Common
  import opened ConstraintLines

  /** No master of any line has a line of its own. */
  predicate ChainFree(L: Lines)
  {
    forall d :: d in L ==> Masters(L[d].entries) !! L.Keys
  }

  /** The invariant of a closed constraint set. */
  predicate ClosedForm(L: Lines)
  {
    ChainFree(L) && forall d :: d in L ==> StrictlySorted(L[d].entries)
  }

  /** The dofs whose lines still name a constrained master. */
  function Unresolved(L: Lines): set<nat>
  {
    set d | d in L && !(Masters(L[d].entries) !! L.Keys)
  }

  function DropZeroEntries(L: Lines): (r: Lines)
  {
    map d | d in L :: Line(DropZeros(L[d].entries), L[d].inhomogeneity)
  }

  /** One round of substitution over all lines. */
  function Resolve(L: Lines): (r: Lines)
  {
    map d | d in L :: SubstituteLine(L[d], L)
  }

  function Iterate(L: Lines, rounds: nat): (r: Result<Lines>)
    ensures r.Ok? ==> r.value.Keys == L.Keys && ChainFree(r.value)
    ensures r.Err? ==> r.error.CyclicConstraint? && r.error.dofs != {}
    decreases rounds
  {
    if ChainFree(L) then Ok(L)
    else if rounds == 0 then
      UnresolvedNonEmpty(L);
      Err(CyclicConstraint(Unresolved(L)))
    else Iterate(Resolve(L), rounds - 1)
  }

  lemma UnresolvedNonEmpty(L: Lines)
    requires !ChainFree(L)
    ensures Unresolved(L) != {}
  {
    var d :| d in L && !(Masters(L[d].entries) !! L.Keys);
    assert d in Unresolved(L);
  }

  function SortEntries(L: Lines): (r: Lines)
  {
    map d | d in L :: Line(Normalize(L[d].entries), L[d].inhomogeneity)
  }

  /** The resolved form of a set of lines, or the cycle that prevents it. */
  function Close(L: Lines): (r: Result<Lines>)
    ensures r.Ok? ==> r.value.Keys == L.Keys && ClosedForm(r.value)
    ensures r.Err? ==> r.error.CyclicConstraint? && r.error.dofs != {}
  {
    match Iterate(DropZeroEntries(L), |L|)
    case Ok(R) =>
      var S := SortEntries(R);
      assert ChainFree(S) by {
        forall d | d in S ensures Masters(S[d].entries) !! S.Keys {
          assert Masters(S[d].entries) == Masters(R[d].entries);
        }
      }
      Ok(S)
    case Err(e) => Err(e)
  }

  // ---------------------------------------------------------------------
  // Soundness: every vector that satisfies the raw lines satisfies the
  // closed ones.

  lemma DropZeroEntriesSound(L: Lines, v: seq<real>)
    requires Satisfies(L, v)
    ensures Satisfies(DropZeroEntries(L), v)
  {
    forall d | d in L ensures At(v, d) == LineValue(DropZeroEntries(L)[d], v) {
      EvalDropZeros(L[d].entries, v);
    }
  }

  lemma ResolveSound(L: Lines, v: seq<real>)
    requires Satisfies(L, v)
    ensures Satisfies(Resolve(L), v)
  {
    forall d | d in L ensures At(v, d) == LineValue(Resolve(L)[d], v) {
      SubstituteLineSound(L[d], L, v);
    }
  }

  lemma {:induction false} IterateSound(L: Lines, rounds: nat, v: seq<real>)
    requires Satisfies(L, v)
    ensures Iterate(L, rounds).Ok? ==> Satisfies(Iterate(L, rounds).value, v)
    decreases rounds
  {
    if !ChainFree(L) && rounds > 0 {
      var m: nat := rounds - 1;
      ResolveSound(L, v);
      IterateSound(Resolve(L), m, v);
      IterateStep(L, m);
    }
  }

  lemma SortEntriesSound(L: Lines, v: seq<real>)
    requires Satisfies(L, v)
    ensures Satisfies(SortEntries(L), v)
  {
    forall d | d in L ensures At(v, d) == LineValue(SortEntries(L)[d], v) {
      EvalNormalize(L[d].entries, v);
    }
  }

  /** Closing never loses a solution: a vector meeting every raw equation
      meets every resolved one. */
  lemma CloseSound(L: Lines, v: seq<real>)
    requires Close(L).Ok?
    requires Satisfies(L, v)
    ensures Satisfies(Close(L).value, v)
  {
    DropZeroEntriesSound(L, v);
    IterateSound(DropZeroEntries(L), |L|, v);
    SortEntriesSound(Iterate(DropZeroEntries(L), |L|).value, v);
  }

  // ---------------------------------------------------------------------
  // close() introduces no new masters.

  /** Every master of every line lies in S. */
  predicate MastersWithin(L: Lines, S: set<nat>)
  {
    forall d :: d in L ==> Masters(L[d].entries) <= S
  }

  lemma ResolveMastersWithin(L: Lines, S: set<nat>)
    requires MastersWithin(L, S)
    ensures MastersWithin(Resolve(L), S)
  {
    forall d | d in Resolve(L) ensures Masters(Resolve(L)[d].entries) <= S {
      SubstituteMasters(L[d].entries, L, S);
    }
  }

  lemma {:induction false} IterateMastersWithin(L: Lines, rounds: nat, S: set<nat>)
    requires MastersWithin(L, S)
    ensures Iterate(L, rounds).Ok? ==> MastersWithin(Iterate(L, rounds).value, S)
    decreases rounds
  {
    if !ChainFree(L) && rounds > 0 {
      var m: nat := rounds - 1;
      ResolveMastersWithin(L, S);
      IterateMastersWithin(Resolve(L), m, S);
      IterateStep(L, m);
    }
  }

  /** Whatever close() substitutes, the masters of the closed lines are
      masters the input already named. */
  lemma CloseMastersWithin(L: Lines, S: set<nat>)
    requires MastersWithin(L, S)
    ensures Close(L).Ok? ==> MastersWithin(Close(L).value, S)
  {
    var Z := DropZeroEntries(L);
    forall d | d in Z ensures Masters(Z[d].entries) <= S {
      DropZerosMasters(L[d].entries);
    }
    IterateMastersWithin(Z, |L|, S);
  }

  // ---------------------------------------------------------------------
  // What close() does to particular shapes of input.

  /** Lines that are already chain-free, sorted and free of zero weights come
      out of close() unchanged. */
  lemma CloseUnchanged(L: Lines)
    requires ClosedForm(L)
    requires forall d, e :: d in L && e in L[d].entries ==> e.weight != 0.0
    ensures Close(L) == Ok(L)
  {
    DropZeroEntriesKeeps(L);
    assert SortEntries(L) == L by {
      forall d | d in L ensures Normalize(L[d].entries) == L[d].entries {
        NormalizeSorted(L[d].entries);
      }
    }
  }

  lemma DropZeroEntriesKeeps(L: Lines)
    requires forall d, e :: d in L && e in L[d].entries ==> e.weight != 0.0
    ensures DropZeroEntries(L) == L
  {
    forall d | d in L ensures DropZeros(L[d].entries) == L[d].entries {
      DropZerosKeeps(L[d].entries);
    }
  }

  /** Every master whose own masters are all unconstrained leaves no
      constrained master behind once substituted. */
  predicate Shallow(L: Lines)
  {
    forall d, s :: d in L && s in L && s in Masters(L[d].entries) ==>
      Masters(L[s].entries) !! L.Keys
  }

  lemma {:induction false} SubstituteClears(es: seq<Entry>, src: Lines)
    requires forall s :: s in src && s in Masters(es) ==> Masters(src[s].entries) !! src.Keys
    ensures Masters(Substitute(es, src).0) !! src.Keys
  {
    if es != [] {
      var e := es[0];
      assert Masters(es) == {e.master} + Masters(es[1..]);
      SubstituteClears(es[1..], src);
      var rest := Substitute(es[1..], src);
      if e.master in src {
        MastersConcat(Scale(src[e.master].entries, e.weight), rest.0);
        MastersScale(src[e.master].entries, e.weight);
      } else {
        MastersConcat([e], rest.0);
      }
    }
  }

  lemma ResolveShallow(L: Lines)
    requires Shallow(L)
    ensures ChainFree(Resolve(L))
  {
    forall d | d in L ensures Masters(Resolve(L)[d].entries) !! L.Keys {
      SubstituteClears(L[d].entries, L);
    }
  }

  lemma {:induction false} DropZerosMasters(es: seq<Entry>)
    ensures Masters(DropZeros(es)) <= Masters(es)
  {
    if es != [] {
      DropZerosMasters(es[1..]);
    }
  }

  lemma DropZeroEntriesShallow(L: Lines)
    requires Shallow(L)
    ensures Shallow(DropZeroEntries(L))
  {
    var Z := DropZeroEntries(L);
    forall d | d in Z ensures Masters(Z[d].entries) <= Masters(L[d].entries) {
      DropZerosMasters(L[d].entries);
    }
  }

  /** Chains of length two (a master whose own masters are all unconstrained)
      are removed by a single round, so close() succeeds on them. */
  lemma CloseShallowChains(L: Lines)
    requires Shallow(L)
    ensures Close(L).Ok?
  {
    var Z := DropZeroEntries(L);
    DropZeroEntriesShallow(L);
    if !ChainFree(Z) {
      ResolveShallow(Z);
      assert |L| > 0 by { assert Z.Keys == L.Keys; }
      assert Iterate(Z, |L|) == Iterate(Resolve(Z), |L| - 1);
      assert Iterate(Resolve(Z), |L| - 1).Ok?;
    }
  }

  /** Lines that only ever point at each other: every line has an entry and
      every master is itself constrained. */
  predicate Trapped(L: Lines)
  {
    (exists d :: d in L) && forall d :: d in L ==> PointsInto(L[d], L.Keys)
  }

  /** A line with at least one entry, all of whose masters are in keys. */
  predicate PointsInto(l: Line, keys: set<nat>)
  {
    l.entries != [] && Masters(l.entries) <= keys
  }

  lemma {:induction false} SubstituteTrapped(es: seq<Entry>, src: Lines)
    requires Masters(es) <= src.Keys
    requires forall s :: s in src ==> src[s].entries != [] && Masters(src[s].entries) <= src.Keys
    ensures es != [] ==> Substitute(es, src).0 != []
    ensures Masters(Substitute(es, src).0) <= src.Keys
  {
    if es != [] {
      var e := es[0];
      assert Masters(es) == {e.master} + Masters(es[1..]);
      SubstituteTrapped(es[1..], src);
      var rest := Substitute(es[1..], src);
      MastersConcat(Scale(src[e.master].entries, e.weight), rest.0);
      MastersScale(src[e.master].entries, e.weight);
    }
  }

  lemma ResolveLineTrapped(L: Lines, d: nat)
    requires Trapped(L) && d in L
    ensures PointsInto(Resolve(L)[d], L.Keys)
  {
    SubstituteTrapped(L[d].entries, L);
  }

  lemma ResolveTrapped(L: Lines)
    requires Trapped(L)
    ensures Trapped(Resolve(L))
  {
    var R := Resolve(L);
    assert R.Keys == L.Keys;
    forall d | d in R ensures PointsInto(R[d], R.Keys) {
      ResolveLineTrapped(L, d);
    }
    var d :| d in L;
    assert d in R;
  }

  lemma TrappedNotChainFree(L: Lines)
    requires Trapped(L)
    ensures !ChainFree(L)
  {
    var d :| d in L;
    assert PointsInto(L[d], L.Keys);
    var m := L[d].entries[0].master;
    assert m in Masters(L[d].entries);
    assert m in L.Keys;
  }

  /** One more round of Iterate is one more Resolve. */
  lemma IterateStep(L: Lines, m: nat)
    requires !ChainFree(L)
    ensures Iterate(L, m + 1) == Iterate(Resolve(L), m)
  {
  }

  lemma {:induction false} IterateTrapped(L: Lines, rounds: nat)
    requires Trapped(L)
    ensures Iterate(L, rounds).Err?
    decreases rounds, 1
  {
    if rounds == 0 {
      TrappedNotChainFree(L);
    } else {
      IterateTrappedRound(L, rounds);
    }
  }

  lemma {:induction false} IterateTrappedRound(L: Lines, rounds: nat)
    requires Trapped(L) && rounds > 0
    ensures Iterate(L, rounds).Err?
    decreases rounds, 0
  {
    var R := Resolve(L);
    var m: nat := rounds - 1;
    TrappedNotChainFree(L);
    ResolveTrapped(L);
    IterateTrapped(R, m);
    IterateStep(L, m);
  }

  /** A group of lines that only refer to one another (with no zero weight to
      drop) is a cycle, and close() rejects it however many rounds it runs. */
  lemma CloseRejectsTrapped(L: Lines)
    requires Trapped(L)
    requires forall d, e :: d in L && e in L[d].entries ==> e.weight != 0.0
    ensures Close(L).Err?
  {
    DropZeroEntriesKeeps(L);
    IterateTrapped(L, |L|);
  }

  /** Two dofs constrained to each other are such a cycle. */
  lemma CloseRejectsTwoCycle(a: nat, b: nat, wa: real, wb: real, ca: real, cb: real)
    requires a != b && wa != 0.0 && wb != 0.0
    ensures Close(map[a := Line([Entry(b, wa)], ca), b := Line([Entry(a, wb)], cb)]).Err?
  {
    var L := map[a := Line([Entry(b, wa)], ca), b := Line([Entry(a, wb)], cb)];
    MastersSingle(Entry(b, wa));
    MastersSingle(Entry(a, wb));
    assert L.Keys == {a, b};
    CloseRejectsTrapped(L);
  }

  // ---------------------------------------------------------------------
  // close() fails exactly when the constrained dofs form a cycle. The
  // dependency graph is the one left once zero weights are dropped: an edge
  // runs from d to m when d's line names the constrained dof m.

  predicate Edge(Z: Lines, d: nat, m: nat)
  {
    d in Z && m in Z && m in Masters(Z[d].entries)
  }

  /** A chain of constrained dofs, each naming the next. */
  predicate Walk(Z: Lines, w: seq<nat>)
  {
    |w| >= 1 && w[0] in Z && forall i :: 0 <= i < |w| - 1 ==> Edge(Z, w[i], w[i + 1])
  }

  /** A walk of at least one step that comes back to where it started. */
  predicate Cycle(Z: Lines, w: seq<nat>)
  {
    Walk(Z, w) && |w| >= 2 && w[0] == w[|w| - 1]
  }

  ghost predicate Acyclic(Z: Lines)
  {
    forall w :: !Cycle(Z, w)
  }

  /** A rank that every edge strictly lowers: the usual witness that a
      graph has no cycle. */
  ghost predicate Ranked(Z: Lines, rank: map<nat, nat>)
  {
    Z.Keys <= rank.Keys && forall d, m :: Edge(Z, d, m) ==> rank[m] < rank[d]
  }

  /** Every dof of C has a master in C. */
  predicate Trap(L: Lines, C: set<nat>)
  {
    C <= L.Keys && forall y :: y in C ==> Masters(L[y].entries) * C != {}
  }

  /** Substituting x's line for x brings in x's masters. */
  lemma {:induction false} SubstituteVia(es: seq<Entry>, src: Lines, x: nat, m: nat)
    requires x in Masters(es) && x in src && m in Masters(src[x].entries)
    ensures m in Masters(Substitute(es, src).0)
  {
    var e := es[0];
    var rest := Substitute(es[1..], src);
    assert Masters(es) == {e.master} + Masters(es[1..]);
    if e.master == x {
      MastersConcat(Scale(src[x].entries, e.weight), rest.0);
      MastersScale(src[x].entries, e.weight);
    } else {
      SubstituteVia(es[1..], src, x, m);
      if e.master in src {
        MastersConcat(Scale(src[e.master].entries, e.weight), rest.0);
      } else {
        MastersConcat([e], rest.0);
      }
    }
  }

  lemma ResolveTrap(L: Lines, C: set<nat>)
    requires Trap(L, C)
    ensures Trap(Resolve(L), C)
  {
    forall y | y in C ensures Masters(Resolve(L)[y].entries) * C != {} {
      var x :| x in Masters(L[y].entries) * C;
      var m :| m in Masters(L[x].entries) * C;
      SubstituteVia(L[y].entries, L, x, m);
      assert m in Masters(Resolve(L)[y].entries) * C;
    }
  }

  /** Lines caught in a trap are never resolved: Iterate fails, and names
      every dof of the trap. */
  lemma {:induction false} IterateTrap(L: Lines, rounds: nat, C: set<nat>)
    requires Trap(L, C) && C != {}
    ensures Iterate(L, rounds).Err? && C <= Iterate(L, rounds).error.dofs
    decreases rounds
  {
    TrapUnresolved(L, C);
    if rounds > 0 {
      var m: nat := rounds - 1;
      ResolveTrap(L, C);
      IterateTrap(Resolve(L), m, C);
      IterateStep(L, m);
    }
  }

  lemma TrapUnresolved(L: Lines, C: set<nat>)
    requires Trap(L, C) && C != {}
    ensures C <= Unresolved(L) && !ChainFree(L)
  {
    forall y | y in C ensures y in Unresolved(L) {
      var x :| x in Masters(L[y].entries) * C;
    }
    var y :| y in C;
    assert !(Masters(L[y].entries) !! L.Keys);
  }

  /** The dofs a walk passes through. */
  function Nodes(w: seq<nat>): set<nat>
  {
    set k | 0 <= k < |w| :: w[k]
  }

  lemma CycleTrap(Z: Lines, w: seq<nat>)
    requires Cycle(Z, w)
    ensures Trap(Z, Nodes(w)) && Nodes(w) != {}
  {
    var C := Nodes(w);
    assert w[0] in C;
    forall y | y in C ensures y in Z && Masters(Z[y].entries) * C != {} {
      var k :| 0 <= k < |w| && w[k] == y;
      var n := if k < |w| - 1 then k + 1 else 1;
      assert Edge(Z, w[n - 1], w[n]);
      assert w[n] in Masters(Z[y].entries) * C;
    }
  }

  /** Substitution only brings in masters of the lines it substitutes. */
  lemma {:induction false} SubstituteOrigin(es: seq<Entry>, src: Lines, m: nat) returns (x: nat)
    requires m in Masters(Substitute(es, src).0) && m in src
    ensures x in Masters(es) && x in src && m in Masters(src[x].entries)
  {
    var e := es[0];
    var rest := Substitute(es[1..], src);
    assert Masters(es) == {e.master} + Masters(es[1..]);
    if e.master in src {
      MastersConcat(Scale(src[e.master].entries, e.weight), rest.0);
      MastersScale(src[e.master].entries, e.weight);
      if m in Masters(src[e.master].entries) {
        x := e.master;
      } else {
        x := SubstituteOrigin(es[1..], src, m);
      }
    } else {
      MastersConcat([e], rest.0);
      MastersSingle(e);
      x := SubstituteOrigin(es[1..], src, m);
    }
  }

  lemma WalkConcat(Z: Lines, a: seq<nat>, b: seq<nat>)
    requires Walk(Z, a) && Walk(Z, b) && a[|a| - 1] == b[0]
    ensures Walk(Z, a + b[1..]) && (a + b[1..])[0] == a[0]
    ensures (a + b[1..])[|a + b[1..]| - 1] == b[|b| - 1] && |a + b[1..]| == |a| + |b| - 1
  {
    var w := a + b[1..];
    forall i | 0 <= i < |w| - 1 ensures Edge(Z, w[i], w[i + 1]) {
      if i < |a| - 1 {
        assert w[i] == a[i] && w[i + 1] == a[i + 1];
      } else {
        var j := i - (|a| - 1);
        assert w[i] == b[j] && w[i + 1] == b[j + 1];
      }
    }
  }

  /** h records rounds of substitution on Z: h[0] is Z and each line map
      is Resolve of the one before it. */
  ghost predicate IsHistory(Z: Lines, h: seq<Lines>)
    decreases |h|
  {
    if |h| <= 1 then h == [Z]
    else IsHistory(Z, h[..|h| - 1]) && h[|h| - 1] == Resolve(h[|h| - 2])
  }

  lemma {:induction false} HistoryAt(Z: Lines, h: seq<Lines>, k: nat)
    requires IsHistory(Z, h) && k < |h|
    ensures h[0] == Z && h[k].Keys == Z.Keys
    ensures k > 0 ==> h[k] == Resolve(h[k - 1])
    decreases |h|
  {
    if |h| > 1 {
      var p := h[..|h| - 1];
      assert p[0] == h[0];
      if k < |h| - 1 {
        HistoryAt(Z, p, k);
        assert p[k] == h[k];
        if k > 0 {
          assert p[k - 1] == h[k - 1];
        }
      } else {
        HistoryAt(Z, p, k - 1);
        assert p[k - 1] == h[k - 1];
      }
    }
  }

  /** The lines before each of n rounds of substitution and after the last. */
  ghost function History(Z: Lines, n: nat): (h: seq<Lines>)
    ensures |h| == n + 1 && IsHistory(Z, h)
  {
    if n == 0 then [Z]
    else
      var h := History(Z, n - 1);
      var r := h + [Resolve(h[n - 1])];
      assert r[..n] == h;
      r
  }

  /** rounds rounds of substitution leave a chain behind. */
  predicate FailsAfter(P: Lines, rounds: nat)
  {
    Iterate(P, rounds).Err?
  }

  /** A failing Iterate leaves a line that still names a constrained dof
      after its last round. */
  lemma {:induction false} IterateUnresolved(Z: Lines, h: seq<Lines>, i: nat, rounds: nat)
    requires IsHistory(Z, h) && i + rounds == |h| - 1
    requires FailsAfter(h[i], rounds)
    ensures !ChainFree(h[|h| - 1])
    decreases rounds
  {
    if rounds == 0 {
      IterateErrNext(h[i], 0);
    } else {
      HistoryErrNext(Z, h, i, rounds);
      IterateUnresolved(Z, h, i + 1, rounds - 1);
    }
  }

  /** A failing Iterate starts from lines that are not chain-free, and
      fails again one round later. */
  lemma IterateErrNext(P: Lines, rounds: nat)
    requires Iterate(P, rounds).Err?
    ensures !ChainFree(P)
    ensures rounds > 0 ==> Iterate(Resolve(P), rounds - 1).Err?
  {
    if rounds > 0 {
      IterateStep(P, rounds - 1);
    }
  }

  lemma HistoryErrNext(Z: Lines, h: seq<Lines>, i: nat, rounds: nat)
    requires IsHistory(Z, h) && 0 < rounds && i + rounds < |h|
    requires FailsAfter(h[i], rounds)
    ensures FailsAfter(h[i + 1], rounds - 1)
  {
    IterateErrNext(h[i], rounds);
    HistoryAt(Z, h, i + 1);
  }

  lemma HistoryLine(Z: Lines, h: seq<Lines>, k: nat, d: nat)
    requires IsHistory(Z, h) && 0 < k < |h| && d in h[k]
    ensures d in h[k - 1] && h[k][d] == SubstituteLine(h[k - 1][d], h[k - 1])
  {
    HistoryAt(Z, h, k);
    HistoryAt(Z, h, k - 1);
  }

  /** A master of d's line after round k came through some master x of
      d's line before that round. */
  lemma HistoryOrigin(Z: Lines, h: seq<Lines>, k: nat, d: nat, m: nat) returns (x: nat)
    requires IsHistory(Z, h) && 0 < k < |h| && d in h[k] && m in Z
    requires m in Masters(h[k][d].entries)
    ensures x in Z && d in h[k - 1] && x in h[k - 1]
    ensures x in Masters(h[k - 1][d].entries) && m in Masters(h[k - 1][x].entries)
  {
    var P := h[k - 1];
    HistoryAt(Z, h, k);
    HistoryLine(Z, h, k, d);
    x := SubstituteOrigin(P[d].entries, P, m);
  }

  /** A master that d's line names after round k, and that is itself
      constrained, ends a walk from d with more than k steps. */
  lemma {:induction false} WalkOf(Z: Lines, h: seq<Lines>, k: nat, d: nat, m: nat) returns (w: seq<nat>)
    requires IsHistory(Z, h) && k < |h| && d in h[k] && m in Z
    requires m in Masters(h[k][d].entries)
    ensures Walk(Z, w) && w[0] == d && w[|w| - 1] == m && |w| >= k + 2
    decreases k
  {
    if k == 0 {
      HistoryAt(Z, h, 0);
      w := [d, m];
      assert Edge(Z, w[0], w[1]);
    } else {
      var x := HistoryOrigin(Z, h, k, d, m);
      var a := WalkOf(Z, h, k - 1, d, x);
      var b := WalkOf(Z, h, k - 1, x, m);
      WalkConcat(Z, a, b);
      w := a + b[1..];
    }
  }

  lemma WalkNodes(Z: Lines, w: seq<nat>)
    requires Walk(Z, w)
    ensures forall i :: 0 <= i < |w| ==> w[i] in Z
  {
    forall i | 0 < i < |w| ensures w[i] in Z {
      assert Edge(Z, w[i - 1], w[i]);
    }
  }

  /** Distinct elements of S number at most |S|. */
  lemma {:induction false} DistinctBound(w: seq<nat>, S: set<nat>)
    requires Distinct(w) && forall i :: 0 <= i < |w| ==> w[i] in S
    ensures |w| <= |S|
  {
    if w != [] {
      var n := |w| - 1;
      var v := w[..n];
      forall i | 0 <= i < n ensures v[i] in S - {w[n]} {
        assert v[i] == w[i] != w[n];
      }
      DistinctBound(v, S - {w[n]});
    }
  }

  /** A walk through more dofs than are constrained visits one twice. */
  lemma LongWalkRepeats(Z: Lines, w: seq<nat>) returns (i: nat, j: nat)
    requires Walk(Z, w) && |w| > |Z.Keys|
    ensures i < j < |w| && w[i] == w[j]
  {
    WalkNodes(Z, w);
    if Distinct(w) {
      DistinctBound(w, Z.Keys);
      assert false;
    }
    i, j :| 0 <= i < j < |w| && w[i] == w[j];
  }

  /** The stretch of a walk between two visits of one dof is a cycle. */
  lemma WalkSlice(Z: Lines, w: seq<nat>, i: nat, j: nat)
    requires Walk(Z, w) && i < j < |w| && w[i] == w[j]
    ensures Cycle(Z, w[i..j + 1])
  {
    WalkNodes(Z, w);
    var v := w[i..j + 1];
    forall k | 0 <= k < |v| - 1 ensures Edge(Z, v[k], v[k + 1]) {
      assert v[k] == w[i + k] && v[k + 1] == w[i + k + 1];
    }
    assert v[0] == w[i] && v[|v| - 1] == w[j];
  }

  /** A cycle makes close() fail, and every dof on it is reported. */
  lemma CloseRejectsCycle(L: Lines, w: seq<nat>)
    requires Cycle(DropZeroEntries(L), w)
    ensures Close(L).Err? && forall i :: 0 <= i < |w| ==> w[i] in Close(L).error.dofs
  {
    var Z := DropZeroEntries(L);
    CycleTrap(Z, w);
    IterateTrap(Z, |L|, Nodes(w));
    forall i | 0 <= i < |w| ensures w[i] in Nodes(w) { }
  }

  /** close() fails only when Iterate does. */
  lemma CloseErrIterate(L: Lines)
    requires Close(L).Err?
    ensures Iterate(DropZeroEntries(L), |L|).Err?
  {
  }

  /** When n rounds of substitution leave a chain, the dependency graph
      has a walk of more than n steps. */
  lemma LongWalk(Z: Lines, n: nat) returns (long: seq<nat>)
    requires Iterate(Z, n).Err?
    ensures Walk(Z, long) && |long| >= n + 2
  {
    var h := History(Z, n);
    HistoryAt(Z, h, 0);
    IterateUnresolved(Z, h, 0, n);
    var R := h[n];
    HistoryAt(Z, h, n);
    var d :| d in R && !(Masters(R[d].entries) !! R.Keys);
    var m :| m in Masters(R[d].entries) && m in Z;
    long := WalkOf(Z, h, n, d, m);
  }

  /** When close() fails there is a cycle, and the dofs it reports include
      all the dofs on it. */
  lemma CloseErrCycle(L: Lines) returns (w: seq<nat>)
    requires Close(L).Err?
    ensures Cycle(DropZeroEntries(L), w)
    ensures forall i :: 0 <= i < |w| ==> w[i] in Close(L).error.dofs
  {
    var Z := DropZeroEntries(L);
    assert Z.Keys == L.Keys;
    CloseErrIterate(L);
    var long := LongWalk(Z, |L|);
    var i, j := LongWalkRepeats(Z, long);
    WalkSlice(Z, long, i, j);
    w := long[i..j + 1];
    CloseRejectsCycle(L, w);
  }

  /** CloseRejectsCycle as an implication, so that it can be used under a
      quantifier over all sequences. */
  lemma CycleRejected(L: Lines, w: seq<nat>)
    ensures Cycle(DropZeroEntries(L), w) ==> Close(L).Err?
  {
    if Cycle(DropZeroEntries(L), w) {
      CloseRejectsCycle(L, w);
    }
  }

  /** close() succeeds exactly on lines without a cycle. */
  lemma CloseOkIffAcyclic(L: Lines)
    ensures Close(L).Ok? <==> Acyclic(DropZeroEntries(L))
  {
    var Z := DropZeroEntries(L);
    if Close(L).Err? {
      var w := CloseErrCycle(L);
      assert Cycle(Z, w);
    } else {
      forall w ensures !Cycle(Z, w) {
        CycleRejected(L, w);
      }
    }
  }

  lemma {:induction false} WalkRankDecreases(Z: Lines, rank: map<nat, nat>, w: seq<nat>)
    requires Ranked(Z, rank) && Walk(Z, w) && |w| >= 2
    ensures w[0] in rank && w[|w| - 1] in rank && rank[w[|w| - 1]] < rank[w[0]]
  {
    assert Edge(Z, w[0], w[1]);
    if |w| > 2 {
      WalkRankDecreases(Z, rank, w[1..]);
    }
  }

  /** Lines whose dofs can be ranked so that every line names only
      lower-ranked constrained dofs (chains of any depth, no cycle) close. */
  lemma CloseRanked(L: Lines, rank: map<nat, nat>)
    requires Ranked(DropZeroEntries(L), rank)
    ensures Close(L).Ok?
  {
    var Z := DropZeroEntries(L);
    forall w | Walk(Z, w) && |w| >= 2 ensures w[0] != w[|w| - 1] {
      WalkRankDecreases(Z, rank, w);
    }
    CloseOkIffAcyclic(L);
  }
}
