/** The copy loops of the component-selecting multigrid transfer. A level
    vector reaches the global vector through a list of (global index, level
    index) pairs per level; the loops visit the active cells in order and
    run the list of each cell's level. Global vectors are arrays; a block
    vector is one array whose blocks lie one after the other, block b
    starting at the sum of the sizes of the blocks before it. The active
    cells are given by their levels, the level vectors by their values. */
module MgTransfer {
  import opened Common
  import opened ConstraintLines
  import opened VectorExpansion
  import opened Constraints

  /** The (global index, level index) pairs of one level. */
  type Pairs = seq<(nat, nat)>

  /** Every pair of ps reads inside v and writes inside a vector of length n. */
  predicate PairsFit(ps: Pairs, n: nat, v: seq<real>)
  {
    forall k :: 0 <= k < |ps| ==> ps[k].0 < n && ps[k].1 < |v|
  }

  /** Every active cell's level has an index list and a level vector, and the
      list fits both. */
  predicate LevelsFit(levels: seq<nat>, indices: seq<Pairs>, src: seq<seq<real>>, n: nat)
  {
    forall c :: 0 <= c < |levels| ==>
      levels[c] < |indices| && levels[c] < |src| && PairsFit(indices[levels[c]], n, src[levels[c]])
  }

  lemma LevelsFitPrefix(levels: seq<nat>, indices: seq<Pairs>, src: seq<seq<real>>, n: nat, c: nat)
    requires LevelsFit(levels, indices, src, n) && c <= |levels|
    ensures LevelsFit(levels[..c], indices, src, n)
  {
    forall e | 0 <= e < c ensures levels[..c][e] == levels[e] { }
  }

  // ---------------------------------------------------------------------
  // What the loops compute.

  /** `u(g) = v(l)` for every pair (g, l) of ps, in order. */
  function Assigned(u: seq<real>, ps: Pairs, v: seq<real>): (r: seq<real>)
    requires PairsFit(ps, |u|, v)
    ensures |r| == |u|
    decreases |ps|
  {
    if ps == [] then u
    else
      var k := |ps| - 1;
      assert PairsFit(ps[..k], |u|, v) by {
        forall j | 0 <= j < k ensures ps[..k][j] == ps[j] { }
      }
      Assigned(u, ps[..k], v)[ps[k].0 := v[ps[k].1]]
  }

  /** The list of every active cell's level run by assignment, cell after
      cell. */
  function CopiedFromMg(u: seq<real>, levels: seq<nat>, indices: seq<Pairs>, src: seq<seq<real>>): (r: seq<real>)
    requires LevelsFit(levels, indices, src, |u|)
    ensures |r| == |u|
    decreases |levels|
  {
    if levels == [] then u
    else
      var c := |levels| - 1;
      LevelsFitPrefix(levels, indices, src, |u|, c);
      Assigned(CopiedFromMg(u, levels[..c], indices, src), indices[levels[c]], src[levels[c]])
  }

  /** The additions `u(g) += v(l)` of one level's list. */
  function LevelContributions(ps: Pairs, v: seq<real>): (r: seq<Contribution<nat>>)
    requires forall k :: 0 <= k < |ps| ==> ps[k].1 < |v|
    ensures |r| == |ps| && forall k :: 0 <= k < |ps| ==> r[k] == Contribution(ps[k].0, v[ps[k].1])
  {
    seq(|ps|, k requires 0 <= k < |ps| => Contribution(ps[k].0, v[ps[k].1]))
  }

  /** The additions of every active cell's level list, cell after cell. */
  function MeshLevelContributions(levels: seq<nat>, indices: seq<Pairs>, src: seq<seq<real>>, n: nat)
    : (r: seq<Contribution<nat>>)
    requires LevelsFit(levels, indices, src, n)
    ensures InRange(r, n)
    decreases |levels|
  {
    if levels == [] then []
    else
      var c := |levels| - 1;
      LevelsFitPrefix(levels, indices, src, n, c);
      var ps := indices[levels[c]];
      MeshLevelContributions(levels[..c], indices, src, n) + LevelContributions(ps, src[levels[c]])
  }

  /** u with w written over its entries lo .. lo + |w| - 1. */
  function Spliced(u: seq<real>, lo: nat, w: seq<real>): (r: seq<real>)
    requires lo + |w| <= |u|
    ensures |r| == |u|
    ensures r[..lo] == u[..lo] && r[lo..lo + |w|] == w && r[lo + |w|..] == u[lo + |w|..]
  {
    seq(|u|, i requires 0 <= i < |u| => if lo <= i < lo + |w| then w[i - lo] else u[i])
  }

  /** The sum of the sizes. */
  function Total(sizes: seq<nat>): nat
  {
    if sizes == [] then 0 else Total(sizes[..|sizes| - 1]) + sizes[|sizes| - 1]
  }

  /** Where block b starts. */
  function Offset(sizes: seq<nat>, b: nat): (r: nat)
    requires b < |sizes|
    ensures r + sizes[b] <= Total(sizes)
  {
    TotalPrefix(sizes, b + 1);
    Total(sizes[..b])
  }

  lemma {:induction false} TotalPrefix(sizes: seq<nat>, b: nat)
    requires b <= |sizes|
    ensures Total(sizes[..b]) <= Total(sizes)
    ensures b > 0 ==> Total(sizes[..b]) == Total(sizes[..b - 1]) + sizes[b - 1]
    decreases |sizes|
  {
    if b < |sizes| {
      var k := |sizes| - 1;
      assert sizes[..k][..b] == sizes[..b];
      TotalPrefix(sizes[..k], b);
    } else {
      assert sizes[..b] == sizes;
    }
    if b > 0 {
      assert sizes[..b][..b - 1] == sizes[..b - 1];
    }
  }

  /** The largest component number. */
  function MaxOf(s: seq<nat>): (r: nat)
    requires s != []
    ensures r in s && forall k :: 0 <= k < |s| ==> s[k] <= r
  {
    if |s| == 1 then s[0]
    else
      var m := MaxOf(s[1..]);
      assert forall k :: 1 <= k < |s| ==> s[k] == s[1..][k - 1];
      if s[0] >= m then s[0] else m
  }

  // ---------------------------------------------------------------------
  // Properties of the loops.

  /** After the assignments, an index that no pair writes keeps its value,
      and an index that some pair writes holds the same value whatever the
      vector held before. */
  lemma {:induction false} AssignedAt(u: seq<real>, w: seq<real>, ps: Pairs, v: seq<real>, g: nat)
    requires PairsFit(ps, |u|, v) && |w| == |u| && g < |u|
    ensures (forall k :: 0 <= k < |ps| ==> ps[k].0 != g) ==> Assigned(u, ps, v)[g] == u[g]
    ensures (exists k :: 0 <= k < |ps| && ps[k].0 == g) ==> Assigned(u, ps, v)[g] == Assigned(w, ps, v)[g]
    decreases |ps|
  {
    if ps != [] {
      var k := |ps| - 1;
      assert PairsFit(ps[..k], |u|, v) by {
        forall j | 0 <= j < k ensures ps[..k][j] == ps[j] { }
      }
      AssignedAt(u, w, ps[..k], v, g);
      if ps[k].0 != g {
        if exists j :: 0 <= j < |ps| && ps[j].0 == g {
          var j :| 0 <= j < |ps| && ps[j].0 == g;
          assert ps[..k][j] == ps[j];
        }
      }
    }
  }

  /** Running a level's list twice gives what running it once gives: the
      list assigns, so the cells of one level repeat the same writes. */
  lemma AssignedIdempotent(u: seq<real>, ps: Pairs, v: seq<real>)
    requires PairsFit(ps, |u|, v)
    ensures Assigned(Assigned(u, ps, v), ps, v) == Assigned(u, ps, v)
  {
    var once := Assigned(u, ps, v);
    forall g | 0 <= g < |u| ensures Assigned(once, ps, v)[g] == once[g] {
      AssignedAt(once, u, ps, v, g);
    }
  }

  /** A second active cell on the level just visited changes nothing. */
  lemma CopiedFromMgRepeat(u: seq<real>, levels: seq<nat>, indices: seq<Pairs>, src: seq<seq<real>>)
    requires LevelsFit(levels, indices, src, |u|) && levels != []
    ensures LevelsFit(levels + [levels[|levels| - 1]], indices, src, |u|)
    ensures CopiedFromMg(u, levels + [levels[|levels| - 1]], indices, src) == CopiedFromMg(u, levels, indices, src)
  {
    var l := levels[|levels| - 1];
    var ls := levels + [l];
    assert LevelsFit(ls, indices, src, |u|) by {
      forall c | 0 <= c < |ls| ensures ls[c] < |indices| && ls[c] < |src| && PairsFit(indices[ls[c]], |u|, src[ls[c]]) {
        if c < |levels| { assert ls[c] == levels[c]; }
      }
    }
    var c := |levels| - 1;
    assert ls[..|levels|] == levels;
    assert levels[..c] == ls[..|levels|][..c];
    AssignedIdempotent(CopiedFromMg(u, levels[..c], indices, src), indices[l], src[l]);
  }

  /** An index that no list of an active cell's level writes keeps its
      value; from a zeroed vector it stays zero. */
  lemma {:induction false} CopiedFromMgUnlisted(u: seq<real>, levels: seq<nat>, indices: seq<Pairs>, src: seq<seq<real>>, g: nat)
    requires LevelsFit(levels, indices, src, |u|) && g < |u|
    requires forall c, k :: 0 <= c < |levels| && 0 <= k < |indices[levels[c]]| ==> indices[levels[c]][k].0 != g
    ensures CopiedFromMg(u, levels, indices, src)[g] == u[g]
    decreases |levels|
  {
    if levels != [] {
      var c := |levels| - 1;
      LevelsFitPrefix(levels, indices, src, |u|, c);
      forall e, k | 0 <= e < c && 0 <= k < |indices[levels[..c][e]]| ensures indices[levels[..c][e]][k].0 != g {
        assert levels[..c][e] == levels[e];
      }
      CopiedFromMgUnlisted(u, levels[..c], indices, src, g);
      var w := CopiedFromMg(u, levels[..c], indices, src);
      AssignedAt(w, w, indices[levels[c]], src[levels[c]], g);
    }
  }

  /** For one list whose global indices are distinct, assignment into a
      zero vector and addition into a zero vector agree. */
  lemma {:induction false} AssignedIsAddedWhenDistinct(n: nat, ps: Pairs, v: seq<real>, g: nat)
    requires PairsFit(ps, n, v) && g < n
    requires forall i, j :: 0 <= i < j < |ps| ==> ps[i].0 != ps[j].0
    ensures Assigned(Zeros(n), ps, v)[g] == SumAt(LevelContributions(ps, v), g)
    decreases |ps|
  {
    if ps != [] {
      var k := |ps| - 1;
      var front := ps[..k];
      assert PairsFit(front, n, v) by {
        forall j | 0 <= j < k ensures front[j] == ps[j] { }
      }
      var one := [Contribution(ps[k].0, v[ps[k].1])];
      assert LevelContributions(ps, v) == LevelContributions(front, v) + one;
      SumAtConcat(LevelContributions(front, v), one, g);
      AssignedIsAddedWhenDistinct(n, front, v, g);
      if ps[k].0 == g {
        AssignedAt(Zeros(n), Zeros(n), front, v, g);
      }
    }
  }

  lemma Distribute(a: real, x: real)
    ensures (a + 1.0) * x == a * x + x
  {
  }

  /** The added lists when every active cell is on level l: the level's list
      is accumulated once per cell. */
  lemma {:induction false} AddedSingleLevel(l: nat, levels: seq<nat>, indices: seq<Pairs>, src: seq<seq<real>>, n: nat, g: nat)
    requires LevelsFit(levels, indices, src, n) && l < |indices| && l < |src| && PairsFit(indices[l], n, src[l])
    requires forall c :: 0 <= c < |levels| ==> levels[c] == l
    ensures SumAt(MeshLevelContributions(levels, indices, src, n), g)
         == |levels| as real * SumAt(LevelContributions(indices[l], src[l]), g)
    decreases |levels|
  {
    if levels != [] {
      var c := |levels| - 1;
      LevelsFitPrefix(levels, indices, src, n, c);
      var prior := MeshLevelContributions(levels[..c], indices, src, n);
      var one := LevelContributions(indices[l], src[l]);
      AddedSingleLevel(l, levels[..c], indices, src, n, g);
      assert MeshLevelContributions(levels, indices, src, n) == prior + one;
      SumAtConcat(prior, one, g);
      Distribute(c as real, SumAt(one, g));
    }
  }

  // ---------------------------------------------------------------------
  // The transfer object.

  /** MGTransferSelect: the block that the selected component lives in, the
      copy lists of every level and, optionally, constraints to condense
      the result with. The copy operations leave the object as it is. */
  class MgTransferSelect {
    /** target_component: the block of every component. */
    const targetComponent: seq<nat>
    const selectedComponent: nat
    /** copy_to_and_from_indices, one list per level. */
    const indices: seq<Pairs>
    const constraints: AffineConstraints?

    constructor (targetComponent: seq<nat>, selectedComponent: nat, indices: seq<Pairs>,
                 constraints: AffineConstraints?)
      ensures this.targetComponent == targetComponent && this.selectedComponent == selectedComponent
      ensures this.indices == indices && this.constraints == constraints
    {
      this.targetComponent := targetComponent;
      this.selectedComponent := selectedComponent;
      this.indices := indices;
      this.constraints := constraints;
    }

    /** The block of the selected component: one of the blocks that
        target_component numbers, so below their count MaxOf + 1. */
    function TargetBlock(): (b: nat)
      requires selectedComponent < |targetComponent|
      ensures b in targetComponent && b < MaxOf(targetComponent) + 1
    {
      targetComponent[selectedComponent]
    }

    /** One active cell's level list run by assignment on the entries
        lo .. lo + len - 1 of dst, which hold `before`. */
    method AssignLevel(dst: array<real>, lo: nat, len: nat, ps: Pairs, v: seq<real>, ghost before: seq<real>)
      requires lo + len <= dst.Length && |before| == len && PairsFit(ps, len, v)
      requires forall g :: 0 <= g < len ==> dst[lo + g] == before[g]
      modifies dst
      ensures forall i :: 0 <= i < dst.Length && !(lo <= i < lo + len) ==> dst[i] == old(dst[i])
      ensures forall g :: 0 <= g < len ==> dst[lo + g] == Assigned(before, ps, v)[g]
    {
      for k := 0 to |ps|
        invariant forall i :: 0 <= i < dst.Length && !(lo <= i < lo + len) ==> dst[i] == old(dst[i])
        invariant PairsFit(ps[..k], len, v)
        invariant forall g :: 0 <= g < len ==> dst[lo + g] == Assigned(before, ps[..k], v)[g]
      {
        assert PairsFit(ps[..k + 1], len, v) by {
          forall j | 0 <= j < k + 1 ensures ps[..k + 1][j] == ps[j] { }
        }
        dst[lo + ps[k].0] := v[ps[k].1];
        assert ps[..k + 1][..k] == ps[..k];
      }
      assert ps[..|ps|] == ps;
    }

    /** do_copy_from_mg into entries lo .. lo + len - 1 of dst (a vector, or
        one block of a block vector): they are zeroed, then every active
        cell's level list is run, `dst(g) = src[level](l)`. */
    method DoCopyFromMg(dst: array<real>, lo: nat, len: nat, levels: seq<nat>, src: seq<seq<real>>)
      requires lo + len <= dst.Length && LevelsFit(levels, indices, src, len)
      modifies dst
      ensures dst[..] == Spliced(old(dst[..]), lo, CopiedFromMg(Zeros(len), levels, indices, src))
    {
      forall i | lo <= i < lo + len {
        dst[i] := 0.0;
      }
      for c := 0 to |levels|
        invariant forall i :: 0 <= i < dst.Length && !(lo <= i < lo + len) ==> dst[i] == old(dst[i])
        invariant LevelsFit(levels[..c], indices, src, len)
        invariant forall g :: 0 <= g < len ==> dst[lo + g] == CopiedFromMg(Zeros(len), levels[..c], indices, src)[g]
      {
        LevelsFitPrefix(levels, indices, src, len, c + 1);
        assert levels[..c + 1][..c] == levels[..c];
        AssignLevel(dst, lo, len, indices[levels[c]], src[levels[c]], CopiedFromMg(Zeros(len), levels[..c], indices, src));
      }
      assert levels[..|levels|] == levels;
      ghost var sum := Spliced(old(dst[..]), lo, CopiedFromMg(Zeros(len), levels, indices, src));
      assert dst[..] == sum by {
        forall i | 0 <= i < dst.Length ensures dst[i] == sum[i] {
          if lo <= i < lo + len {
            assert dst[lo + (i - lo)] == CopiedFromMg(Zeros(len), levels, indices, src)[i - lo];
          }
        }
      }
    }

    /** One active cell's level list run by addition on dst. */
    method AddLevel(dst: array<real>, ps: Pairs, v: seq<real>)
      requires PairsFit(ps, dst.Length, v)
      modifies dst
      ensures forall i :: 0 <= i < dst.Length ==> dst[i] == old(dst[i]) + SumAt(LevelContributions(ps, v), i)
    {
      for k := 0 to |ps|
        invariant forall i :: 0 <= i < dst.Length ==> dst[i] == old(dst[i]) + SumAt(LevelContributions(ps[..k], v), i)
      {
        var one := [Contribution(ps[k].0, v[ps[k].1])];
        assert LevelContributions(ps[..k + 1], v) == LevelContributions(ps[..k], v) + one;
        dst[ps[k].0] := dst[ps[k].0] + v[ps[k].1];
        forall i | 0 <= i < dst.Length
          ensures dst[i] == old(dst[i]) + SumAt(LevelContributions(ps[..k + 1], v), i)
        {
          SumAtConcat(LevelContributions(ps[..k], v), one, i);
        }
      }
      assert ps[..|ps|] == ps;
    }

    /** do_copy_from_mg_add: dst is zeroed, then every active cell's level
        list is run, `dst(g) += src[level](l)`. */
    method DoCopyFromMgAdd(dst: array<real>, levels: seq<nat>, src: seq<seq<real>>)
      requires LevelsFit(levels, indices, src, dst.Length)
      modifies dst
      ensures dst[..] == AddedTo(Zeros(dst.Length), MeshLevelContributions(levels, indices, src, dst.Length))
    {
      forall i | 0 <= i < dst.Length {
        dst[i] := 0.0;
      }
      for c := 0 to |levels|
        invariant LevelsFit(levels[..c], indices, src, dst.Length)
        invariant forall i :: 0 <= i < dst.Length ==>
          dst[i] == SumAt(MeshLevelContributions(levels[..c], indices, src, dst.Length), i)
      {
        LevelsFitPrefix(levels, indices, src, dst.Length, c + 1);
        assert levels[..c + 1][..c] == levels[..c];
        ghost var prior := MeshLevelContributions(levels[..c], indices, src, dst.Length);
        ghost var one := LevelContributions(indices[levels[c]], src[levels[c]]);
        AddLevel(dst, indices[levels[c]], src[levels[c]]);
        forall i | 0 <= i < dst.Length
          ensures dst[i] == SumAt(MeshLevelContributions(levels[..c + 1], indices, src, dst.Length), i)
        {
          SumAtConcat(prior, one, i);
        }
      }
      assert levels[..|levels|] == levels;
      ghost var sum := AddedTo(Zeros(dst.Length), MeshLevelContributions(levels, indices, src, dst.Length));
      assert dst[..] == sum by {
        forall i | 0 <= i < dst.Length ensures dst[i] == sum[i] { }
      }
    }

    /** copy_from_mg into a block vector whose blocks have the given sizes:
        the whole vector is zeroed, the levels are copied into the target
        block, and with constraints the whole vector is condensed. */
    method CopyFromMgBlock(dst: array<real>, sizes: seq<nat>, levels: seq<nat>, src: seq<seq<real>>)
      requires selectedComponent < |targetComponent| && TargetBlock() < |sizes| && dst.Length == Total(sizes)
      requires LevelsFit(levels, indices, src, sizes[TargetBlock()])
      requires constraints != null ==>
        constraints.Valid() && constraints.closed && Fits(constraints.lines, dst.Length)
      modifies dst
      ensures constraints == null ==>
        dst[..] == Spliced(Zeros(dst.Length), Offset(sizes, TargetBlock()),
                           CopiedFromMg(Zeros(sizes[TargetBlock()]), levels, indices, src))
      ensures constraints != null ==>
        dst[..] == Condensed(constraints.lines,
                             Spliced(Zeros(dst.Length), Offset(sizes, TargetBlock()),
                                     CopiedFromMg(Zeros(sizes[TargetBlock()]), levels, indices, src)))
    {
      forall i | 0 <= i < dst.Length {
        dst[i] := 0.0;
      }
      assert dst[..] == Zeros(dst.Length);
      var b := TargetBlock();
      DoCopyFromMg(dst, Offset(sizes, b), sizes[b], levels, src);
      if constraints != null {
        constraints.CondenseVector(dst);
      }
    }

    /** copy_from_mg into a vector that holds the target block only: it is
        zeroed and the levels are copied into it; with constraints it goes
        through a block vector and is condensed there. */
    method CopyFromMg(dst: array<real>, dofsPerBlock: seq<nat>, levels: seq<nat>, src: seq<seq<real>>)
      requires selectedComponent < |targetComponent| && LevelsFit(levels, indices, src, dst.Length)
      requires constraints != null ==>
        |dofsPerBlock| == MaxOf(targetComponent) + 1 && dofsPerBlock[TargetBlock()] == dst.Length &&
        constraints.Valid() && constraints.closed && Fits(constraints.lines, Total(dofsPerBlock))
      modifies dst
      ensures constraints == null ==> dst[..] == CopiedFromMg(Zeros(dst.Length), levels, indices, src)
      ensures constraints != null ==>
        dst[..] == Condensed(constraints.lines,
                             Spliced(Zeros(Total(dofsPerBlock)), Offset(dofsPerBlock, TargetBlock()),
                                     CopiedFromMg(Zeros(dst.Length), levels, indices, src)))
                   [Offset(dofsPerBlock, TargetBlock())..Offset(dofsPerBlock, TargetBlock()) + dst.Length]
    {
      forall i | 0 <= i < dst.Length {
        dst[i] := 0.0;
      }
      DoCopyFromMg(dst, 0, dst.Length, levels, src);
      assert dst[..] == CopiedFromMg(Zeros(dst.Length), levels, indices, src);
      if constraints != null {
        CondenseInBlock(constraints, dst, dofsPerBlock, TargetBlock());
      }
    }

    /** copy_from_mg_add, either overload: dst (the vector, or the whole
        block vector indexed globally) is replaced by the accumulated level
        lists; no constraints are applied. */
    method CopyFromMgAdd(dst: array<real>, levels: seq<nat>, src: seq<seq<real>>)
      requires LevelsFit(levels, indices, src, dst.Length)
      modifies dst
      ensures dst[..] == AddedTo(Zeros(dst.Length), MeshLevelContributions(levels, indices, src, dst.Length))
    {
      DoCopyFromMgAdd(dst, levels, src);
    }

    /** copy_to_mg on a block vector: the vector handed on to the level
        copy is the target block, entries Offset .. Offset + size - 1. */
    function CopyToMgSource(src: seq<real>, sizes: seq<nat>): (r: seq<real>)
      requires selectedComponent < |targetComponent| && TargetBlock() < |sizes| && |src| == Total(sizes)
      ensures |r| == sizes[TargetBlock()]
      ensures forall i :: 0 <= i < |r| ==> r[i] == src[Offset(sizes, TargetBlock()) + i]
    {
      src[Offset(sizes, TargetBlock())..Offset(sizes, TargetBlock()) + sizes[TargetBlock()]]
    }

    /** memory_consumption: an int above what the base class reports. */
    function MemoryConsumption(base: nat): nat
    {
      SizeOfInt + base
    }
  }

  /** A zero vector of length total with w copied in at lo. */
  method Embedded(w: array<real>, total: nat, lo: nat) returns (tmp: array<real>)
    requires lo + w.Length <= total
    ensures fresh(tmp) && tmp[..] == Spliced(Zeros(total), lo, w[..])
  {
    tmp := new real[total](_ => 0.0);
    forall i | 0 <= i < w.Length {
      tmp[lo + i] := w[i];
    }
    ghost var spliced := Spliced(Zeros(total), lo, w[..]);
    assert tmp[..] == spliced by {
      forall i | 0 <= i < total ensures tmp[i] == spliced[i] {
        if lo <= i < lo + w.Length {
          assert tmp[lo + (i - lo)] == w[i - lo];
        }
      }
    }
  }

  /** dst overwritten by the entries lo .. lo + dst.Length - 1 of tmp. */
  method CopyBack(dst: array<real>, tmp: array<real>, lo: nat)
    requires lo + dst.Length <= tmp.Length && dst != tmp
    modifies dst
    ensures dst[..] == tmp[lo..lo + dst.Length]
  {
    forall i | 0 <= i < dst.Length {
      dst[i] := tmp[lo + i];
    }
    ghost var back := tmp[lo..lo + dst.Length];
    assert dst[..] == back by {
      forall i | 0 <= i < dst.Length ensures dst[i] == back[i] { }
    }
  }

  /** The vector copied into block b of a zero block vector with the given
      block sizes, the block vector condensed, and block b copied back. */
  method CondenseInBlock(c: AffineConstraints, dst: array<real>, sizes: seq<nat>, b: nat)
    requires b < |sizes| && sizes[b] == dst.Length
    requires c.Valid() && c.closed && Fits(c.lines, Total(sizes))
    modifies dst
    ensures dst[..] == Condensed(c.lines, Spliced(Zeros(Total(sizes)), Offset(sizes, b), old(dst[..])))
                       [Offset(sizes, b)..Offset(sizes, b) + dst.Length]
  {
    var lo := Offset(sizes, b);
    var tmp := Embedded(dst, Total(sizes), lo);
    c.CondenseVector(tmp);
    CopyBack(dst, tmp, lo);
  }

  /** sizeof(int) on the platforms deal.II supports. */
  const SizeOfInt: nat := 4

  /** copy_to_mg reads nothing outside the target block: block vectors that
      agree on it hand on the same vector. */
  lemma CopyToMgReadsTargetBlock(t: MgTransferSelect, a: seq<real>, b: seq<real>, sizes: seq<nat>)
    requires t.selectedComponent < |t.targetComponent| && t.TargetBlock() < |sizes|
    requires |a| == Total(sizes) && |b| == Total(sizes)
    requires forall i :: Offset(sizes, t.TargetBlock()) <= i < Offset(sizes, t.TargetBlock()) + sizes[t.TargetBlock()] ==>
      a[i] == b[i]
    ensures t.CopyToMgSource(a, sizes) == t.CopyToMgSource(b, sizes)
  {
  }
}
