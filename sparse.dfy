/** The fixed-structure sparse matrix the constraint engine writes into: a
    sparsity pattern (the set of stored positions, frozen by compress()) and
    a matrix holding one value per stored position, in the pattern's order. */
module Sparse {
  import opened Common

  /** A (row, column) position. */
  type Pos = (nat, nat)

  // ---------------------------------------------------------------------
  // The storage order of a compressed pattern: row by row, and within a
  // row of a square pattern the diagonal first, then the other columns in
  // increasing order.

  function ColsFrom(E: set<Pos>, i: nat, j: nat, cols: nat, square: bool): (r: seq<Pos>)
    ensures Distinct(r)
    ensures forall q :: q in r <==> q in E && q.0 == i && j <= q.1 < cols && !(square && q.1 == i)
    decreases cols - j
  {
    if j >= cols then []
    else
      var rest := ColsFrom(E, i, j + 1, cols, square);
      if (i, j) in E && !(square && j == i) then
        DistinctConcat([(i, j)], rest);
        [(i, j)] + rest
      else rest
  }

  function RowLayout(E: set<Pos>, i: nat, cols: nat, square: bool): (r: seq<Pos>)
    ensures Distinct(r)
    ensures forall q :: q in r <==> q in E && q.0 == i && q.1 < cols
    ensures square && (i, i) in E && i < cols ==> r[0] == (i, i)
  {
    var diag := if square && (i, i) in E && i < cols then [(i, i)] else [];
    var rest := ColsFrom(E, i, 0, cols, square);
    DistinctConcat(diag, rest);
    diag + rest
  }

  function RowsFrom(E: set<Pos>, i: nat, rows: nat, cols: nat, square: bool): (r: seq<Pos>)
    ensures Distinct(r)
    ensures forall q :: q in r <==> q in E && i <= q.0 < rows && q.1 < cols
    ensures forall a, b :: 0 <= a < b < |r| ==> r[a].0 <= r[b].0
    decreases rows - i
  {
    if i >= rows then []
    else
      var row := RowLayout(E, i, cols, square);
      var rest := RowsFrom(E, i + 1, rows, cols, square);
      DistinctConcat(row, rest);
      assert forall a, b :: 0 <= a < b < |row + rest| ==> (row + rest)[a].0 <= (row + rest)[b].0 by {
        forall a, b | 0 <= a < b < |row + rest| ensures (row + rest)[a].0 <= (row + rest)[b].0 {
          assert (row + rest)[a] in row + rest && (row + rest)[b] in row + rest;
          if a < |row| { assert row[a] in row; }
          if b < |row| { assert row[b] in row; } else { assert rest[b - |row|] in rest; }
        }
      }
      row + rest
  }

  /** The order in which a compressed pattern stores, and an iterator visits,
      the positions of E: every position of E inside the matrix appears
      exactly once, nothing else does, and rows come in increasing order. */
  function Layout(E: set<Pos>, rows: nat, cols: nat): (r: seq<Pos>)
    ensures Distinct(r)
    ensures forall q :: q in r <==> q in E && q.0 < rows && q.1 < cols
    ensures forall i, j :: 0 <= i < j < |r| ==> r[i].0 <= r[j].0
  {
    RowsFrom(E, 0, rows, cols, rows == cols)
  }

  /** The storage slot of a position, if it is stored. */
  function IndexOf(layout: seq<Pos>, p: Pos): (r: Option<nat>)
    ensures r.Some? ==> r.value < |layout| && layout[r.value] == p
    ensures r.None? <==> p !in layout
  {
    if layout == [] then None
    else if layout[0] == p then Some(0)
    else match IndexOf(layout[1..], p)
      case None => None
      case Some(k) => Some(k + 1)
  }

  /** In a layout without repetitions the slot of layout[k] is k. */
  lemma {:induction false} IndexOfDistinct(layout: seq<Pos>, k: nat)
    requires Distinct(layout) && k < |layout|
    ensures IndexOf(layout, layout[k]) == Some(k)
  {
    if k > 0 {
      IndexOfDistinct(layout[1..], k - 1);
    }
  }

  // ---------------------------------------------------------------------
  // Adding a list of contributions to the stored values. A zero value is
  // skipped wherever it points; a nonzero value outside the pattern stops
  // the additions with InvalidIndex, the earlier ones having been made.

  function ApplyAdds(layout: seq<Pos>, vals: seq<real>, cs: seq<Contribution<Pos>>): (r: (seq<real>, Outcome))
    requires |vals| == |layout|
    ensures |r.0| == |vals|
    decreases |cs|
  {
    if cs == [] then (vals, Pass)
    else if cs[0].value == 0.0 then ApplyAdds(layout, vals, cs[1..])
    else match IndexOf(layout, cs[0].pos)
      case None => (vals, Fail(InvalidIndex(cs[0].pos.0, cs[0].pos.1)))
      case Some(k) => ApplyAdds(layout, vals[k := vals[k] + cs[0].value], cs[1..])
  }

  /** Every nonzero contribution lands on a stored position. */
  predicate InPattern(layout: seq<Pos>, cs: seq<Contribution<Pos>>)
  {
    forall i :: 0 <= i < |cs| && cs[i].value != 0.0 ==> cs[i].pos in layout
  }

  lemma InPatternTail(layout: seq<Pos>, cs: seq<Contribution<Pos>>)
    requires cs != [] && InPattern(layout, cs)
    ensures InPattern(layout, cs[1..])
  {
    forall i | 0 <= i < |cs[1..]| && cs[1..][i].value != 0.0 ensures cs[1..][i].pos in layout {
      assert cs[1..][i] == cs[i + 1];
    }
  }

  /** Contributions that all land in the pattern (or are zero) succeed, and
      every stored value grows by exactly what was added at its position. */
  lemma {:induction false} ApplyAddsInPattern(layout: seq<Pos>, vals: seq<real>, cs: seq<Contribution<Pos>>)
    requires |vals| == |layout| && Distinct(layout)
    requires InPattern(layout, cs)
    ensures ApplyAdds(layout, vals, cs).1 == Pass
    ensures forall k :: 0 <= k < |layout| ==>
      ApplyAdds(layout, vals, cs).0[k] == vals[k] + SumAt(cs, layout[k])
    decreases |cs|
  {
    if cs != [] {
      var c := cs[0];
      InPatternTail(layout, cs);
      if c.value == 0.0 {
        ApplyAddsInPattern(layout, vals, cs[1..]);
      } else {
        var kk := IndexOf(layout, c.pos).value;
        var vals' := vals[kk := vals[kk] + c.value];
        ApplyAddsInPattern(layout, vals', cs[1..]);
        forall k | 0 <= k < |layout|
          ensures ApplyAdds(layout, vals, cs).0[k] == vals[k] + SumAt(cs, layout[k])
        {
          if k != kk {
            assert layout[k] != layout[kk];
          }
        }
      }
    }
  }

  /** The additions fail exactly when some nonzero value lies outside the
      pattern. */
  lemma {:induction false} ApplyAddsFails(layout: seq<Pos>, vals: seq<real>, cs: seq<Contribution<Pos>>)
    requires |vals| == |layout|
    ensures ApplyAdds(layout, vals, cs).1.Fail? <==>
      exists i :: 0 <= i < |cs| && cs[i].value != 0.0 && cs[i].pos !in layout
    decreases |cs|
  {
    if cs != [] {
      var c := cs[0];
      var vals' := if c.value == 0.0 || c.pos !in layout then vals
                   else vals[IndexOf(layout, c.pos).value := vals[IndexOf(layout, c.pos).value] + c.value];
      ApplyAddsFails(layout, vals', cs[1..]);
      if exists i :: 0 <= i < |cs[1..]| && cs[1..][i].value != 0.0 && cs[1..][i].pos !in layout {
        var i :| 0 <= i < |cs[1..]| && cs[1..][i].value != 0.0 && cs[1..][i].pos !in layout;
        assert cs[i + 1] == cs[1..][i];
      }
      if exists i :: 0 <= i < |cs| && cs[i].value != 0.0 && cs[i].pos !in layout {
        var i :| 0 <= i < |cs| && cs[i].value != 0.0 && cs[i].pos !in layout;
        if i > 0 {
          assert cs[1..][i - 1] == cs[i];
        }
      }
    }
  }

  /** The error names the first nonzero contribution outside the pattern. */
  lemma {:induction false} ApplyAddsFirstFailure(layout: seq<Pos>, vals: seq<real>, cs: seq<Contribution<Pos>>, i: nat)
    requires |vals| == |layout| && i < |cs| && cs[i].value != 0.0 && cs[i].pos !in layout
    requires forall t :: 0 <= t < i ==> cs[t].value == 0.0 || cs[t].pos in layout
    ensures ApplyAdds(layout, vals, cs).1 == Fail(InvalidIndex(cs[i].pos.0, cs[i].pos.1))
    decreases i
  {
    if i > 0 {
      var c := cs[0];
      var vals' := if c.value == 0.0 then vals
                   else vals[IndexOf(layout, c.pos).value := vals[IndexOf(layout, c.pos).value] + c.value];
      forall t | 0 <= t < i - 1 ensures cs[1..][t].value == 0.0 || cs[1..][t].pos in layout {
        assert cs[1..][t] == cs[t + 1];
      }
      ApplyAddsFirstFailure(layout, vals', cs[1..], i - 1);
    }
  }

  /** The contributions of a row-wise add(row, cols, values). */
  function RowContributions(row: nat, cols: seq<nat>, values: seq<real>): (r: seq<Contribution<Pos>>)
    requires |cols| == |values|
    ensures |r| == |cols|
    ensures forall k :: 0 <= k < |cols| ==> r[k] == Contribution((row, cols[k]), values[k])
  {
    seq(|cols|, k requires 0 <= k < |cols| => Contribution((row, cols[k]), values[k]))
  }

  // ---------------------------------------------------------------------

  /** A sparsity pattern: positions are added until compress() freezes them
      into a layout. A square pattern always stores its diagonal. */
  class SparsityPattern {
    var rows: nat
    var cols: nat
    var entries: set<Pos>
    var compressed: bool
    var layout: seq<Pos>

    ghost predicate Valid()
      reads this
    {
      (forall q :: q in entries ==> q.0 < rows && q.1 < cols) &&
      (rows == cols ==> forall i :: 0 <= i < rows ==> (i, i) in entries) &&
      (compressed ==> layout == Layout(entries, rows, cols))
    }

    constructor (m: nat, n: nat)
      ensures Valid() && !compressed
      ensures rows == m && cols == n
      ensures entries == if m == n then set i | 0 <= i < m :: (i, i) else {}
    {
      rows, cols := m, n;
      entries := if m == n then set i | 0 <= i < m :: (i, i) else {};
      compressed := false;
      layout := [];
    }

    /** add(i, j): only before compress() and inside the bounds. */
    method Add(i: nat, j: nat) returns (o: Outcome)
      requires Valid()
      modifies this
      ensures Valid()
      ensures rows == old(rows) && cols == old(cols) && compressed == old(compressed) && layout == old(layout)
      ensures old(compressed) ==> o == Fail(MatrixIsCompressed) && entries == old(entries)
      ensures !old(compressed) && i >= rows ==> o == Fail(IndexOutOfRange(i)) && entries == old(entries)
      ensures !old(compressed) && i < rows && j >= cols ==> o == Fail(IndexOutOfRange(j)) && entries == old(entries)
      ensures !old(compressed) && i < rows && j < cols ==> o == Pass && entries == old(entries) + {(i, j)}
    {
      if compressed {
        return Fail(MatrixIsCompressed);
      }
      if i >= rows {
        return Fail(IndexOutOfRange(i));
      }
      if j >= cols {
        return Fail(IndexOutOfRange(j));
      }
      entries := entries + {(i, j)};
      o := Pass;
    }

    /** compress(): freezes the positions into their storage order; a second
        call changes nothing. */
    method Compress()
      requires Valid()
      modifies this
      ensures Valid() && compressed
      ensures rows == old(rows) && cols == old(cols) && entries == old(entries)
      ensures Distinct(layout) && forall q :: q in layout <==> q in entries
    {
      if !compressed {
        layout := Layout(entries, rows, cols);
        compressed := true;
      }
    }
  }

  /** A matrix over a compressed pattern: one value per stored position. */
  class SparseMatrix {
    const rows: nat
    const cols: nat
    const layout: seq<Pos>
    const val: array<real>

    ghost predicate Valid()
      reads this
    {
      val.Length == |layout| && Distinct(layout) &&
      forall q :: q in layout ==> q.0 < rows && q.1 < cols
    }

    /** A zero matrix over the pattern. */
    constructor (sp: SparsityPattern)
      requires sp.Valid() && sp.compressed
      ensures Valid() && fresh(val)
      ensures rows == sp.rows && cols == sp.cols && layout == sp.layout
      ensures forall q :: q in layout <==> q in sp.entries
      ensures val[..] == Zeros(|layout|)
    {
      rows, cols, layout := sp.rows, sp.cols, sp.layout;
      val := new real[|sp.layout|](_ => 0.0);
    }

    /** el(i, j): the stored value, or 0 at a position the pattern lacks. */
    function El(i: nat, j: nat): (r: real)
      reads this, val
      requires Valid()
      ensures (i, j) !in layout ==> r == 0.0
    {
      match IndexOf(layout, (i, j))
      case Some(k) => val[k]
      case None => 0.0
    }

    /** operator()(i, j): the stored value; a position outside the pattern is
        an error. */
    function Get(i: nat, j: nat): (r: Result<real>)
      reads this, val
      requires Valid()
      ensures r.Err? <==> (i, j) !in layout
      ensures r.Err? ==> r.error == InvalidIndex(i, j)
      ensures r.Ok? ==> r.value == El(i, j)
    {
      match IndexOf(layout, (i, j))
      case Some(k) => Ok(val[k])
      case None => Err(InvalidIndex(i, j))
    }

    /** The value at storage slot k is El at the position of that slot. */
    lemma ElAtSlot(k: nat)
      requires Valid() && k < |layout|
      ensures El(layout[k].0, layout[k].1) == val[k]
    {
      IndexOfDistinct(layout, k);
    }

    /** add(i, j, v): zero is skipped anywhere; a nonzero value outside the
        pattern is an error and changes nothing. */
    method Add(i: nat, j: nat, v: real) returns (o: Outcome)
      requires Valid()
      modifies val
      ensures v == 0.0 ==> o == Pass && val[..] == old(val[..])
      ensures v != 0.0 && (i, j) !in layout ==> o == Fail(InvalidIndex(i, j)) && val[..] == old(val[..])
      ensures v != 0.0 && (i, j) in layout ==>
        o == Pass &&
        forall k :: 0 <= k < |layout| ==> val[k] == old(val[k]) + (if layout[k] == (i, j) then v else 0.0)
    {
      if v == 0.0 {
        return Pass;
      }
      match IndexOf(layout, (i, j))
      case None =>
        o := Fail(InvalidIndex(i, j));
      case Some(k) =>
        val[k] := val[k] + v;
        o := Pass;
        forall t | 0 <= t < |layout| && t != k ensures layout[t] != (i, j) {
          assert layout[t] != layout[k];
        }
    }

    /** Adds a list of contributions one after the other. */
    method AddAll(cs: seq<Contribution<Pos>>) returns (o: Outcome)
      requires Valid()
      modifies val
      ensures (val[..], o) == ApplyAdds(layout, old(val[..]), cs)
    {
      var n := 0;
      while n < |cs|
        invariant 0 <= n <= |cs|
        invariant ApplyAdds(layout, old(val[..]), cs) == ApplyAdds(layout, val[..], cs[n..])
      {
        var c := cs[n];
        assert cs[n..][1..] == cs[n + 1..];
        if c.value != 0.0 {
          match IndexOf(layout, c.pos)
          case None =>
            return Fail(InvalidIndex(c.pos.0, c.pos.1));
          case Some(k) =>
            val[k] := val[k] + c.value;
        }
        n := n + 1;
      }
      o := Pass;
    }

    /** add(row, n, cols, values, elide_zero_values, sorted): the row-wise
        add. Zero values are skipped whether or not they are elided, so the
        two flags do not change the outcome. */
    method AddRow(row: nat, cols: seq<nat>, values: seq<real>, elideZeros: bool, sorted: bool)
      returns (o: Outcome)
      requires Valid() && |cols| == |values|
      modifies val
      ensures (val[..], o) == ApplyAdds(layout, old(val[..]), RowContributions(row, cols, values))
    {
      o := AddAll(RowContributions(row, cols, values));
    }

    /** set(i, j, v): overwrites a stored value; outside the pattern only a
        zero is accepted, and ignored. */
    method Set(i: nat, j: nat, v: real) returns (o: Outcome)
      requires Valid()
      modifies val
      ensures (i, j) in layout ==>
        o == Pass &&
        forall k :: 0 <= k < |layout| ==> val[k] == (if layout[k] == (i, j) then v else old(val[k]))
      ensures (i, j) !in layout ==>
        val[..] == old(val[..]) && o == (if v == 0.0 then Pass else Fail(InvalidIndex(i, j)))
    {
      match IndexOf(layout, (i, j))
      case None =>
        o := if v == 0.0 then Pass else Fail(InvalidIndex(i, j));
      case Some(k) =>
        val[k] := v;
        o := Pass;
        forall t | 0 <= t < |layout| && t != k ensures layout[t] != (i, j) {
          assert layout[t] != layout[k];
        }
    }

    /** The loop `for (it = begin(); it != end(); ++it) it->value() /= 2`:
        the iterator walks the storage slots in order, so every stored value
        is halved exactly once and the pattern is untouched. */
    method HalveEntries()
      requires Valid()
      modifies val
      ensures forall k :: 0 <= k < |layout| ==> val[k] == old(val[k]) / 2.0
    {
      var k := 0;
      while k < val.Length
        invariant 0 <= k <= val.Length
        invariant forall t :: 0 <= t < k ==> val[t] == old(val[t]) / 2.0
        invariant forall t :: k <= t < val.Length ==> val[t] == old(val[t])
      {
        val[k] := val[k] / 2.0;
        k := k + 1;
      }
    }
  }
}
