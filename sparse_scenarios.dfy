/** Two sparse matrix tests on a 5 × 5 pattern that stores (i, j) when
    i + 2j + 1 is a multiple of three, and the diagonal. The first adds
    whole rows whose zeros fall outside the pattern, reads them back, and
    then adds two rows that do not fit; the second sets every stored value,
    halves it through the iterator and reads it back. */
module SparseScenarios {
  import opened Common
  import opened Sparse

  /** The size of the test matrices. */
  const N: nat := 5

  /** The coupling rule of both tests. */
  predicate Coupled(i: nat, j: nat)
  {
    (i + 2 * j + 1) % 3 == 0
  }

  /** The stored positions: the coupling rule and the diagonal. */
  predicate Stored(i: nat, j: nat)
  {
    i < N && j < N && (Coupled(i, j) || i == j)
  }

  /** The column indices 0 .. n - 1. */
  function Range(n: nat): (r: seq<nat>)
    ensures |r| == n && forall j :: 0 <= j < n ==> r[j] == j
  {
    seq(n, j => j)
  }

  /** A row-wise add over the columns 0 .. n - 1 puts values[j] at (row, j)
      and nothing anywhere else. */
  lemma {:induction false} RowSum(row: nat, values: seq<real>, j: nat, p: Pos)
    requires j <= |values|
    ensures SumAt(RowContributions(row, Range(|values|)[..j], values[..j]), p)
         == if p.0 == row && p.1 < j then values[p.1] else 0.0
    decreases j
  {
    if j > 0 {
      RowSum(row, values, j - 1, p);
      var cols := Range(|values|);
      var a := RowContributions(row, cols[..j], values[..j]);
      var b := RowContributions(row, cols[..j - 1], values[..j - 1]);
      var c := Contribution((row, j - 1), values[j - 1]);
      assert a == b + [c];
      SumAtConcat(b, [c], p);
    } else {
      assert RowContributions(row, Range(|values|)[..0], values[..0]) == [];
    }
  }

  lemma RowSumAll(row: nat, values: seq<real>, p: Pos)
    ensures SumAt(RowContributions(row, Range(|values|), values), p)
         == if p.0 == row && p.1 < |values| then values[p.1] else 0.0
  {
    RowSum(row, values, |values|, p);
    assert Range(|values|)[..|values|] == Range(|values|) && values[..|values|] == values;
  }

  /** The pattern of both tests: every (i, j) the coupling rule selects is
      added, and with withDiagonal also every (i, i); a square pattern
      stores its diagonal anyway, so both give the same positions. */
  method MakePattern(withDiagonal: bool) returns (sp: SparsityPattern)
    ensures fresh(sp) && sp.Valid() && sp.compressed && sp.rows == N && sp.cols == N
    ensures forall q :: q in sp.entries <==> Stored(q.0, q.1)
  {
    sp := new SparsityPattern(N, N);
    for i := 0 to N
      invariant fresh(sp) && sp.Valid() && !sp.compressed && sp.rows == N && sp.cols == N
      invariant forall q :: q in sp.entries <==> q.0 < N && q.1 < N && (q.0 == q.1 || (q.0 < i && Coupled(q.0, q.1)))
    {
      for j := 0 to N
        invariant fresh(sp) && sp.Valid() && !sp.compressed && sp.rows == N && sp.cols == N
        invariant forall q :: q in sp.entries <==>
          q.0 < N && q.1 < N && (q.0 == q.1 || (q.0 < i && Coupled(q.0, q.1)) || (q.0 == i && q.1 < j && Coupled(q.0, q.1)))
      {
        if Coupled(i, j) || (withDiagonal && i == j) {
          var o := sp.Add(i, j);
        }
      }
    }
    sp.Compress();
  }

  /** The value the first test adds at (i, j): i·j/2 + 1/2 where the rule
      couples, zero elsewhere. */
  function TestValue(i: nat, j: nat): real
  {
    if Coupled(i, j) then (i * j) as real * 0.5 + 0.5 else 0.0
  }

  /** Row i of the first test's values. */
  function TestRow(i: nat): (r: seq<real>)
    ensures |r| == N && forall j :: 0 <= j < N ==> r[j] == TestValue(i, j)
  {
    seq(N, j requires 0 <= j < N => TestValue(i, j))
  }

  /** The values i/2 - 3/2 that the first test adds to its first and last
      row. */
  function ShiftedRow(): (r: seq<real>)
    ensures |r| == N && forall i :: 0 <= i < N ==> r[i] == 0.5 * i as real - 1.5
  {
    seq(N, i => 0.5 * i as real - 1.5)
  }

  /** The row loop of the first test: row i gets the values of TestValue
      over all columns; zeros fall outside the pattern and are skipped, so
      every add succeeds. */
  method AddTestRows(m: SparseMatrix)
    requires m.Valid() && m.rows == N && m.cols == N && forall q :: q in m.layout <==> Stored(q.0, q.1)
    requires m.val[..] == Zeros(|m.layout|)
    modifies m.val
    ensures forall k :: 0 <= k < |m.layout| ==> m.val[k] == TestValue(m.layout[k].0, m.layout[k].1)
  {
    for i := 0 to N
      invariant forall k :: 0 <= k < |m.layout| ==>
        m.val[k] == if m.layout[k].0 < i then TestValue(m.layout[k].0, m.layout[k].1) else 0.0
    {
      var values := TestRow(i);
      var cs := RowContributions(i, Range(N), values);
      assert InPattern(m.layout, cs);
      ApplyAddsInPattern(m.layout, m.val[..], cs);
      ghost var before := m.val[..];
      var o := m.AddRow(i, Range(N), values, false, true);
      forall k | 0 <= k < |m.layout|
        ensures m.val[k] == if m.layout[k].0 < i + 1 then TestValue(m.layout[k].0, m.layout[k].1) else 0.0
      {
        RowSumAll(i, values, m.layout[k]);
      }
    }
  }

  /** After the row loop, operator() returns TestValue at every coupled
      position and el() returns zero at every other position. */
  lemma TestRowsReadBack(m: SparseMatrix, i: nat, j: nat)
    requires m.Valid() && forall q :: q in m.layout <==> Stored(q.0, q.1)
    requires forall k :: 0 <= k < |m.layout| ==> m.val[k] == TestValue(m.layout[k].0, m.layout[k].1)
    requires i < N && j < N
    ensures Coupled(i, j) ==> m.Get(i, j) == Ok(TestValue(i, j))
    ensures !Coupled(i, j) ==> m.El(i, j) == 0.0
  {
    if (i, j) in m.layout {
      var k := IndexOf(m.layout, (i, j)).value;
      m.ElAtSlot(k);
    }
  }

  /** ShiftedRow added to the first row stops at (0, 2), added to the last
      row at (4, 0): the first nonzero values outside the pattern. */
  lemma ShiftedRowFails(layout: seq<Pos>, vals: seq<real>)
    requires |vals| == |layout| && forall q :: q in layout <==> Stored(q.0, q.1)
    ensures ApplyAdds(layout, vals, RowContributions(0, Range(N), ShiftedRow())).1 == Fail(InvalidIndex(0, 2))
    ensures ApplyAdds(layout, vals, RowContributions(N - 1, Range(N), ShiftedRow())).1 == Fail(InvalidIndex(N - 1, 0))
  {
    var first := RowContributions(0, Range(N), ShiftedRow());
    assert first[2].pos == (0, 2) && first[2].value != 0.0;
    assert (0, 2) !in layout by {
      assert !Stored(0, 2);
    }
    forall t | 0 <= t < 2 ensures first[t].value == 0.0 || first[t].pos in layout {
      if t == 0 {
        assert Stored(0, 0);
      } else {
        assert first[t].pos == (0, 1) && Stored(0, 1);
      }
    }
    ApplyAddsFirstFailure(layout, vals, first, 2);
    var last := RowContributions(N - 1, Range(N), ShiftedRow());
    assert last[0].pos == (N - 1, 0) && last[0].value != 0.0;
    assert (N - 1, 0) !in layout by {
      assert !Stored(N - 1, 0);
    }
    ApplyAddsFirstFailure(layout, vals, last, 0);
  }

  /** The first part of sparse_matrix_add_entries_01: the rows are added
      to a zero matrix over the pattern built without the diagonal, and
      read back. */
  method FillTestRows() returns (m: SparseMatrix)
    ensures fresh(m.val) && m.Valid() && m.rows == N && m.cols == N && forall q :: q in m.layout <==> Stored(q.0, q.1)
    ensures forall i: nat, j: nat :: i < N && j < N && Coupled(i, j) ==> m.Get(i, j) == Ok(TestValue(i, j))
    ensures forall i: nat, j: nat :: i < N && j < N && !Coupled(i, j) ==> m.El(i, j) == 0.0
  {
    var sp := MakePattern(false);
    m := new SparseMatrix(sp);
    AddTestRows(m);
    forall i: nat, j: nat | i < N && j < N
      ensures Coupled(i, j) ==> m.Get(i, j) == Ok(TestValue(i, j))
      ensures !Coupled(i, j) ==> m.El(i, j) == 0.0
    {
      TestRowsReadBack(m, i, j);
    }
  }

  /** sparse_matrix_add_entries_01: after the rows are filled and read back,
      adding ShiftedRow to the first and to the last row fails at the first
      column outside the pattern, (0, 2) and (4, 0). */
  method AddEntriesTest() returns (m: SparseMatrix, first: Outcome, last: Outcome)
    ensures first == Fail(InvalidIndex(0, 2))
    ensures last == Fail(InvalidIndex(N - 1, 0))
  {
    m := FillTestRows();
    ShiftedRowFails(m.layout, m.val[..]);
    first := m.AddRow(0, Range(N), ShiftedRow(), false, true);
    ShiftedRowFails(m.layout, m.val[..]);
    last := m.AddRow(N - 1, Range(N), ShiftedRow(), false, true);
  }

  /** The product i·j that the second test sets at (i, j). */
  function Product(p: Pos): real
  {
    (p.0 * p.1) as real
  }

  /** Row i of the set loop: set(i, j, i·j) at every stored (i, j). */
  method SetProductRow(m: SparseMatrix, i: nat)
    requires m.Valid() && forall q :: q in m.layout <==> Stored(q.0, q.1)
    modifies m.val
    ensures forall k :: 0 <= k < |m.layout| ==>
      m.val[k] == if m.layout[k].0 == i then Product(m.layout[k]) else old(m.val[k])
  {
    for j := 0 to N
      invariant forall k :: 0 <= k < |m.layout| ==>
        m.val[k] == if m.layout[k].0 == i && m.layout[k].1 < j then Product(m.layout[k]) else old(m.val[k])
    {
      if Coupled(i, j) || i == j {
        var o := m.Set(i, j, Product((i, j)));
      }
    }
  }

  /** The set loop of the second test: set(i, j, i·j) at every stored
      position. */
  method SetProducts(m: SparseMatrix)
    requires m.Valid() && m.rows == N && m.cols == N && forall q :: q in m.layout <==> Stored(q.0, q.1)
    requires m.val[..] == Zeros(|m.layout|)
    modifies m.val
    ensures forall k :: 0 <= k < |m.layout| ==> m.val[k] == Product(m.layout[k])
  {
    for i := 0 to N
      invariant forall k :: 0 <= k < |m.layout| ==>
        m.val[k] == if m.layout[k].0 < i then Product(m.layout[k]) else 0.0
    {
      SetProductRow(m, i);
    }
  }

  /** sparse_matrix_iterator_08: after the set loop and the iterator loop
      that halves every stored value, el(i, j) is i·j/2 at every stored
      position; the pattern is the one the matrix was built on. */
  method IteratorTest() returns (sp: SparsityPattern, m: SparseMatrix)
    ensures sp.Valid() && m.Valid() && m.layout == sp.layout
    ensures forall i: nat, j: nat :: Stored(i, j) ==> m.El(i, j) == Product((i, j)) / 2.0
  {
    sp := MakePattern(true);
    m := new SparseMatrix(sp);
    SetProducts(m);
    m.HalveEntries();
    HalvedProducts(m);
  }

  /** Every stored value halved: el(i, j) reads i·j/2 at each stored (i, j). */
  lemma HalvedProducts(m: SparseMatrix)
    requires m.Valid() && forall q :: q in m.layout <==> Stored(q.0, q.1)
    requires forall k :: 0 <= k < |m.layout| ==> m.val[k] == Product(m.layout[k]) / 2.0
    ensures forall i: nat, j: nat :: Stored(i, j) ==> m.El(i, j) == Product((i, j)) / 2.0
  {
    forall i: nat, j: nat | Stored(i, j) ensures m.El(i, j) == Product((i, j)) / 2.0 {
      var k := IndexOf(m.layout, (i, j)).value;
      m.ElAtSlot(k);
    }
  }
}
