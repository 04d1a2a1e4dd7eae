/** Error values, result wrappers and additive contributions shared by the
    constraint engine, the sparse matrix and the multigrid transfer. */
module Common {

  /** The error conditions the library raises through its assertions and
      exceptions, one constructor per kind. */
  datatype Error =
    | MatrixIsClosed                        // a closed constraint set was modified
    | LineNotPresent(dof: nat)              // an entry or offset for a dof without a line
    | SelfConstraint(dof: nat)              // a dof constrained to itself
    | CyclicConstraint(dofs: set<nat>)      // close() could not break the chains
    | ConflictingConstraint(dofs: set<nat>) // merge under no_conflicts_allowed
    | InvalidIndex(row: nat, col: nat)      // a matrix entry outside the sparsity pattern
    | IncompatibleSparsityPattern(row: nat, col: nat)
    | MatrixIsCompressed                    // a compressed sparsity pattern was modified
    | IndexOutOfRange(index: nat)
    | InternalError                         // an `Assert(false, ExcInternalError())` reached

  datatype Option<T> = None | Some(value: T)

  datatype Result<T> = Ok(value: T) | Err(error: Error)

  datatype Outcome = Pass | Fail(error: Error)

  /** `value` to be added at position `pos`: a matrix entry (pos is a pair) or a
      vector entry (pos is an index). */
  datatype Contribution<P> = Contribution(pos: P, value: real)

  /** The total that a list of contributions adds at position p. */
  function SumAt<P(==)>(cs: seq<Contribution<P>>, p: P): real
  {
    if cs == [] then 0.0
    else (if cs[0].pos == p then cs[0].value else 0.0) + SumAt(cs[1..], p)
  }

  lemma {:induction false} SumAtConcat<P>(a: seq<Contribution<P>>, b: seq<Contribution<P>>, p: P)
    ensures SumAt(a + b, p) == SumAt(a, p) + SumAt(b, p)
  {
    if a != [] {
      assert (a + b)[1..] == a[1..] + b;
      SumAtConcat(a[1..], b, p);
    } else {
      assert a + b == b;
    }
  }

  /** A position no contribution names receives nothing. */
  lemma {:induction false} SumAtAbsent<P>(cs: seq<Contribution<P>>, p: P)
    requires forall i :: 0 <= i < |cs| ==> cs[i].pos != p
    ensures SumAt(cs, p) == 0.0
  {
    if cs != [] {
      SumAtAbsent(cs[1..], p);
    }
  }

  predicate Distinct<T(==)>(s: seq<T>)
  {
    forall i, j :: 0 <= i < j < |s| ==> s[i] != s[j]
  }

  lemma DistinctConcat<T>(a: seq<T>, b: seq<T>)
    requires Distinct(a) && Distinct(b)
    requires forall x :: x in a ==> x !in b
    ensures Distinct(a + b)
  {
    forall i, j | 0 <= i < j < |a + b| ensures (a + b)[i] != (a + b)[j] {
      if i < |a| && j >= |a| {
        assert (a + b)[i] in a && (a + b)[j] == b[j - |a|];
      }
    }
  }

  function Zeros(n: nat): (r: seq<real>)
    ensures |r| == n && forall i :: 0 <= i < n ==> r[i] == 0.0
  {
    seq(n, _ => 0.0)
  }
}
