/** IndexSet: a set of indices below a fixed size, and the subset test of
    the index set test, which removes one element after another from a set
    and compares it with an untouched copy. The set is an object updated in
    place; a copy is a new object. */
module IndexSets {

  /** The members of E below i. */
  function Below(E: set<nat>, i: nat): (r: set<nat>)
    ensures forall x :: x in r <==> x in E && x < i
  {
    set x | x in E && x < i
  }

  lemma BelowStep(E: set<nat>, i: nat)
    ensures i in E ==> |Below(E, i + 1)| == |Below(E, i)| + 1
    ensures i !in E ==> |Below(E, i + 1)| == |Below(E, i)|
  {
    if i in E {
      assert Below(E, i + 1) == Below(E, i) + {i};
    } else {
      assert Below(E, i + 1) == Below(E, i);
    }
  }

  lemma BelowAll(E: set<nat>, n: nat)
    requires forall x :: x in E ==> x < n
    ensures Below(E, n) == E
  {
  }

  /** At most i members lie below i. */
  lemma {:induction false} BelowBound(E: set<nat>, i: nat)
    ensures |Below(E, i)| <= i
  {
    if i > 0 {
      BelowBound(E, i - 1);
      BelowStep(E, i - 1);
    }
  }

  /** A subset has at most as many elements, and the same number only when
      it is the whole set. */
  lemma SubsetCard(A: set<nat>, B: set<nat>)
    requires A <= B
    ensures |A| <= |B|
    ensures |A| == |B| ==> A == B
  {
    assert B == A + (B - A);
    if |A| == |B| {
      assert |B - A| == 0;
    }
  }

  /** Removing a member leaves a strict subset with one element fewer. */
  lemma RemoveMember(E: set<nat>, x: nat)
    requires x in E
    ensures E - {x} <= E && !(E <= E - {x}) && |E - {x}| == |E| - 1
  {
  }

  class IndexSet {
    /** size(): the indices range over 0 .. size - 1. */
    var size: nat
    var elements: set<nat>

    ghost predicate Valid()
      reads this
    {
      forall x :: x in elements ==> x < size
    }

    /** IndexSet(n): empty, of size n. */
    constructor (n: nat)
      ensures Valid() && size == n && elements == {}
    {
      size := n;
      elements := {};
    }

    /** The copy constructor: a new set with the same size and elements. */
    method Copy() returns (c: IndexSet)
      requires Valid()
      ensures fresh(c) && c.Valid() && c.size == size && c.elements == elements
    {
      c := new IndexSet(size);
      c.elements := elements;
    }

    /** add_index(i): i becomes a member. */
    method AddIndex(i: nat)
      requires Valid() && i < size
      modifies this
      ensures Valid() && size == old(size) && elements == old(elements) + {i}
    {
      elements := elements + {i};
    }

    /** compress(): the storage is rearranged, the contents stay. */
    method Compress()
      requires Valid()
      modifies this
      ensures Valid() && size == old(size) && elements == old(elements)
    {
    }

    /** n_elements() */
    function NElements(): nat
      reads this
    {
      |elements|
    }

    /** is_empty() */
    predicate IsEmpty()
      reads this
      ensures IsEmpty() <==> NElements() == 0
    {
      elements == {}
    }

    /** is_subset_of(other), for two sets of the same size: every member of
        this set is one of other. A subset has at most as many elements, and
        one with as many is the same set. */
    predicate IsSubsetOf(other: IndexSet)
      reads this, other
      requires other.size == size
      ensures IsSubsetOf(other) ==> NElements() <= other.NElements()
      ensures IsSubsetOf(other) && NElements() == other.NElements() ==> elements == other.elements
    {
      if elements <= other.elements then
        SubsetCard(elements, other.elements);
        true
      else false
    }

    /** nth_index_in_set(k): the member with exactly k members below it. */
    method NthIndexInSet(k: nat) returns (r: nat)
      requires Valid() && k < NElements()
      ensures r in elements && |Below(elements, r)| == k
    {
      var count := 0;
      var i := 0;
      while i < size
        invariant i <= size && count == |Below(elements, i)| && count <= k
      {
        BelowStep(elements, i);
        if i in elements {
          if count == k {
            return i;
          }
          count := count + 1;
        }
        i := i + 1;
      }
      BelowAll(elements, size);
      assert false;
    }

    /** subtract_set(other), for a set of the same size: the members of
        other are removed. */
    method SubtractSet(other: IndexSet)
      requires Valid() && other.size == size
      modifies this
      ensures Valid() && size == old(size) && elements == old(elements) - old(other.elements)
    {
      elements := elements - other.elements;
    }
  }

  /** n_elements() never exceeds size(). */
  lemma NElementsAtMostSize(s: IndexSet)
    requires s.Valid()
    ensures s.NElements() <= s.size
  {
    BelowBound(s.elements, s.size);
    BelowAll(s.elements, s.size);
  }

  /** The index set test: a set of size n gets the indices of adds, is
      compressed and compared with itself; a copy is kept, and as long as
      the set is not empty, its member of rank picks[step] is put into a
      fresh set of size n and subtracted. After every subtraction the set is
      a subset of the copy and the copy is not a subset of the set. The
      random numbers of the test are the inputs adds and picks; picks[step]
      lies below the number of elements left at that step. */
  method SubsetTest(n: nat, adds: seq<nat>, picks: seq<nat>) returns (s: IndexSet, original: IndexSet, steps: nat)
    requires forall j :: 0 <= j < |adds| ==> adds[j] < n
    requires |picks| == |set j | 0 <= j < |adds| :: adds[j]|
    requires forall t :: 0 <= t < |picks| ==> picks[t] < |picks| - t
    ensures fresh(s) && fresh(original) && s != original
    ensures s.IsEmpty() && original.elements == set j | 0 <= j < |adds| :: adds[j]
    ensures steps == original.NElements()
  {
    s := new IndexSet(n);
    for j := 0 to |adds|
      invariant fresh(s) && s.Valid() && s.size == n && s.elements == set e | 0 <= e < j :: adds[e]
    {
      s.AddIndex(adds[j]);
      assert (set e | 0 <= e < j + 1 :: adds[e]) == (set e | 0 <= e < j :: adds[e]) + {adds[j]};
    }
    s.Compress();
    assert s.IsSubsetOf(s);
    original := s.Copy();
    steps := 0;
    while !s.IsEmpty()
      invariant fresh(s) && fresh(original) && s != original && s.Valid() && s.size == n && original.size == n
      invariant original.elements == set j | 0 <= j < |adds| :: adds[j]
      invariant s.elements <= original.elements
      invariant steps + s.NElements() == original.NElements()
      decreases s.NElements()
    {
      ghost var before := s.elements;
      var toRemove := new IndexSet(n);
      var x := s.NthIndexInSet(picks[steps]);
      toRemove.AddIndex(x);
      toRemove.Compress();
      s.SubtractSet(toRemove);
      RemoveMember(before, x);
      assert s.IsSubsetOf(original);
      assert !original.IsSubsetOf(s);
      steps := steps + 1;
    }
  }
}
