/** Small value types shared by the trie and the pattern engine. */
module Wrappers {

  /** A value that may be absent (Python's `None`). */
  datatype Option<+T> = None | Some(value: T)

  /** The outcome of an operation that may raise: `Err` stands for the exception. */
  datatype Result<+T, +E> = Ok(value: T) | Err(error: E)

  /** No element of `s` occurs twice. */
  predicate Distinct<T(==)>(s: seq<T>)
  {
    forall i, j :: 0 <= i < j < |s| ==> s[i] != s[j]
  }

  /** The elements of `s`, forgetting order and multiplicity. */
  function Elems<T>(s: seq<T>): set<T>
  {
    set x | x in s
  }

  /** Joining two duplicate-free sequences with no common element keeps them duplicate-free. */
  lemma DistinctConcat<T>(a: seq<T>, b: seq<T>)
    requires Distinct(a) && Distinct(b) && Elems(a) !! Elems(b)
    ensures Distinct(a + b) && Elems(a + b) == Elems(a) + Elems(b)
  {
    forall i, j | 0 <= i < j < |a + b| ensures (a + b)[i] != (a + b)[j] {
      if i < |a| && |a| <= j {
        assert (a + b)[i] in Elems(a) && (a + b)[j] in Elems(b);
      }
    }
  }

  /** The size of a union of two disjoint sets is the sum of their sizes. */
  lemma CardDisjointUnion<T>(a: set<T>, b: set<T>)
    requires a !! b
    ensures |a + b| == |a| + |b|
  {
    assert a * b == {};
  }

  /** Moving `x` from the pending part `todo` of `all` to the finished part `done`. */
  lemma MoveOne<T>(all: set<T>, done: set<T>, todo: set<T>, x: T)
    requires todo !! done && todo + done == all && x in todo
    ensures todo - {x} !! done + {x} && (todo - {x}) + (done + {x}) == all
    ensures |todo - {x}| < |todo| && x !in done
  {
  }
}
