/** graphs/set.go: a container that holds each element once. */
module GoSet {
  import opened GoStrings

  class Set<T(==)> {
    /** The members; a Go `map[interface{}]struct{}` keyed by them. */
    var elems: set<T>

    /** NewSet: an empty set. */
    constructor ()
      ensures elems == {}
    {
      elems := {};
    }

    /** Add inserts `e` and reports whether it was absent before. */
    method Add(e: T) returns (added: bool)
      modifies this
      ensures added <==> e !in old(elems)
      ensures elems == old(elems) + {e}
      ensures !added ==> elems == old(elems)
    {
      added := e !in elems;
      elems := elems + {e};
    }

    /** Len: the number of distinct members. */
    function Len(): (n: nat)
      reads this
      ensures n == |elems|
    {
      |elems|
    }

    /** Iter: the members one by one, in no particular order, each once. */
    method Iter() returns (xs: seq<T>)
      ensures Elems(xs) == elems
      ensures NoDuplicates(xs)
      ensures |xs| == |elems|
    {
      xs := [];
      var rest := elems;
      while rest != {}
        invariant Elems(xs) + rest == elems
        invariant Elems(xs) !! rest
        invariant NoDuplicates(xs)
        decreases |rest|
      {
        var x :| x in rest;
        xs := xs + [x];
        rest := rest - {x};
      }
      DistinctLength(xs);
    }
  }
}
