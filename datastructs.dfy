/** internal/datastructs/datastructs.go: small conversions between Go containers. */
module Datastructs {
  import opened Wrappers
  import opened GoStrings

  /** MapHasKey on a `map[string]struct{}` that may be nil (`None`). */
  function MapHasKey(m: Option<set<string>>, k: string): (r: bool)
    ensures r <==> m.Some? && k in m.value
  {
    if m.None? then false else k in m.value
  }

  /** Asking a nil map is the same as asking an empty one. */
  lemma NilMapHasNoKey(k: string)
    ensures !MapHasKey(None, k) && MapHasKey(None, k) == MapHasKey(Some({}), k)
  {
  }

  /** SliceToSet: a fresh (never nil) set holding the slice's elements; duplicates collapse. */
  method SliceToSet(sl: seq<string>) returns (res: set<string>)
    ensures res == Elems(sl)
    ensures |res| <= |sl|
    ensures sl == [] ==> res == {}
  {
    res := {};
    for i := 0 to |sl|
      invariant res == Elems(sl[..i])
      invariant |res| <= i
    {
      assert Elems(sl[..i + 1]) == Elems(sl[..i]) + {sl[i]} by {
        assert sl[..i + 1] == sl[..i] + [sl[i]];
      }
      res := res + {sl[i]};
    }
    assert sl[..|sl|] == sl;
  }

  /** ListToSlice: the values of a `container/list.List`, given by its
      contents front to back, copied into a slice in the same order. */
  method ListToSlice(l: seq<string>) returns (res: seq<string>)
    ensures |res| == |l|
    ensures forall i :: 0 <= i < |l| ==> res[i] == l[i]
  {
    res := [];
    var i := 0;
    while i < |l|
      invariant 0 <= i <= |l|
      invariant res == l[..i]
    {
      res := res + [l[i]];
      i := i + 1;
    }
  }
}
