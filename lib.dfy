/** internal/deps/lib.go: membership in a string slice. */
module DepsLib {

  /** stringsliceContain: whether some element of `slice` equals `item`;
      false for an empty slice, and independent of the order of `slice`. */
  method StringsliceContain(slice: seq<string>, item: string) returns (r: bool)
    ensures r <==> item in slice
  {
    for i := 0 to |slice|
      invariant item !in slice[..i]
    {
      if slice[i] == item {
        return true;
      }
    }
    assert slice[..|slice|] == slice;
    return false;
  }

  /** Reordering the slice does not change what stringsliceContain finds. */
  lemma ContainIgnoresOrder(slice: seq<string>, permuted: seq<string>, item: string)
    requires multiset(slice) == multiset(permuted)
    ensures item in slice <==> item in permuted
  {
    assert item in slice <==> item in multiset(slice);
    assert item in permuted <==> item in multiset(permuted);
  }
}
