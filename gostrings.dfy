/**
 * The parts of Go's standard library that the core relies on, stated over
 * Dafny strings: the ordering of strings (`<`), `slices.Sort` on a string
 * slice, `strings.TrimSpace` and `strings.Split` with a one-character
 * separator.
 */
module GoStrings {

  /** Go's `a < b` on strings. Go compares the UTF-8 bytes; UTF-8 preserves
      the order of code points, so comparing characters gives the same order. */
  predicate Less(a: string, b: string)
    decreases |a|
  {
    if |a| == 0 then |b| > 0
    else if |b| == 0 then false
    else if a[0] != b[0] then a[0] < b[0]
    else Less(a[1..], b[1..])
  }

  lemma {:induction false} LessIrreflexive(a: string)
    ensures !Less(a, a)
    decreases |a|
  {
    if |a| > 0 {
      LessIrreflexive(a[1..]);
    }
  }

  lemma {:induction false} LessTransitive(a: string, b: string, c: string)
    requires Less(a, b) && Less(b, c)
    ensures Less(a, c)
    decreases |a|
  {
    if |a| > 0 && |b| > 0 && |c| > 0 && a[0] == b[0] && b[0] == c[0] {
      LessTransitive(a[1..], b[1..], c[1..]);
    }
  }

  /** Two different strings are always ordered one way or the other. */
  lemma {:induction false} LessTotal(a: string, b: string)
    ensures a == b || Less(a, b) || Less(b, a)
    decreases |a|
  {
    if |a| > 0 && |b| > 0 && a[0] == b[0] {
      LessTotal(a[1..], b[1..]);
      if a[1..] == b[1..] {
        assert a == [a[0]] + a[1..] && b == [b[0]] + b[1..];
      }
    }
  }

  lemma {:induction false} LessAsymmetric(a: string, b: string)
    requires Less(a, b)
    ensures !Less(b, a)
  {
    if Less(b, a) {
      LessTransitive(a, b, a);
      LessIrreflexive(a);
    }
  }

  /** Every element is strictly below every later one (so no duplicates). */
  ghost predicate StrictlySorted(xs: seq<string>) {
    forall i, j :: 0 <= i < j < |xs| ==> Less(xs[i], xs[j])
  }

  /** The non-strict ascending order `slices.Sort` produces. */
  ghost predicate Sorted(xs: seq<string>) {
    forall i, j :: 0 <= i < j < |xs| ==> !Less(xs[j], xs[i])
  }

  /** The set of elements of a sequence. */
  function Elems<T>(xs: seq<T>): set<T> {
    set x | x in xs
  }

  ghost predicate NoDuplicates<T>(xs: seq<T>) {
    forall i, j :: 0 <= i < j < |xs| ==> xs[i] != xs[j]
  }

  /** Appending one element adds it to the elements. */
  lemma ElemsSnoc<T>(xs: seq<T>, x: T)
    ensures Elems(xs + [x]) == Elems(xs) + {x}
  {
  }

  /** Growing a duplicate-free prefix by one element adds a new element. */
  lemma PrefixElems<T>(xs: seq<T>, i: int)
    requires 0 <= i < |xs|
    ensures Elems(xs[..i + 1]) == Elems(xs[..i]) + {xs[i]}
  {
    assert xs[..i + 1] == xs[..i] + [xs[i]];
  }

  lemma PrefixStep<T>(xs: seq<T>, i: int)
    requires NoDuplicates(xs) && 0 <= i < |xs|
    ensures xs[i] !in Elems(xs[..i])
    ensures Elems(xs[..i + 1]) == Elems(xs[..i]) + {xs[i]}
  {
    assert xs[..i + 1] == xs[..i] + [xs[i]];
    assert forall k :: 0 <= k < i ==> xs[..i][k] == xs[k] != xs[i];
  }

  /** Concatenating duplicate-free sequences with disjoint elements. */
  lemma ConcatDistinct<T>(a: seq<T>, b: seq<T>)
    requires NoDuplicates(a) && NoDuplicates(b) && Elems(a) !! Elems(b)
    ensures NoDuplicates(a + b) && Elems(a + b) == Elems(a) + Elems(b)
  {
    forall i, j | 0 <= i < j < |a + b| ensures (a + b)[i] != (a + b)[j] {
      if i < |a| && j >= |a| {
        assert (a + b)[i] in Elems(a) && (a + b)[j] == b[j - |a|] && b[j - |a|] in Elems(b);
      } else if i >= |a| {
        assert (a + b)[i] == b[i - |a|] && (a + b)[j] == b[j - |a|];
      }
    }
  }

  lemma StrictlySortedHasNoDuplicates(xs: seq<string>)
    requires StrictlySorted(xs)
    ensures NoDuplicates(xs)
  {
    forall i, j | 0 <= i < j < |xs| ensures xs[i] != xs[j] {
      LessIrreflexive(xs[i]);
    }
  }

  lemma {:induction false} DistinctLength<T>(xs: seq<T>)
    requires NoDuplicates(xs)
    ensures |Elems(xs)| == |xs|
  {
    if xs != [] {
      DistinctLength(xs[1..]);
      assert Elems(xs) == {xs[0]} + Elems(xs[1..]);
      assert xs[0] !in Elems(xs[1..]);
    }
  }

  ghost predicate IsLeast(m: string, s: set<string>) {
    m in s && forall y :: y in s && y != m ==> Less(m, y)
  }

  lemma {:induction false} LeastExists(s: set<string>)
    requires s != {}
    ensures exists m :: IsLeast(m, s)
    decreases |s|
  {
    var x :| x in s;
    if s != {x} {
      var rest := s - {x};
      LeastExists(rest);
      var m :| IsLeast(m, rest);
      LessTotal(x, m);
      if Less(x, m) {
        forall y | y in s && y != x ensures Less(x, y) {
          if y != m { LessTransitive(x, m, y); }
        }
        assert IsLeast(x, s);
      } else {
        assert IsLeast(m, s);
      }
    } else {
      assert IsLeast(x, s);
    }
  }

  lemma LeastUnique(m: string, n: string, s: set<string>)
    requires IsLeast(m, s) && IsLeast(n, s)
    ensures m == n
  {
    if m != n {
      LessAsymmetric(m, n);
    }
  }

  /** Putting a value below all of a strictly sorted sequence in front keeps it strictly sorted. */
  lemma StrictlySortedCons(m: string, rest: seq<string>)
    requires StrictlySorted(rest)
    requires forall k :: 0 <= k < |rest| ==> Less(m, rest[k])
    ensures StrictlySorted([m] + rest)
  {
    var r := [m] + rest;
    forall i, j | 0 <= i < j < |r| ensures Less(r[i], r[j]) {
      assert r[j] == rest[j - 1];
      if i > 0 { assert r[i] == rest[i - 1]; }
    }
  }

  /** The members of `s` in ascending order: the one enumeration of a set
      of strings that is strictly sorted. */
  ghost function SortedElems(s: set<string>): (r: seq<string>)
    ensures StrictlySorted(r) && Elems(r) == s && |r| == |s|
    decreases |s|
  {
    if s == {} then []
    else
      LeastExists(s);
      var m :| IsLeast(m, s);
      var rest := SortedElems(s - {m});
      LeastFirst(m, s, rest);
      [m] + rest
  }

  /** The least member followed by the others in order enumerates `s`. */
  lemma LeastFirst(m: string, s: set<string>, rest: seq<string>)
    requires IsLeast(m, s)
    requires StrictlySorted(rest) && Elems(rest) == s - {m} && |rest| == |s - {m}|
    ensures StrictlySorted([m] + rest) && Elems([m] + rest) == s && |[m] + rest| == |s|
  {
    assert Elems([m] + rest) == {m} + Elems(rest);
    assert forall k :: 0 <= k < |rest| ==> rest[k] in Elems(rest);
    StrictlySortedCons(m, rest);
  }

  /** One step of the enumeration: the least member, then the rest in order. */
  lemma SortedElemsUnfold(s: set<string>)
    requires s != {}
    ensures IsLeast(SortedElems(s)[0], s)
    ensures SortedElems(s) == [SortedElems(s)[0]] + SortedElems(s - {SortedElems(s)[0]})
  {
  }

  /** A strictly sorted sequence is determined by its set of elements. */
  lemma {:induction false} SortedElemsUnique(xs: seq<string>)
    requires StrictlySorted(xs)
    ensures xs == SortedElems(Elems(xs))
    decreases |xs|
  {
    if xs != [] {
      var s := Elems(xs);
      StrictlySortedSplit(xs);
      SortedElemsUnfold(s);
      LeastUnique(xs[0], SortedElems(s)[0], s);
      SortedElemsUnique(xs[1..]);
      assert xs == [xs[0]] + xs[1..];
    }
  }

  /** A strictly sorted sequence starts with its least element, before the
      rest of its elements, still strictly sorted. */
  lemma StrictlySortedSplit(xs: seq<string>)
    requires StrictlySorted(xs) && xs != []
    ensures IsLeast(xs[0], Elems(xs))
    ensures Elems(xs[1..]) == Elems(xs) - {xs[0]}
    ensures StrictlySorted(xs[1..])
  {
    var s := Elems(xs);
    forall y | y in s && y != xs[0] ensures Less(xs[0], y) {
      var j :| 0 <= j < |xs| && xs[j] == y;
      assert j != 0;
    }
    StrictlySortedHasNoDuplicates(xs);
    assert xs == [xs[0]] + xs[1..];
    forall k | 1 <= k < |xs| ensures xs[k] != xs[0] { }
    forall i, j | 0 <= i < j < |xs[1..]| ensures Less(xs[1..][i], xs[1..][j]) {
      assert xs[1..][i] == xs[i + 1] && xs[1..][j] == xs[j + 1];
    }
  }

  /** Insertion sort: the model of `slices.Sort` on a string slice. */
  function Insert(x: string, s: seq<string>): seq<string> {
    if s == [] then [x]
    else if Less(s[0], x) then [s[0]] + Insert(x, s[1..])
    else [x] + s
  }

  function Sort(xs: seq<string>): seq<string> {
    if xs == [] then [] else Insert(xs[0], Sort(xs[1..]))
  }

  lemma SortedCons(y: string, r: seq<string>)
    requires Sorted(r)
    requires forall k :: 0 <= k < |r| ==> !Less(r[k], y)
    ensures Sorted([y] + r)
  {
    var t := [y] + r;
    forall i, j | 0 <= i < j < |t| ensures !Less(t[j], t[i]) {
      assert t[j] == r[j - 1];
      if i > 0 { assert t[i] == r[i - 1]; }
    }
  }

  lemma SortedTail(s: seq<string>)
    requires Sorted(s) && s != []
    ensures Sorted(s[1..])
    ensures forall k :: 1 <= k < |s| ==> !Less(s[k], s[0])
  {
    forall i, j | 0 <= i < j < |s[1..]| ensures !Less(s[1..][j], s[1..][i]) {
      assert s[1..][i] == s[i + 1] && s[1..][j] == s[j + 1];
    }
  }

  lemma {:induction false} InsertSorted(x: string, s: seq<string>)
    requires Sorted(s)
    ensures Sorted(Insert(x, s)) && multiset(Insert(x, s)) == multiset(s) + multiset{x}
  {
    if s == [] {
    } else if Less(s[0], x) {
      SortedTail(s);
      InsertSorted(x, s[1..]);
      var r := Insert(x, s[1..]);
      assert s == [s[0]] + s[1..];
      forall k | 0 <= k < |r| ensures !Less(r[k], s[0]) {
        assert r[k] in multiset(r);
        if r[k] == x {
          LessAsymmetric(s[0], x);
        } else {
          assert r[k] in multiset(s[1..]);
          var j :| 0 <= j < |s[1..]| && s[1..][j] == r[k];
          assert s[j + 1] == r[k];
        }
      }
      SortedCons(s[0], r);
    } else {
      SortedTail(s);
      forall k | 0 <= k < |s| ensures !Less(s[k], x) {
        if k > 0 && Less(s[k], x) {
          LessTotal(s[0], s[k]);
          if Less(s[0], s[k]) { LessTransitive(s[0], s[k], x); }
        }
      }
      SortedCons(x, s);
    }
  }

  /** `slices.Sort` leaves the elements in ascending order and permutes them. */
  lemma {:induction false} SortSortsAndPermutes(xs: seq<string>)
    ensures Sorted(Sort(xs)) && multiset(Sort(xs)) == multiset(xs)
  {
    if xs != [] {
      SortSortsAndPermutes(xs[1..]);
      InsertSorted(xs[0], Sort(xs[1..]));
      assert xs == [xs[0]] + xs[1..];
    }
  }

  lemma SortedDistinctIsStrict(xs: seq<string>)
    requires Sorted(xs) && NoDuplicates(xs)
    ensures StrictlySorted(xs)
  {
    forall i, j | 0 <= i < j < |xs| ensures Less(xs[i], xs[j]) {
      LessTotal(xs[i], xs[j]);
    }
  }

  lemma {:induction false} MultisetKeepsDistinct(xs: seq<string>, ys: seq<string>)
    requires multiset(xs) == multiset(ys) && NoDuplicates(xs)
    ensures NoDuplicates(ys)
  {
    forall i, j | 0 <= i < j < |ys| ensures ys[i] != ys[j] {
      if ys[i] == ys[j] {
        var y := ys[i];
        assert multiset(ys)[y] >= 2 by {
          assert ys == ys[..i] + [y] + ys[i+1..j] + [y] + ys[j+1..];
        }
        DistinctCount(xs, y);
      }
    }
  }

  lemma {:induction false} DistinctCount(xs: seq<string>, y: string)
    requires NoDuplicates(xs)
    ensures multiset(xs)[y] <= 1
  {
    if xs != [] {
      DistinctCount(xs[1..], y);
      assert xs == [xs[0]] + xs[1..];
      if xs[0] == y { assert y !in xs[1..]; }
    }
  }

  /** Sorting a slice without duplicates gives the ascending enumeration of its elements. */
  lemma SortOfDistinct(xs: seq<string>)
    requires NoDuplicates(xs)
    ensures Sort(xs) == SortedElems(Elems(xs))
  {
    SortSortsAndPermutes(xs);
    MultisetKeepsDistinct(xs, Sort(xs));
    SortedDistinctIsStrict(Sort(xs));
    assert Elems(Sort(xs)) == Elems(xs) by {
      forall x ensures x in Sort(xs) <==> x in xs {
        assert x in Sort(xs) <==> x in multiset(Sort(xs));
        assert x in xs <==> x in multiset(xs);
      }
    }
    SortedElemsUnique(Sort(xs));
  }

  /** Go's `unicode.IsSpace`. */
  predicate IsSpace(c: char) {
    c == '\t' || c == '\n' || c == '\U{000B}' || c == '\U{000C}' || c == '\r' || c == ' '
    || c == '\U{0085}' || c == '\U{00A0}' || c == '\U{1680}'
    || ('\U{2000}' <= c <= '\U{200A}')
    || c == '\U{2028}' || c == '\U{2029}' || c == '\U{202F}' || c == '\U{205F}' || c == '\U{3000}'
  }

  function TrimLeft(s: string): string {
    if s != [] && IsSpace(s[0]) then TrimLeft(s[1..]) else s
  }

  function TrimRight(s: string): string {
    if s != [] && IsSpace(s[|s| - 1]) then TrimRight(s[..|s| - 1]) else s
  }

  /** Go's `strings.TrimSpace`: drops leading and trailing white space. */
  function TrimSpace(s: string): string {
    TrimRight(TrimLeft(s))
  }

  ghost predicate Blank(s: string) {
    forall i :: 0 <= i < |s| ==> IsSpace(s[i])
  }

  lemma {:induction false} TrimRightEmpty(s: string)
    ensures TrimRight(s) == [] <==> Blank(s)
  {
    if s != [] && IsSpace(s[|s| - 1]) {
      TrimRightEmpty(s[..|s| - 1]);
      assert Blank(s) <==> Blank(s[..|s| - 1]) by {
        if Blank(s[..|s| - 1]) {
          forall i | 0 <= i < |s| ensures IsSpace(s[i]) {
            if i < |s| - 1 { assert s[i] == s[..|s| - 1][i]; }
          }
        }
      }
    }
  }

  /** Dropping leading white space keeps a string blank or not blank. */
  lemma {:induction false} TrimLeftKeepsBlank(s: string)
    ensures Blank(TrimLeft(s)) <==> Blank(s)
  {
    if s != [] && IsSpace(s[0]) {
      TrimLeftKeepsBlank(s[1..]);
      if Blank(s[1..]) {
        forall i | 0 <= i < |s| ensures IsSpace(s[i]) {
          if i > 0 { assert s[i] == s[1..][i - 1]; }
        }
      }
    }
  }

  /** `strings.TrimSpace(s) == ""` holds exactly for strings made only of white space. */
  lemma TrimSpaceEmptyIffBlank(s: string)
    ensures TrimSpace(s) == [] <==> Blank(s)
  {
    TrimRightEmpty(TrimLeft(s));
    TrimLeftKeepsBlank(s);
  }


  /** Go's `strings.Split(s, string(sep))`: at least one piece, `""` gives `[""]`. */
  function Split(s: string, sep: char): (r: seq<string>)
    ensures |r| >= 1
  {
    if s == [] then [""]
    else
      var rest := Split(s[1..], sep);
      if s[0] == sep then [""] + rest else [[s[0]] + rest[0]] + rest[1..]
  }

  /** Go's `strings.Join(parts, string(sep))`. */
  function Join(parts: seq<string>, sep: char): string
    requires |parts| >= 1
  {
    if |parts| == 1 then parts[0] else parts[0] + [sep] + Join(parts[1..], sep)
  }

  /** Splitting and joining again gives the original string back. */
  lemma {:induction false} JoinSplit(s: string, sep: char)
    ensures Join(Split(s, sep), sep) == s
  {
    if s != [] {
      JoinSplit(s[1..], sep);
      var rest := Split(s[1..], sep);
      if s[0] != sep {
        if |rest| == 1 {
          assert Split(s, sep) == [[s[0]] + rest[0]];
        } else {
          var r := Split(s, sep);
          assert r[1..] == rest[1..];
          assert [s[0]] + rest[0] + [sep] + Join(rest[1..], sep) == [s[0]] + (rest[0] + [sep] + Join(rest[1..], sep));
        }
      } else {
        assert Split(s, sep)[1..] == rest;
      }
    }
  }

  /** No piece of a split contains the separator. */
  lemma {:induction false} SplitPiecesHaveNoSeparator(s: string, sep: char)
    ensures forall p :: p in Split(s, sep) ==> sep !in p
  {
    if s != [] {
      SplitPiecesHaveNoSeparator(s[1..], sep);
      var rest := Split(s[1..], sep);
      if s[0] != sep {
        assert sep !in rest[0];
        forall p | p in Split(s, sep) ensures sep !in p {
          if p != [s[0]] + rest[0] { assert p in rest[1..]; }
        }
      }
    }
  }

  /** No piece of a split is longer than the string split. */
  lemma {:induction false} SplitPiecesNoLonger(s: string, sep: char)
    ensures forall p :: p in Split(s, sep) ==> |p| <= |s|
  {
    if s != [] {
      SplitPiecesNoLonger(s[1..], sep);
      var rest := Split(s[1..], sep);
      if s[0] != sep {
        forall p | p in Split(s, sep) ensures |p| <= |s| {
          if p != [s[0]] + rest[0] { assert p in rest[1..]; }
        }
      }
    }
  }

  /** Go's `strings.HasPrefix`. */
  predicate HasPrefix(s: string, prefix: string) {
    |prefix| <= |s| && s[..|prefix|] == prefix
  }

  /** The elements of `xs` back to front (what Go's `slices.Reverse` leaves). */
  function Reversed<T>(xs: seq<T>): (r: seq<T>)
    ensures |r| == |xs|
    ensures forall i :: 0 <= i < |xs| ==> r[i] == xs[|xs| - 1 - i]
  {
    if xs == [] then [] else Reversed(xs[1..]) + [xs[0]]
  }

  /** Reversing keeps the elements and their distinctness. */
  lemma ReversedKeepsElems<T>(xs: seq<T>)
    ensures Elems(Reversed(xs)) == Elems(xs)
    ensures NoDuplicates(xs) ==> NoDuplicates(Reversed(xs))
  {
    var r := Reversed(xs);
    forall x | x in Elems(xs) ensures x in Elems(r) {
      var i :| 0 <= i < |xs| && xs[i] == x;
      assert r[|xs| - 1 - i] == x;
    }
  }
}
