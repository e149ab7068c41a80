/**
 * internal/deps/dependencies.go: turning the entries of one distribution
 * of a configuration file into the soft and hard dependency lists.
 */
module DepsFromCfg {
  import opened Wrappers
  import opened GoStrings
  import opened Cfg
  import opened DepsModel

  /** The entry `dep` has a type that is neither "soft" nor "hard". */
  datatype TypeError = UnsupportedDependencyType(dep: string, typ: string)

  /** The two dependency types dependenciesFromCfg knows. */
  predicate Supported(t: string) {
    t == TypeSoftDependency || t == TypeHardDependency
  }

  /** dependenciesFromCfg: each entry typed "soft" goes to the soft and each
      typed "hard" to the hard dependencies, each name once; an entry of any
      other type is an error. Every attribute must be non-nil. */
  method DependenciesFromCfg(cfgDeps: map<string, Option<Attributes>>) returns (r: Result<Dependencies, TypeError>)
    requires forall dep :: dep in cfgDeps ==> cfgDeps[dep].Some?
    ensures r.Success? <==>
      forall dep :: dep in cfgDeps ==> Supported(cfgDeps[dep].value.typ)
    ensures r.Success? ==>
      Elems(r.value.softDeps) == TypedIn(cfgDeps, cfgDeps.Keys, TypeSoftDependency) &&
      Elems(r.value.hardDeps) == TypedIn(cfgDeps, cfgDeps.Keys, TypeHardDependency) &&
      NoDuplicates(r.value.softDeps + r.value.hardDeps) &&
      |r.value.softDeps| + |r.value.hardDeps| == |cfgDeps|
    ensures r.Failure? ==>
      r.error.dep in cfgDeps && cfgDeps[r.error.dep] == Some(Attributes(r.error.typ)) &&
      r.error.typ != TypeSoftDependency && r.error.typ != TypeHardDependency
  {
    var softdeps: seq<string> := [];
    var harddeps: seq<string> := [];
    var rest := cfgDeps.Keys;
    ghost var done: set<string> := {};
    while rest != {}
      invariant rest !! done && rest + done == cfgDeps.Keys
      invariant Partitioned(cfgDeps, done, softdeps, harddeps)
      decreases |rest|
    {
      var dep :| dep in rest;
      var attr := cfgDeps[dep].value;
      if attr.typ == TypeSoftDependency {
        PartitionedAddSoft(cfgDeps, done, softdeps, harddeps, dep);
        softdeps := softdeps + [dep];
      } else if attr.typ == TypeHardDependency {
        PartitionedAddHard(cfgDeps, done, softdeps, harddeps, dep);
        harddeps := harddeps + [dep];
      } else {
        return Failure(UnsupportedDependencyType(dep, attr.typ));
      }
      done := done + {dep};
      rest := rest - {dep};
    }
    TypesDiffer();
    ConcatDistinct(softdeps, harddeps);
    return Success(Dependencies(softdeps, harddeps));
  }

  /** The names among `names` whose entry has type `t`. */
  ghost function TypedIn(cfgDeps: map<string, Option<Attributes>>, names: set<string>, t: string): set<string>
  {
    set dep | dep in names && dep in cfgDeps && cfgDeps[dep] == Some(Attributes(t))
  }

  /** The entries `done` are sorted into `soft` and `hard` by their type,
      each name once. */
  ghost predicate Partitioned(cfgDeps: map<string, Option<Attributes>>, done: set<string>,
                         soft: seq<string>, hard: seq<string>)
  {
    done <= cfgDeps.Keys &&
    Elems(soft) == TypedIn(cfgDeps, done, TypeSoftDependency) &&
    Elems(hard) == TypedIn(cfgDeps, done, TypeHardDependency) &&
    NoDuplicates(soft) && NoDuplicates(hard) && |soft| + |hard| == |done| &&
    forall dep :: dep in done ==> cfgDeps[dep].Some? && Supported(cfgDeps[dep].value.typ)
  }

  /** Sorting in one more soft entry. */
  lemma PartitionedAddSoft(cfgDeps: map<string, Option<Attributes>>, done: set<string>,
                           soft: seq<string>, hard: seq<string>, x: string)
    requires Partitioned(cfgDeps, done, soft, hard) && x in cfgDeps && x !in done
    requires cfgDeps[x] == Some(Attributes(TypeSoftDependency))
    ensures Partitioned(cfgDeps, done + {x}, soft + [x], hard)
  {
    TypesDiffer();
    TypedInAdd(cfgDeps, done, x, TypeSoftDependency);
    TypedInAdd(cfgDeps, done, x, TypeHardDependency);
    ConcatDistinct(soft, [x]);
  }

  /** Sorting in one more hard entry. */
  lemma PartitionedAddHard(cfgDeps: map<string, Option<Attributes>>, done: set<string>,
                           soft: seq<string>, hard: seq<string>, x: string)
    requires Partitioned(cfgDeps, done, soft, hard) && x in cfgDeps && x !in done
    requires cfgDeps[x] == Some(Attributes(TypeHardDependency))
    ensures Partitioned(cfgDeps, done + {x}, soft, hard + [x])
  {
    TypesDiffer();
    TypedInAdd(cfgDeps, done, x, TypeSoftDependency);
    TypedInAdd(cfgDeps, done, x, TypeHardDependency);
    ConcatDistinct(hard, [x]);
  }

  lemma TypesDiffer()
    ensures TypeSoftDependency != TypeHardDependency
  {
    assert TypeSoftDependency[0] != TypeHardDependency[0];
  }

  lemma TypedInAdd(cfgDeps: map<string, Option<Attributes>>, names: set<string>, x: string, t: string)
    requires x in cfgDeps && x !in names
    ensures TypedIn(cfgDeps, names + {x}, t) ==
      TypedIn(cfgDeps, names, t) + (if cfgDeps[x] == Some(Attributes(t)) then {x} else {})
    ensures x !in TypedIn(cfgDeps, names, t)
  {
  }
}
