/**
 * internal/cfg/cfg.go: the decoded per-app configuration file, the filling
 * in of default dependency types and the validation of a configuration.
 */
module Cfg {
  import opened Wrappers
  import opened GoStrings

  const TypeSoftDependency: string := "soft"
  const TypeHardDependency: string := "hard"
  const TypeDefaultDependency: string := TypeHardDependency

  /** The attributes of one dependency entry. */
  datatype Attributes = Attributes(typ: string)

  /** distribution -> depended-on app -> attributes; `None` is a nil
      `*Attributes` (a YAML entry without a value). */
  type DepsConfig = map<string, map<string, Option<Attributes>>>

  /** What setDefaults leaves for one entry: nil and an empty type become
      the default type, a given type is kept. */
  function Defaulted(attr: Option<Attributes>): (r: Option<Attributes>)
    ensures r.Some? && r.value.typ != ""
    ensures attr.Some? && attr.value.typ != "" ==> r == attr
  {
    if attr.None? then Some(Attributes(TypeHardDependency))
    else if attr.value.typ == "" then Some(Attributes(TypeDefaultDependency))
    else attr
  }

  /** The entries of one distribution after setDefaults. */
  function DefaultedApps(apps: map<string, Option<Attributes>>): map<string, Option<Attributes>> {
    map a | a in apps :: Defaulted(apps[a])
  }

  /** The whole dependency map after setDefaults. */
  function WithDefaults(deps: DepsConfig): DepsConfig {
    map d | d in deps :: DefaultedApps(deps[d])
  }

  /** After setDefaults no attribute is nil and no type is empty. */
  lemma DefaultsComplete(deps: DepsConfig)
    ensures forall d, a :: d in WithDefaults(deps) && a in WithDefaults(deps)[d] ==>
      WithDefaults(deps)[d][a].Some? && WithDefaults(deps)[d][a].value.typ != ""
  {
  }

  /** setDefaults adds and removes no distribution and no dependency key;
      it turns nil and empty types into "hard" and keeps every given type. */
  lemma DefaultsKeepEntries(deps: DepsConfig)
    ensures WithDefaults(deps).Keys == deps.Keys
    ensures forall d :: d in deps ==> WithDefaults(deps)[d].Keys == deps[d].Keys
    ensures forall d, a :: d in deps && a in deps[d] ==>
      if deps[d][a].None? || deps[d][a].value.typ == "" then
        WithDefaults(deps)[d][a] == Some(Attributes("hard"))
      else
        WithDefaults(deps)[d][a] == deps[d][a]
  {
  }

  /** Filling in defaults twice changes nothing more. */
  lemma DefaultsIdempotent(deps: DepsConfig)
    ensures WithDefaults(WithDefaults(deps)) == WithDefaults(deps)
  {
    forall d | d in deps ensures DefaultedApps(DefaultedApps(deps[d])) == DefaultedApps(deps[d]) {
    }
  }

  /** Why Validate refuses a configuration. */
  datatype CfgError =
    | BlankAppName
    | NoDistributions
    | BlankDistribution(distribution: string)
    | BlankDependency(distribution: string, app: string)
    | UnsupportedType(distribution: string, app: string, typ: string)

  /** An entry Validate accepts: nil, or typed "hard" or "soft". */
  predicate AttrValid(attr: Option<Attributes>) {
    attr.None? || attr.value.typ == TypeHardDependency || attr.value.typ == TypeSoftDependency
  }

  /** One distribution Validate accepts: a non-blank name and entries with
      non-blank keys and accepted attributes; an empty entry map is fine. */
  predicate DistributionValid(d: string, apps: map<string, Option<Attributes>>) {
    TrimSpace(d) != [] && forall a :: a in apps ==> TrimSpace(a) != [] && AttrValid(apps[a])
  }

  /** A configuration Validate accepts. */
  predicate ConfigValid(appName: string, deps: DepsConfig) {
    TrimSpace(appName) != [] && |deps| != 0 &&
    forall d :: d in deps ==> DistributionValid(d, deps[d])
  }

  /** A name is blank for Validate exactly when it is only white space. */
  lemma BlankIsWhiteSpace(s: string)
    ensures TrimSpace(s) == [] <==> Blank(s)
  {
    TrimSpaceEmptyIffBlank(s);
  }

  /** After setDefaults an entry is refused only for a type given in the
      file that is neither "hard" nor "soft"; a nil or empty type never is. */
  lemma DefaultedTypesValid(deps: DepsConfig)
    ensures forall d, a :: d in deps && a in deps[d] ==>
      (AttrValid(WithDefaults(deps)[d][a]) <==>
        deps[d][a].None? || deps[d][a].value.typ in {"", "hard", "soft"})
  {
  }

  /** Validate's loop over the entries of one distribution. */
  method ValidateApps(d: string, apps: map<string, Option<Attributes>>) returns (err: Option<CfgError>)
    ensures err.None? <==> forall a :: a in apps ==> TrimSpace(a) != [] && AttrValid(apps[a])
    ensures err.Some? ==> err.value.BlankDependency? || err.value.UnsupportedType?
    ensures err.Some? && err.value.BlankDependency? ==>
      err.value.distribution == d && err.value.app in apps && TrimSpace(err.value.app) == []
    ensures err.Some? && err.value.UnsupportedType? ==>
      err.value.distribution == d && err.value.app in apps &&
      apps[err.value.app] == Some(Attributes(err.value.typ)) && !AttrValid(apps[err.value.app])
  {
    var rest := apps.Keys;
    while rest != {}
      invariant rest <= apps.Keys
      invariant forall a :: a in apps.Keys - rest ==> TrimSpace(a) != [] && AttrValid(apps[a])
      decreases |rest|
    {
      var depApp :| depApp in rest;
      if TrimSpace(depApp) == [] {
        return Some(BlankDependency(d, depApp));
      }
      var attr := apps[depApp];
      if attr.Some? && attr.value.typ != TypeHardDependency && attr.value.typ != TypeSoftDependency {
        return Some(UnsupportedType(d, depApp, attr.value.typ));
      }
      rest := rest - {depApp};
    }
    return None;
  }

  /** Config: the app a configuration file belongs to and its dependencies
      per distribution. */
  class Config {
    var appName: string
    var dependencies: DepsConfig

    constructor (appName: string, dependencies: DepsConfig)
      ensures this.appName == appName && this.dependencies == dependencies
    {
      this.appName := appName;
      this.dependencies := dependencies;
    }

    /** setDefaults: every nil entry and every empty type becomes "hard". */
    method SetDefaults()
      modifies this
      ensures appName == old(appName)
      ensures dependencies == WithDefaults(old(dependencies))
    {
      ghost var deps := dependencies;
      var rest := dependencies.Keys;
      while rest != {}
        invariant rest <= deps.Keys && dependencies.Keys == deps.Keys
        invariant appName == old(appName)
        invariant forall d :: d in rest ==> dependencies[d] == deps[d]
        invariant forall d :: d in deps.Keys - rest ==> dependencies[d] == DefaultedApps(deps[d])
        decreases |rest|
      {
        var d :| d in rest;
        var dep := DefaultApps(dependencies[d]);
        dependencies := dependencies[d := dep];
        rest := rest - {d};
      }
      assert dependencies == WithDefaults(deps);
    }

    /** Validate: the first condition found that the configuration breaks,
        or none. The name and the emptiness of the map are checked first;
        which distribution or entry is reported depends on map order. */
    method Validate() returns (err: Option<CfgError>)
      ensures err.None? <==> ConfigValid(appName, dependencies)
      ensures err == Some(BlankAppName) <==> TrimSpace(appName) == []
      ensures err == Some(NoDistributions) <==> TrimSpace(appName) != [] && |dependencies| == 0
      ensures err.Some? && err.value.BlankDistribution? ==>
        err.value.distribution in dependencies && TrimSpace(err.value.distribution) == []
      ensures err.Some? && err.value.BlankDependency? ==>
        err.value.distribution in dependencies && err.value.app in dependencies[err.value.distribution] &&
        TrimSpace(err.value.app) == []
      ensures err.Some? && err.value.UnsupportedType? ==>
        err.value.distribution in dependencies && err.value.app in dependencies[err.value.distribution] &&
        dependencies[err.value.distribution][err.value.app] == Some(Attributes(err.value.typ)) &&
        err.value.typ != TypeHardDependency && err.value.typ != TypeSoftDependency
    {
      if TrimSpace(appName) == [] {
        return Some(BlankAppName);
      }
      if |dependencies| == 0 {
        return Some(NoDistributions);
      }
      var rest := dependencies.Keys;
      while rest != {}
        invariant rest <= dependencies.Keys
        invariant forall d :: d in dependencies.Keys - rest ==> DistributionValid(d, dependencies[d])
        decreases |rest|
      {
        var distr :| distr in rest;
        if TrimSpace(distr) == [] {
          return Some(BlankDistribution(distr));
        }
        var mApp := dependencies[distr];
        rest := rest - {distr};
        if |mApp| == 0 {
          continue;
        }
        err := ValidateApps(distr, mApp);
        if err.Some? {
          return;
        }
      }
      return None;
    }
  }

  /** setDefaults' inner loop over the entries of one distribution. */
  method DefaultApps(apps: map<string, Option<Attributes>>) returns (r: map<string, Option<Attributes>>)
    ensures r == DefaultedApps(apps)
  {
    r := apps;
    var rest := apps.Keys;
    while rest != {}
      invariant rest <= apps.Keys && r.Keys == apps.Keys
      invariant forall a :: a in rest ==> r[a] == apps[a]
      invariant forall a :: a in apps.Keys - rest ==> r[a] == Defaulted(apps[a])
      decreases |rest|
    {
      var app :| app in rest;
      var attr := r[app];
      if attr.None? {
        r := r[app := Some(Attributes(TypeHardDependency))];
      } else if attr.value.typ == "" {
        r := r[app := Some(Attributes(TypeDefaultDependency))];
      }
      rest := rest - {app};
    }
  }
}
