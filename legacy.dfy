/**
 * composition.go of the first-generation command: a composition is a map
 * from service names to services, each holding the services it depends
 * on. Service names are quoted with `sanitize` (main.go) before they
 * become graph vertices or output.
 */
module Legacy {
  import opened Wrappers
  import opened GoStrings
  import opened Graphs
  import opened TopoSort
  import DepsLib

  /** A dependency entry; its condition is carried along but never read. */
  datatype DepService = DepService(condition: string)

  /** A service: the services it depends on. */
  datatype Service = Service(dependsOn: map<string, DepService>)
  {
    /** AddDependency: `name` becomes a dependency unless it already is one;
        an existing entry is never overwritten. */
    function AddDependency(name: string, service: DepService): (r: Service)
      ensures r.dependsOn.Keys == dependsOn.Keys + {name}
      ensures forall k :: k in dependsOn ==> r.dependsOn[k] == dependsOn[k]
      ensures name !in dependsOn ==> r.dependsOn[name] == service
    {
      if name in dependsOn then this else Service(dependsOn[name := service])
    }
  }

  /** NewService: a service without dependencies. */
  function NewService(): (r: Service)
    ensures forall n :: n !in r.dependsOn
  {
    Service(map[])
  }

  /** Adding a dependency a second time changes nothing, whatever entry is
      given the second time. */
  lemma AddDependencyIdempotent(s: Service, name: string, x: DepService, y: DepService)
    ensures s.AddDependency(name, x).AddDependency(name, y) == s.AddDependency(name, x)
  {
  }

  /** sanitize (main.go): the name in double quotes. */
  function Sanitize(name: string): (r: string)
    ensures |r| == |name| + 2
  {
    "\"" + name + "\""
  }

  /** A quoted name is the name with one double quote added at each end. */
  lemma SanitizeShape(name: string)
    ensures var r := Sanitize(name);
      |r| == |name| + 2 && r[0] == '"' && r[|r| - 1] == '"' && r[1..|r| - 1] == name
  {
  }

  /** Different names stay different once quoted. */
  lemma SanitizeInjective(a: string, b: string)
    ensures Sanitize(a) == Sanitize(b) ==> a == b
  {
    if Sanitize(a) == Sanitize(b) {
      SanitizeShape(a);
      SanitizeShape(b);
    }
  }

  /** The services map after inserting `name` unless it is already there. */
  function WithService(services: map<string, Service>, name: string, service: Service): map<string, Service> {
    if name in services then services else services[name := service]
  }

  /** Inserting a service a second time changes nothing, and an existing
      service is never replaced. */
  lemma WithServiceKeeps(services: map<string, Service>, name: string, x: Service, y: Service)
    ensures WithService(WithService(services, name, x), name, y) == WithService(services, name, x)
    ensures name in services ==> WithService(services, name, x) == services
    ensures WithService(services, name, x).Keys == services.Keys + {name}
  {
  }

  //---------------------------------------------------------------------------
  // PrepareForOwnDb
  //---------------------------------------------------------------------------

  /** The two shared infrastructure services PrepareForOwnDb drops. */
  predicate IsInfra(name: string) {
    name == "postgres" || name == "consul"
  }

  /** The dependencies of `serviceName` once it has its own database: a
      "postgres" dependency becomes "<serviceName>-db" with the same entry. */
  function OwnDbDeps(serviceName: string, deps: map<string, DepService>): map<string, DepService> {
    if "postgres" in deps then deps[serviceName + "-db" := deps["postgres"]] - {"postgres"} else deps
  }

  /** The services after PrepareForOwnDb. */
  function OwnDb(services: map<string, Service>): map<string, Service> {
    map s | s in services && !IsInfra(s) :: Service(OwnDbDeps(s, services[s].dependsOn))
  }

  /** A name with the suffix "-db" is never "postgres". */
  lemma DbNameIsNotPostgres(s: string)
    ensures s + "-db" != "postgres"
  {
    var n := s + "-db";
    assert n[|n| - 1] == 'b';
    assert "postgres"[7] == 's';
  }

  /** PrepareForOwnDb drops exactly the "postgres" and "consul" services. */
  lemma OwnDbDropsInfra(services: map<string, Service>)
    ensures "postgres" !in OwnDb(services) && "consul" !in OwnDb(services)
    ensures forall s :: s in OwnDb(services) <==> s in services && !IsInfra(s)
  {
  }

  /** Each remaining service loses its "postgres" dependency, gains
      "<service>-db" with the same entry in its place, and keeps every
      other dependency as it was. */
  lemma OwnDbRenamesPostgres(services: map<string, Service>, s: string)
    requires s in services && !IsInfra(s)
    ensures var before := services[s].dependsOn;
      var after := OwnDb(services)[s].dependsOn;
      "postgres" !in after &&
      ("postgres" in before ==> s + "-db" in after && after[s + "-db"] == before["postgres"]) &&
      ("postgres" !in before ==> after == before) &&
      forall k :: k != "postgres" && k != s + "-db" ==>
        (k in after <==> k in before) && (k in before ==> after[k] == before[k])
  {
    DbNameIsNotPostgres(s);
  }

  /** PrepareForOwnDb's inner loop over the dependencies of one service. */
  method RenameDbDependency(serviceName: string, deps: map<string, DepService>) returns (r: map<string, DepService>)
    ensures r == OwnDbDeps(serviceName, deps)
  {
    DbNameIsNotPostgres(serviceName);
    r := deps;
    var rest := deps.Keys;
    while rest != {}
      invariant rest <= deps.Keys
      invariant r == if "postgres" in deps && "postgres" !in rest then OwnDbDeps(serviceName, deps) else deps
      decreases |rest|
    {
      var depservice :| depservice in rest;
      if depservice == "postgres" {
        var ds := r[depservice];
        r := r[serviceName + "-db" := ds];
        r := r - {"postgres"};
      }
      if depservice == "consul" {
        rest := rest - {depservice};
        continue;
      }
      rest := rest - {depservice};
    }
  }

  //---------------------------------------------------------------------------
  // Comma-separated name lists
  //---------------------------------------------------------------------------

  /** The names of a comma-separated list, each with surrounding white space
      removed. */
  ghost function TrimmedNames(list: string): set<string> {
    set p | p in Split(list, ',') :: TrimSpace(p)
  }

  /** The loops that split a list at commas and trim each piece. */
  method SplitTrimmed(list: string) returns (names: seq<string>)
    ensures |names| == |Split(list, ',')|
    ensures forall i :: 0 <= i < |names| ==> names[i] == TrimSpace(Split(list, ',')[i])
    ensures Elems(names) == TrimmedNames(list)
  {
    var pieces := Split(list, ',');
    names := [];
    for i := 0 to |pieces|
      invariant |names| == i
      invariant forall k :: 0 <= k < i ==> names[k] == TrimSpace(pieces[k])
    {
      names := names + [TrimSpace(pieces[i])];
    }
    forall x | x in TrimmedNames(list) ensures x in Elems(names) {
      var p :| p in pieces && x == TrimSpace(p);
      var k :| 0 <= k < |pieces| && pieces[k] == p;
      assert names[k] == x;
    }
  }

  /** The loop that collects the keys of a services map into a slice. */
  method ServiceNames(services: map<string, Service>) returns (names: seq<string>)
    ensures Elems(names) == services.Keys && NoDuplicates(names)
  {
    names := [];
    var rest := services.Keys;
    while rest != {}
      invariant rest <= services.Keys
      invariant Elems(names) == services.Keys - rest && NoDuplicates(names)
      decreases |rest|
    {
      var s :| s in rest;
      ConcatDistinct(names, [s]);
      names := names + [s];
      rest := rest - {s};
    }
  }

  //---------------------------------------------------------------------------
  // VerifyDependencies and removeNotWanted
  //---------------------------------------------------------------------------

  /** `dep` is a dependency of `service` that is neither a service of the
      composition nor ignored. */
  datatype UnknownDependency = UnknownDependency(dep: string, service: string)

  /** Every dependency is a service of the composition or an ignored name. */
  ghost predicate Resolved(services: map<string, Service>, ignored: set<string>) {
    forall s, d :: s in services && d in services[s].dependsOn ==> d in ignored || d in services
  }

  /** VerifyDependencies' inner loop over the dependencies of one service. */
  method CheckDependencies(services: map<string, Service>, serviceName: string, ignored: seq<string>, names: seq<string>)
    returns (err: Option<UnknownDependency>)
    requires serviceName in services && Elems(names) == services.Keys
    ensures err.None? <==> forall d :: d in services[serviceName].dependsOn ==> d in ignored || d in services
    ensures err.Some? ==>
      err.value.service == serviceName && err.value.dep in services[serviceName].dependsOn &&
      err.value.dep !in ignored && err.value.dep !in services
  {
    var deps := services[serviceName].dependsOn;
    var rest := deps.Keys;
    while rest != {}
      invariant rest <= deps.Keys
      invariant forall d :: d in deps.Keys - rest ==> d in ignored || d in services
      decreases |rest|
    {
      var depService :| depService in rest;
      rest := rest - {depService};
      var isIgnored := DepsLib.StringsliceContain(ignored, depService);
      if isIgnored {
        continue;
      }
      var isService := DepsLib.StringsliceContain(names, depService);
      if !isService {
        return Some(UnknownDependency(depService, serviceName));
      }
    }
    return None;
  }

  /** `dep` is not wanted, yet the kept service `service` depends on it. */
  datatype NeededService = NeededService(service: string, dep: string)

  /** The services a "not:" list keeps. */
  ghost function Kept(services: map<string, Service>, notWanted: set<string>): set<string> {
    set s | s in services && s !in notWanted
  }

  /** No kept service depends on a service that is not wanted. */
  ghost predicate KeptIndependent(services: map<string, Service>, notWanted: set<string>) {
    forall s, d :: s in services && s !in notWanted && d in services[s].dependsOn ==> d !in notWanted
  }

  /** removeNotWanted's inner loop over the dependencies of one kept service. */
  method FirstNeeded(serviceName: string, deps: map<string, DepService>, notwanted: seq<string>)
    returns (err: Option<NeededService>)
    ensures err.None? <==> forall d :: d in deps ==> d !in notwanted
    ensures err.Some? ==> err.value.service == serviceName && err.value.dep in deps && err.value.dep in notwanted
  {
    var rest := deps.Keys;
    while rest != {}
      invariant rest <= deps.Keys
      invariant forall d :: d in deps.Keys - rest ==> d !in notwanted
      decreases |rest|
    {
      var depService :| depService in rest;
      rest := rest - {depService};
      var needed := DepsLib.StringsliceContain(notwanted, depService);
      if needed {
        return Some(NeededService(serviceName, depService));
      }
    }
    return None;
  }

  /** The state of removeNotWanted's loop after looking at the services
      `done`: `todo` holds those of them that are kept, and none of those
      depends on a service that is not wanted. */
  ghost predicate Sifted(services: map<string, Service>, notWanted: set<string>, done: set<string>, todo: set<string>) {
    done <= services.Keys && todo == (set s | s in done && s !in notWanted) &&
    forall s, d :: s in done && s !in notWanted && d in services[s].dependsOn ==> d !in notWanted
  }

  lemma SiftedSkip(services: map<string, Service>, notWanted: set<string>, done: set<string>, todo: set<string>, x: string)
    requires Sifted(services, notWanted, done, todo) && x in services && x in notWanted
    ensures Sifted(services, notWanted, done + {x}, todo)
  {
  }

  lemma SiftedKeep(services: map<string, Service>, notWanted: set<string>, done: set<string>, todo: set<string>, x: string)
    requires Sifted(services, notWanted, done, todo) && x in services && x !in notWanted
    requires forall d :: d in services[x].dependsOn ==> d !in notWanted
    ensures Sifted(services, notWanted, done + {x}, todo + {x})
  {
  }

  lemma SiftedAll(services: map<string, Service>, notWanted: set<string>, todo: set<string>)
    requires Sifted(services, notWanted, services.Keys, todo)
    ensures KeptIndependent(services, notWanted) && todo == Kept(services, notWanted)
  {
  }

  lemma NeededBreaksIndependence(services: map<string, Service>, notWanted: set<string>, s: string, d: string)
    requires s in services && s !in notWanted && d in services[s].dependsOn && d in notWanted
    ensures !KeptIndependent(services, notWanted)
  {
  }

  /** removeNotWanted's loop over the services, for the trimmed names
      `notwanted`. */
  method SiftServices(services: map<string, Service>, notwanted: seq<string>)
    returns (todo: set<string>, err: Option<NeededService>)
    ensures err.None? <==> KeptIndependent(services, Elems(notwanted))
    ensures err.None? ==> todo == Kept(services, Elems(notwanted))
    ensures err.Some? ==>
      err.value.service in services && err.value.service !in notwanted &&
      err.value.dep in services[err.value.service].dependsOn && err.value.dep in notwanted
  {
    todo := {};
    ghost var nw := Elems(notwanted);
    var rest := services.Keys;
    ghost var done: set<string> := {};
    while rest != {}
      invariant rest !! done && rest + done == services.Keys
      invariant Sifted(services, nw, done, todo)
      decreases |rest|
    {
      var serviceName :| serviceName in rest;
      rest := rest - {serviceName};
      var skip := DepsLib.StringsliceContain(notwanted, serviceName);
      if skip {
        SiftedSkip(services, nw, done, todo, serviceName);
        done := done + {serviceName};
        continue;
      }
      err := FirstNeeded(serviceName, services[serviceName].dependsOn, notwanted);
      if err.Some? {
        NeededBreaksIndependence(services, nw, serviceName, err.value.dep);
        return;
      }
      SiftedKeep(services, nw, done, todo, serviceName);
      todo := todo + {serviceName};
      done := done + {serviceName};
    }
    SiftedAll(services, nw, todo);
    return todo, None;
  }

  /** removeNotWanted: the services not named in the comma-separated list
      `list`; an error when a kept service depends on a named one. */
  method RemoveNotWanted(services: map<string, Service>, list: string)
    returns (todo: set<string>, err: Option<NeededService>)
    ensures err.None? <==> KeptIndependent(services, TrimmedNames(list))
    ensures err.None? ==> todo == Kept(services, TrimmedNames(list))
    ensures err.Some? ==>
      err.value.service in services && err.value.service !in TrimmedNames(list) &&
      err.value.dep in services[err.value.service].dependsOn && err.value.dep in TrimmedNames(list)
  {
    var notwanted := SplitTrimmed(list);
    todo, err := SiftServices(services, notwanted);
  }

  //---------------------------------------------------------------------------
  // RecursiveDepsOf
  //---------------------------------------------------------------------------

  /** `V` holds, for each of its members that is a service, every
      dependency that is not among the names `avoid`. */
  ghost predicate ClosedAvoiding(services: map<string, Service>, V: set<string>, avoid: set<string>) {
    forall x, d :: x in V && x in services && d in services[x].dependsOn ==> d in V || d in avoid
  }

  /** `x` lies in every such set that holds the names `T`. */
  ghost predicate Reached(services: map<string, Service>, T: set<string>, avoid: set<string>, x: string) {
    forall V :: T <= V && ClosedAvoiding(services, V, avoid) ==> x in V
  }

  /** Every dependency name of every service. */
  ghost function AllDeps(services: map<string, Service>): set<string> {
    set s, d | s in services && d in services[s].dependsOn :: d
  }

  /** The names `T` and everything they depend on, directly or not, without
      passing through the names `avoid`. */
  ghost function Reach(services: map<string, Service>, T: set<string>, avoid: set<string>): set<string> {
    set x | x in T + AllDeps(services) && Reached(services, T, avoid, x)
  }

  /** Reach holds `T` and is closed. */
  lemma ReachIsClosed(services: map<string, Service>, T: set<string>, avoid: set<string>)
    ensures T <= Reach(services, T, avoid)
    ensures ClosedAvoiding(services, Reach(services, T, avoid), avoid)
  {
    var R := Reach(services, T, avoid);
    forall x, d | x in R && x in services && d in services[x].dependsOn && d !in avoid
      ensures d in R
    {
      assert d in AllDeps(services);
    }
  }

  /** Reach lies inside every closed set holding `T`. */
  lemma ReachWithin(services: map<string, Service>, T: set<string>, avoid: set<string>, V: set<string>)
    requires T <= V && ClosedAvoiding(services, V, avoid)
    ensures Reach(services, T, avoid) <= V
  {
  }

  /** The dependencies of kept services that are not services themselves. */
  ghost function StrayDeps(services: map<string, Service>, K: set<string>): set<string> {
    set x, d | x in K && x in services && d in services[x].dependsOn && d !in services :: d
  }

  /** A "not:" request keeps the named services out of the result: when no
      kept service depends on a named one, nothing reached from the kept
      services is named. */
  lemma ReachAvoidsNotWanted(services: map<string, Service>, notWanted: set<string>, avoid: set<string>)
    requires KeptIndependent(services, notWanted)
    ensures Reach(services, Kept(services, notWanted), avoid) * notWanted == {}
  {
    var K := Kept(services, notWanted);
    var V := K + StrayDeps(services, K);
    forall x, d | x in V && x in services && d in services[x].dependsOn ensures d in V {
      assert x in K;
      if d !in services {
        assert d in StrayDeps(services, K);
      }
    }
    ReachWithin(services, K, avoid, V);
    assert V * notWanted == {};
  }

  /** The request of RecursiveDepsOf names a "not:" list when one of its
      comma-separated pieces starts with "not:". */
  ghost predicate HasNotPiece(s: string) {
    exists p :: p in Split(s, ',') && HasPrefix(p, "not:")
  }

  /** A request with a "not:" piece has at least four characters. */
  lemma NotPieceFits(s: string)
    requires HasNotPiece(s)
    ensures |s| >= 4
  {
    SplitPiecesNoLonger(s, ',');
  }

  /** The names RecursiveDepsOf starts from: for a "not:" request the
      services that the list after the first four characters of the whole
      request does not name, otherwise the trimmed names of the request. */
  ghost function Requested(services: map<string, Service>, s: string): set<string> {
    if HasNotPiece(s) && |s| >= 4 then Kept(services, TrimmedNames(s[4..])) else TrimmedNames(s)
  }

  /** The names RecursiveDepsOf never adds: for a "not:" request the pieces,
      untrimmed, of the list after the first four characters. */
  ghost function Shielded(s: string): set<string> {
    if HasNotPiece(s) && |s| >= 4 then Elems(Split(s[4..], ',')) else {}
  }

  /** RecursiveDepsOf fails exactly for a "not:" request whose list names a
      service that a kept service depends on. */
  ghost predicate RequestFails(services: map<string, Service>, s: string) {
    HasNotPiece(s) && |s| >= 4 && !KeptIndependent(services, TrimmedNames(s[4..]))
  }

  /** The first loop of RecursiveDepsOf, over the pieces of the request. */
  method ParseRequest(services: map<string, Service>, s: string)
    returns (todo: set<string>, added: seq<string>, err: Option<NeededService>)
    ensures err.Some? <==> RequestFails(services, s)
    ensures err.None? ==> todo == Requested(services, s) && Elems(added) == Shielded(s)
    ensures err.Some? ==>
      |s| >= 4 &&
      err.value.service in services && err.value.service !in TrimmedNames(s[4..]) &&
      err.value.dep in services[err.value.service].dependsOn && err.value.dep in TrimmedNames(s[4..])
  {
    var pieces := Split(s, ',');
    todo, added, err := {}, [], None;
    for i := 0 to |pieces|
      invariant forall k :: 0 <= k < i ==> !HasPrefix(pieces[k], "not:")
      invariant todo == set k | 0 <= k < i :: TrimSpace(pieces[k])
    {
      if HasPrefix(pieces[i], "not:") {
        assert HasNotPiece(s);
        NotPieceFits(s);
        todo, err := RemoveNotWanted(services, s[4..]);
        if err.Some? {
          return;
        }
        added := Split(s[4..], ',');
        return;
      }
      todo := todo + {TrimSpace(pieces[i])};
    }
    assert !HasNotPiece(s);
    assert todo == TrimmedNames(s) by {
      forall x | x in TrimmedNames(s) ensures x in todo {
        var p :| p in pieces && x == TrimSpace(p);
        var k :| 0 <= k < |pieces| && pieces[k] == p;
      }
    }
  }

  /** Appending `name` to the added names unless it is among them already. */
  method NoteAdded(added: seq<string>, name: string) returns (added': seq<string>)
    ensures forall n :: n in added' <==> n in added || n == name
    ensures name in added ==> added' == added
  {
    added' := added;
    var isAdded := DepsLib.StringsliceContain(added, name);
    if !isAdded {
      added' := added + [name];
    }
  }

  /** RecursiveDepsOf's loop over the dependencies of one service: each one
      not yet added becomes wanted. */
  method AddUnvisited(todo: set<string>, added: seq<string>, deps: map<string, DepService>)
    returns (todo': set<string>)
    ensures forall n :: n in todo' <==> n in todo || (n in deps && n !in added)
  {
    todo' := todo;
    var rest := deps.Keys;
    while rest != {}
      invariant rest <= deps.Keys
      invariant forall n :: n in todo' <==> n in todo || (n in deps && n !in rest && n !in added)
      decreases |rest|
    {
      var name :| name in rest;
      var isAdded := DepsLib.StringsliceContain(added, name);
      if !isAdded {
        todo' := todo' + {name};
      }
      rest := rest - {name};
    }
  }

  /** The state of RecursiveDepsOf's loop: `todo` and the names `visited`
      are disjoint, together they hold the start names `T` and stay inside
      the closed set `C`, and every dependency of a visited service is
      visited, wanted or among `avoid`. */
  ghost predicate Gathering(services: map<string, Service>, T: set<string>, avoid: set<string>, C: set<string>,
                            todo: set<string>, visited: set<string>) {
    (forall n :: n in todo ==> n !in visited && n in C) &&
    (forall n :: n in visited ==> n in C) &&
    (forall n :: n in T ==> n in todo || n in visited) &&
    forall x, d :: x in visited && x in services && d in services[x].dependsOn ==> d in todo || d in visited || d in avoid
  }

  /** Visiting the wanted name `x` and wanting its dependencies not yet
      added keeps the loop state and shrinks what is left of `C`. */
  lemma GatherStep(services: map<string, Service>, T: set<string>, avoid: set<string>, C: set<string>,
                   todo: set<string>, visited: set<string>, x: string, deps: map<string, DepService>, todo': set<string>)
    requires Gathering(services, T, avoid, C, todo, visited) && ClosedAvoiding(services, C, avoid) && x in todo
    requires deps == if x in services then services[x].dependsOn else map[]
    requires forall n :: n in todo' <==> (n in todo && n != x) || (n in deps && !(n in avoid || n in visited || n == x))
    ensures Gathering(services, T, avoid, C, todo', visited + {x})
    ensures |C - (visited + {x})| < |C - visited|
  {
    SmallerRest(C - visited, {x});
    assert C - (visited + {x}) == (C - visited) - {x};
  }

  /** The receiver's services once RecursiveDepsOf has looked at the names
      `V`: the old services unchanged, plus an empty service for each name
      of `V` that was not one. */
  function Extended(services: map<string, Service>, V: set<string>): map<string, Service> {
    map x | x in services.Keys + V :: if x in services then services[x] else NewService()
  }

  /** The services of the new composition for the names `V`. */
  function Copied(services: map<string, Service>, V: set<string>): map<string, Service> {
    map x | x in V :: if x in services then services[x] else NewService()
  }

  /** Looking at one more name `x`: it is added as an empty service when it
      is none, and copied from there into the result. */
  lemma ExtendedStep(services: map<string, Service>, V: set<string>, x: string)
    ensures Extended(services, V + {x}) ==
      if x in Extended(services, V) then Extended(services, V) else Extended(services, V)[x := NewService()]
    ensures Copied(services, V + {x}) == Copied(services, V)[x := Extended(services, V + {x})[x]]
  {
  }

  /** One step of RecursiveDepsOf's outer loop for the wanted name
      `serviceName`: it is added as an empty service when unknown, copied to
      the result and marked added, and its dependencies not yet added
      become wanted. */
  method VisitName(services: map<string, Service>, ghost T: set<string>, ghost A: set<string>, ghost C: set<string>,
                   wanted: set<string>, ghost visited: set<string>, addedNow: seq<string>,
                   found: map<string, Service>, grown: map<string, Service>, serviceName: string)
    returns (wanted': set<string>, addedNow': seq<string>, found': map<string, Service>, grown': map<string, Service>)
    requires Gathering(services, T, A, C, wanted, visited) && ClosedAvoiding(services, C, A) && serviceName in wanted
    requires forall n :: n in addedNow <==> n in A || n in visited
    requires grown == Extended(services, visited) && found == Copied(services, visited)
    ensures Gathering(services, T, A, C, wanted', visited + {serviceName})
    ensures forall n :: n in addedNow' <==> n in A || n in visited + {serviceName}
    ensures grown' == Extended(services, visited + {serviceName}) && found' == Copied(services, visited + {serviceName})
    ensures |C - (visited + {serviceName})| < |C - visited|
  {
    ExtendedStep(services, visited, serviceName);
    grown' := grown;
    if serviceName !in grown' {
      grown' := grown'[serviceName := NewService()];
    }
    found' := found[serviceName := grown'[serviceName]];
    addedNow' := NoteAdded(addedNow, serviceName);
    wanted' := wanted - {serviceName};
    var deps := grown'[serviceName].dependsOn;
    assert deps == if serviceName in services then services[serviceName].dependsOn else map[];
    wanted' := AddUnvisited(wanted', addedNow', deps);
    GatherStep(services, T, A, C, wanted, visited, serviceName, deps, wanted');
  }

  /** RecursiveDepsOf's outer loop: starting from `todo`, takes any wanted
      name, adds it as an empty service when unknown, copies it to the
      result and wants its dependencies not yet added. */
  method Gather(services: map<string, Service>, todo: set<string>, added: seq<string>, ghost C: set<string>)
    returns (found: map<string, Service>, grown: map<string, Service>)
    requires todo <= C && ClosedAvoiding(services, C, Elems(added))
    ensures todo <= found.Keys <= C && ClosedAvoiding(services, found.Keys, Elems(added))
    ensures grown == Extended(services, found.Keys) && found == Copied(services, found.Keys)
  {
    ghost var T := todo;
    ghost var A := Elems(added);
    ghost var visited: set<string> := {};
    var wanted := todo;
    var addedNow := added;
    found, grown := map[], services;
    GatherStart(services, T, A, C, added);
    while wanted != {}
      invariant Gathering(services, T, A, C, wanted, visited)
      invariant forall n :: n in addedNow <==> n in A || n in visited
      invariant grown == Extended(services, visited) && found == Copied(services, visited)
      decreases |C - visited|
    {
      var serviceName :| serviceName in wanted;
      wanted, addedNow, found, grown := VisitName(services, T, A, C, wanted, visited, addedNow, found, grown, serviceName);
      visited := visited + {serviceName};
    }
    GatherDone(services, T, A, C, visited);
  }

  lemma GatherStart(services: map<string, Service>, T: set<string>, A: set<string>, C: set<string>, added: seq<string>)
    requires T <= C && A == Elems(added)
    ensures Gathering(services, T, A, C, T, {})
    ensures forall n :: n in added <==> n in A || n in {}
    ensures services == Extended(services, {}) && map[] == Copied(services, {})
  {
  }

  lemma GatherDone(services: map<string, Service>, T: set<string>, A: set<string>, C: set<string>, visited: set<string>)
    requires Gathering(services, T, A, C, {}, visited)
    ensures Copied(services, visited).Keys == visited
    ensures T <= visited <= C && ClosedAvoiding(services, visited, A)
  {
  }

  /** The quoted forms of the names `S`. */
  ghost function Quoted(S: set<string>): set<string> {
    set d | d in S :: Sanitize(d)
  }

  /** Quoting one more name adds its quoted form, which is new. */
  lemma QuotedStep(S: set<string>, x: string)
    requires x !in S
    ensures Quoted(S + {x}) == Quoted(S) + {Sanitize(x)}
    ensures Sanitize(x) !in Quoted(S)
  {
    forall d | d in S ensures Sanitize(d) != Sanitize(x) {
      SanitizeInjective(d, x);
    }
  }

  /** The state of Deps' loop: the names `done` are quoted into `deps`,
      each once, and `rest` is what is left of the keys of `m`. */
  ghost predicate Quoting(m: map<string, DepService>, rest: set<string>, done: set<string>, deps: seq<string>) {
    rest !! done && rest + done == m.Keys &&
    Elems(deps) == Quoted(done) && NoDuplicates(deps) && |deps| == |done|
  }

  lemma QuotingStep(m: map<string, DepService>, rest: set<string>, done: set<string>, deps: seq<string>, x: string)
    requires Quoting(m, rest, done, deps) && x in rest
    ensures Quoting(m, rest - {x}, done + {x}, deps + [Sanitize(x)])
    ensures |rest - {x}| < |rest|
  {
    var q := Sanitize(x);
    assert x !in done;
    assert Elems(deps + [q]) == Quoted(done + {x}) && NoDuplicates(deps + [q]) by {
      QuotedStep(done, x);
      ConcatDistinct(deps, [q]);
    }
    assert |done + {x}| == |done| + 1;
  }

  lemma QuotingDone(m: map<string, DepService>, done: set<string>, deps: seq<string>)
    requires Quoting(m, {}, done, deps)
    ensures Elems(deps) == Quoted(m.Keys) && NoDuplicates(deps) && |deps| == |m|
  {
    assert done == m.Keys;
  }

  /** The loop of Deps: the quoted dependency names, each once. */
  method QuotedDeps(m: map<string, DepService>) returns (deps: seq<string>)
    ensures Elems(deps) == Quoted(m.Keys) && NoDuplicates(deps) && |deps| == |m|
  {
    deps := [];
    var rest := m.Keys;
    ghost var done: set<string> := {};
    while rest != {}
      invariant Quoting(m, rest, done, deps)
      decreases |rest|
    {
      var depservice :| depservice in rest;
      QuotingStep(m, rest, done, deps, depservice);
      deps := deps + [Sanitize(depservice)];
      done := done + {depservice};
      rest := rest - {depservice};
    }
    QuotingDone(m, done, deps);
  }

  //---------------------------------------------------------------------------
  // sortableGraph and DeploymentOrder
  //---------------------------------------------------------------------------

  /** The dependency names of the services among `S`. */
  ghost function DepsOfServices(services: map<string, Service>, S: set<string>): set<string> {
    set s, d | s in S && s in services && d in services[s].dependsOn :: d
  }

  /** The edges sortableGraph draws for the services among `S`: one from
      each quoted service to each of its quoted dependencies. */
  ghost function SortableEdges(services: map<string, Service>, S: set<string>): set<Edge> {
    set s, d | s in S && s in services && d in services[s].dependsOn :: Edge(Sanitize(s), Sanitize(d))
  }

  /** The vertices sortableGraph adds for the services among `S`. */
  ghost function SortableVertices(services: map<string, Service>, S: set<string>): set<string> {
    Quoted(S) + Quoted(DepsOfServices(services, S))
  }

  /** The edges from `v` to each quoted name of `ends`. */
  ghost function QuotedFan(v: string, ends: set<string>): set<Edge> {
    set d | d in ends :: Edge(v, Sanitize(d))
  }

  lemma QuotedFanStep(v: string, ends: set<string>, x: string)
    ensures QuotedFan(v, ends + {x}) == QuotedFan(v, ends) + {Edge(v, Sanitize(x))}
  {
  }

  lemma QuotedAdd(S: set<string>, x: string)
    ensures Quoted(S + {x}) == Quoted(S) + {Sanitize(x)}
  {
  }

  /** Adding one service to those drawn adds its fan of edges. */
  lemma SortableEdgesAdd(services: map<string, Service>, S: set<string>, x: string)
    requires x in services
    ensures SortableEdges(services, S + {x}) ==
      SortableEdges(services, S) + QuotedFan(Sanitize(x), services[x].dependsOn.Keys)
  {
    var L, R := SortableEdges(services, S + {x}), SortableEdges(services, S) + QuotedFan(Sanitize(x), services[x].dependsOn.Keys);
    forall e | e in L ensures e in R {
      var s, d :| s in S + {x} && s in services && d in services[s].dependsOn && e == Edge(Sanitize(s), Sanitize(d));
      if s == x {
        assert e in QuotedFan(Sanitize(x), services[x].dependsOn.Keys);
      } else {
        assert e in SortableEdges(services, S);
      }
    }
    forall e | e in R ensures e in L {
      if e in QuotedFan(Sanitize(x), services[x].dependsOn.Keys) {
        var d :| d in services[x].dependsOn && e == Edge(Sanitize(x), Sanitize(d));
        assert x in S + {x};
      } else {
        var s, d :| s in S && s in services && d in services[s].dependsOn && e == Edge(Sanitize(s), Sanitize(d));
        assert s in S + {x};
      }
    }
  }

  /** Adding one service to those drawn adds its vertex and those of its
      dependencies. */
  lemma SortableVerticesAdd(services: map<string, Service>, S: set<string>, x: string)
    requires x in services
    ensures SortableVertices(services, S + {x}) ==
      SortableVertices(services, S) + {Sanitize(x)} + Quoted(services[x].dependsOn.Keys)
  {
    assert DepsOfServices(services, S + {x}) == DepsOfServices(services, S) + services[x].dependsOn.Keys by {
      forall d | d in DepsOfServices(services, S + {x})
        ensures d in DepsOfServices(services, S) + services[x].dependsOn.Keys
      {
        var s :| s in S + {x} && s in services && d in services[s].dependsOn;
        if s != x { assert d in DepsOfServices(services, S); }
      }
      forall d | d in services[x].dependsOn.Keys ensures d in DepsOfServices(services, S + {x}) {
        assert x in S + {x};
      }
    }
  }

  /** The state of sortableGraph's inner loop: `done` of `all` are drawn,
      the edges and vertices so far being `E` and `K`. */
  ghost predicate FanProgress(E0: set<Edge>, K0: set<string>, v: string, all: set<string>,
                              rest: set<string>, done: set<string>, E: set<Edge>, K: set<string>)
  {
    v in K0 && rest !! done && rest + done == all &&
    E == E0 + QuotedFan(v, done) && K == K0 + Quoted(done)
  }

  lemma FanProgressStep(E0: set<Edge>, K0: set<string>, v: string, all: set<string>,
                        rest: set<string>, done: set<string>, E: set<Edge>, K: set<string>, x: string)
    requires FanProgress(E0, K0, v, all, rest, done, E, K) && x in rest
    ensures FanProgress(E0, K0, v, all, rest - {x}, done + {x}, E + {Edge(v, Sanitize(x))}, K + {v, Sanitize(x)})
  {
    QuotedFanStep(v, done, x);
    QuotedAdd(done, x);
  }

  lemma FanProgressDone(E0: set<Edge>, K0: set<string>, v: string, all: set<string>,
                        done: set<string>, E: set<Edge>, K: set<string>)
    requires FanProgress(E0, K0, v, all, {}, done, E, K)
    ensures E == E0 + QuotedFan(v, all) && K == K0 + Quoted(all)
  {
    assert done == all;
  }

  /** sortableGraph's inner loop: an edge from `v` to each quoted dependency. */
  method AddQuotedFan(g: Graph, v: string, deps: map<string, DepService>)
    requires g.directed && v in g.adjacency
    modifies g
    ensures g.directed
    ensures g.EdgeSet() == old(g.EdgeSet()) + QuotedFan(v, deps.Keys)
    ensures g.adjacency.Keys == old(g.adjacency.Keys) + Quoted(deps.Keys)
  {
    ghost var E0, K0 := g.EdgeSet(), g.adjacency.Keys;
    var rest := deps.Keys;
    ghost var done: set<string> := {};
    while rest != {}
      invariant g.directed
      invariant FanProgress(E0, K0, v, deps.Keys, rest, done, g.EdgeSet(), g.adjacency.Keys)
      decreases |rest|
    {
      var depservice :| depservice in rest;
      FanProgressStep(E0, K0, v, deps.Keys, rest, done, g.EdgeSet(), g.adjacency.Keys, depservice);
      var d := Sanitize(depservice);
      g.AddEdge(v, d);
      done := done + {depservice};
      rest := rest - {depservice};
    }
    FanProgressDone(E0, K0, v, deps.Keys, done, g.EdgeSet(), g.adjacency.Keys);
  }

  /** One turn of sortableGraph's loop: the quoted service `s` and an edge
      from it to each of its quoted dependencies. */
  method DrawService(g: Graph, s: string, deps: map<string, DepService>)
    requires g.directed
    modifies g
    ensures g.directed
    ensures g.EdgeSet() == old(g.EdgeSet()) + QuotedFan(s, deps.Keys)
    ensures g.adjacency.Keys == old(g.adjacency.Keys) + {s} + Quoted(deps.Keys)
  {
    g.AddVertex(s);
    AddQuotedFan(g, s, deps);
  }

  /** The state of sortableGraph's loop: the services `done` are drawn. */
  ghost predicate DrawProgress(services: map<string, Service>, rest: set<string>, done: set<string>,
                               E: set<Edge>, K: set<string>)
  {
    rest !! done && rest + done == services.Keys &&
    E == SortableEdges(services, done) && K == SortableVertices(services, done)
  }

  lemma DrawProgressStep(services: map<string, Service>, rest: set<string>, done: set<string>,
                         E: set<Edge>, K: set<string>, x: string, E': set<Edge>, K': set<string>)
    requires DrawProgress(services, rest, done, E, K) && x in rest
    requires E' == E + QuotedFan(Sanitize(x), services[x].dependsOn.Keys)
    requires K' == K + {Sanitize(x)} + Quoted(services[x].dependsOn.Keys)
    ensures DrawProgress(services, rest - {x}, done + {x}, E', K')
  {
    SortableEdgesAdd(services, done, x);
    SortableVerticesAdd(services, done, x);
  }

  /** sortableGraph: a directed graph with a vertex per quoted service and
      an edge from it to each of its quoted dependencies. */
  method SortableGraph(services: map<string, Service>) returns (g: Graph)
    ensures fresh(g) && g.directed
    ensures g.EdgeSet() == SortableEdges(services, services.Keys)
    ensures g.adjacency.Keys == SortableVertices(services, services.Keys)
  {
    g := new Graph.NewDigraph();
    var rest := services.Keys;
    ghost var done: set<string> := {};
    while rest != {}
      invariant fresh(g) && g.directed
      invariant DrawProgress(services, rest, done, g.EdgeSet(), g.adjacency.Keys)
      decreases |rest|
    {
      var service :| service in rest;
      ghost var E, K := g.EdgeSet(), g.adjacency.Keys;
      var s := Sanitize(service);
      DrawService(g, s, services[service].dependsOn);
      DrawProgressStep(services, rest, done, E, K, service, g.EdgeSet(), g.adjacency.Keys);
      done := done + {service};
      rest := rest - {service};
    }
    assert done == services.Keys;
  }

  /** The services among `S` without dependencies. */
  ghost function LeavesIn(services: map<string, Service>, S: set<string>): set<string> {
    set s | s in S && s in services && services[s].dependsOn == map[]
  }

  /** The services without dependencies. */
  ghost function Leaves(services: map<string, Service>): set<string> {
    LeavesIn(services, services.Keys)
  }

  /** The state of DeploymentOrder's first loop: the names of the leaves
      among `done` are listed, each once. */
  ghost predicate LeafProgress(services: map<string, Service>, rest: set<string>, done: set<string>, nodeps: seq<string>) {
    rest !! done && rest + done == services.Keys &&
    Elems(nodeps) == Quoted(LeavesIn(services, done)) && NoDuplicates(nodeps)
  }

  lemma LeafProgressStep(services: map<string, Service>, rest: set<string>, done: set<string>, nodeps: seq<string>, x: string)
    requires LeafProgress(services, rest, done, nodeps) && x in rest
    ensures services[x].dependsOn == map[] ==>
      LeafProgress(services, rest - {x}, done + {x}, nodeps + [Sanitize(x)])
    ensures services[x].dependsOn != map[] ==>
      LeafProgress(services, rest - {x}, done + {x}, nodeps)
  {
    if services[x].dependsOn == map[] {
      assert LeavesIn(services, done + {x}) == LeavesIn(services, done) + {x};
      QuotedStep(LeavesIn(services, done), x);
      ConcatDistinct(nodeps, [Sanitize(x)]);
    } else {
      assert LeavesIn(services, done + {x}) == LeavesIn(services, done);
    }
  }

  /** DeploymentOrder's first loop: the quoted names of the services without
      dependencies, each once. */
  method LeafNames(services: map<string, Service>) returns (nodeps: seq<string>)
    ensures Elems(nodeps) == Quoted(Leaves(services)) && NoDuplicates(nodeps)
  {
    nodeps := [];
    var rest := services.Keys;
    ghost var done: set<string> := {};
    while rest != {}
      invariant LeafProgress(services, rest, done, nodeps)
      decreases |rest|
    {
      var serviceName :| serviceName in rest;
      LeafProgressStep(services, rest, done, nodeps, serviceName);
      if services[serviceName].dependsOn == map[] {
        nodeps := nodeps + [Sanitize(serviceName)];
      }
      done := done + {serviceName};
      rest := rest - {serviceName};
    }
    assert done == services.Keys;
  }

  /** `listed` followed by the names of `extra` that are not listed yet, one
      at a time in the order of `extra`. */
  ghost function WithMissing(listed: seq<string>, extra: seq<string>): seq<string>
    decreases |extra|
  {
    if extra == [] then listed
    else WithMissing(if extra[0] in listed then listed else listed + [extra[0]], extra[1..])
  }

  /** DeploymentOrder's second loop: each name of `extra` not listed yet is
      appended, in the order of `extra`. */
  method AppendMissing(reverse: seq<string>, extra: seq<string>) returns (r: seq<string>)
    ensures r == WithMissing(reverse, extra)
    ensures |reverse| <= |r| && r[..|reverse|] == reverse
    ensures Elems(r) == Elems(reverse) + Elems(extra)
    ensures NoDuplicates(reverse) ==> NoDuplicates(r)
  {
    r := reverse;
    for i := 0 to |extra|
      invariant |reverse| <= |r| && r[..|reverse|] == reverse
      invariant Elems(r) == Elems(reverse) + Elems(extra[..i])
      invariant NoDuplicates(reverse) ==> NoDuplicates(r)
      invariant WithMissing(r, extra[i..]) == WithMissing(reverse, extra)
    {
      assert extra[i..][0] == extra[i] && extra[i..][1..] == extra[i + 1..];
      PrefixElems(extra, i);
      var listed := DepsLib.StringsliceContain(r, extra[i]);
      if !listed {
        ElemsSnoc(r, extra[i]);
        if NoDuplicates(r) {
          ConcatDistinct(r, [extra[i]]);
        }
        r := r + [extra[i]];
      }
    }
    assert extra[..|extra|] == extra;
  }

  /** DeploymentOrder's last loop: the list back to front. */
  method BackToFront(reverse: seq<string>) returns (order: seq<string>)
    ensures order == Reversed(reverse)
  {
    order := [];
    var i := |reverse|;
    while i >= 1
      invariant 0 <= i <= |reverse| && |order| == |reverse| - i
      invariant forall k :: 0 <= k < |order| ==> order[k] == reverse[|reverse| - 1 - k]
    {
      order := order + [reverse[i - 1]];
      i := i - 1;
    }
  }

  /** The sorted vertices and the services without dependencies together
      are all vertices of the sortable graph. */
  lemma LeavesCompleteVertices(services: map<string, Service>)
    ensures Endpoints(SortableEdges(services, services.Keys)) + Quoted(Leaves(services)) ==
      SortableVertices(services, services.Keys)
  {
    var E := SortableEdges(services, services.Keys);
    forall v | v in SortableVertices(services, services.Keys)
      ensures v in Endpoints(E) + Quoted(Leaves(services))
    {
      if v in Quoted(services.Keys) {
        var s :| s in services && v == Sanitize(s);
        if services[s].dependsOn != map[] {
          var d :| d in services[s].dependsOn;
          assert Edge(v, Sanitize(d)) in E;
        } else {
          assert s in Leaves(services);
        }
      } else {
        var d :| d in DepsOfServices(services, services.Keys) && v == Sanitize(d);
        var s :| s in services && d in services[s].dependsOn;
        assert Edge(Sanitize(s), v) in E;
      }
    }
  }

  /** What DeploymentOrder makes of a successful sort: the sorted list with
      the missing names of `extra` appended, back to front, lists every
      vertex once and places the end of every edge before its start. */
  lemma DeploymentOrderOfSort(E: set<Edge>, topOrder: seq<string>, reverse: seq<string>, extra: seq<string>)
    requires Elems(topOrder) == Endpoints(E) && NoDuplicates(topOrder)
    requires forall i, j :: 0 <= i < |topOrder| && 0 <= j < |topOrder| && Edge(topOrder[i], topOrder[j]) in E ==> i < j
    requires |topOrder| <= |reverse| && reverse[..|topOrder|] == topOrder && NoDuplicates(reverse)
    ensures var o := Reversed(reverse);
      Elems(o) == Elems(reverse) && NoDuplicates(o) &&
      forall i, j :: 0 <= i < |o| && 0 <= j < |o| && Edge(o[j], o[i]) in E ==> i < j
  {
    ReversedKeepsElems(reverse);
    var o := Reversed(reverse);
    var m := |reverse|;
    forall i, j | 0 <= i < |o| && 0 <= j < |o| && Edge(o[j], o[i]) in E
      ensures i < j
    {
      var a, b := m - 1 - j, m - 1 - i;
      assert o[j] == reverse[a] && o[i] == reverse[b];
      assert reverse[a] in Endpoints(E) && reverse[b] in Endpoints(E);
      InPrefix(topOrder, reverse, a);
      InPrefix(topOrder, reverse, b);
      assert topOrder[a] == reverse[a] && topOrder[b] == reverse[b];
    }
  }

  /** The services of makeTestComp in composition_test.go: a depends on
      c, b on a, and c on nothing. */
  const TestServices: map<string, Service> :=
    map["a" := Service(map["c" := DepService("")]),
        "b" := Service(map["a" := DepService("")]),
        "c" := NewService()]

  /** The graph sortableGraph draws for the test services: the three
      quoted names, an edge from a to c and one from b to a. */
  lemma TestServicesGraph()
    ensures SortableVertices(TestServices, TestServices.Keys) == {"\"a\"", "\"b\"", "\"c\""}
    ensures Edge("\"a\"", "\"c\"") in SortableEdges(TestServices, TestServices.Keys)
    ensures Edge("\"b\"", "\"a\"") in SortableEdges(TestServices, TestServices.Keys)
  {
    var T := TestServices;
    assert Sanitize("a") == "\"a\"" && Sanitize("b") == "\"b\"" && Sanitize("c") == "\"c\"";
    assert T.Keys == {"a", "b", "c"};
    assert DepsOfServices(T, T.Keys) == {"a", "c"} by {
      assert "c" in T["a"].dependsOn && "a" in T["b"].dependsOn;
      assert T["c"].dependsOn == map[];
    }
    assert Quoted({"a", "b", "c"}) == {"\"a\"", "\"b\"", "\"c\""};
    assert Quoted({"a", "c"}) == {"\"a\"", "\"c\""};
    assert "a" in T.Keys && "c" in T["a"].dependsOn;
    assert "b" in T.Keys && "a" in T["b"].dependsOn;
  }

  /** A duplicate-free list of three names that puts the end of each of two
      chained edges before its start is that chain back to front. */
  lemma ChainOrder(E: set<Edge>, order: seq<string>, x: string, y: string, z: string)
    requires x != y && y != z && x != z
    requires Elems(order) == {x, y, z} && NoDuplicates(order)
    requires Edge(y, x) in E && Edge(z, y) in E
    requires forall i, j :: 0 <= i < |order| && 0 <= j < |order| && Edge(order[j], order[i]) in E ==> i < j
    ensures order == [x, y, z]
  {
    DistinctLength(order);
    assert |order| == 3;
    var ix :| 0 <= ix < |order| && order[ix] == x;
    var iy :| 0 <= iy < |order| && order[iy] == y;
    var iz :| 0 <= iz < |order| && order[iz] == z;
    assert ix < iy < iz;
  }

  /** For the test services the only order DeploymentOrder can return is
      "c", "a", "b" (quoted). */
  lemma DeploymentOrderOfTestServices(order: seq<string>)
    requires Elems(order) == SortableVertices(TestServices, TestServices.Keys) && NoDuplicates(order)
    requires
      forall i, j :: 0 <= i < |order| && 0 <= j < |order| &&
        Edge(order[j], order[i]) in SortableEdges(TestServices, TestServices.Keys)
        ==> i < j
    ensures order == ["\"c\"", "\"a\"", "\"b\""]
  {
    TestServicesGraph();
    ChainOrder(SortableEdges(TestServices, TestServices.Keys), order, "\"c\"", "\"a\"", "\"b\"");
  }

  /** For the test services, RecursiveDepsOf("a") keeps a and c. */
  lemma RecursiveDepsOfTestServices()
    ensures !RequestFails(TestServices, "a")
    ensures Reach(TestServices, Requested(TestServices, "a"), Shielded("a")) == {"a", "c"}
  {
    var T := TestServices;
    assert "a"[1..] == [] && "a"[0] == 'a' && !IsSpace('a');
    assert Split("a"[1..], ',') == [""];
    assert ["a"[0]] + Split("a"[1..], ',')[0] == "a";
    assert Split("a", ',') == [["a"[0]] + Split("a"[1..], ',')[0]] + Split("a"[1..], ',')[1..];
    assert Split("a", ',') == ["a"];
    assert TrimLeft("a") == "a" && TrimRight("a") == "a";
    assert TrimSpace("a") == "a";
    assert !HasNotPiece("a");
    assert TrimmedNames("a") == {"a"};
    ReachIsClosed(T, {"a"}, {});
    assert "c" in T["a"].dependsOn;
    ReachWithin(T, {"a"}, {}, {"a", "c"});
  }

  /** In a duplicate-free list that starts with `prefix`, an element of the
      prefix sits at an index inside the prefix. */
  lemma InPrefix(prefix: seq<string>, xs: seq<string>, k: int)
    requires |prefix| <= |xs| && xs[..|prefix|] == prefix && NoDuplicates(xs)
    requires 0 <= k < |xs| && xs[k] in Elems(prefix)
    ensures k < |prefix|
  {
    var i :| 0 <= i < |prefix| && prefix[i] == xs[k];
    assert xs[i] == prefix[i];
  }

  //---------------------------------------------------------------------------
  // The composition
  //---------------------------------------------------------------------------

  /** Composition: the services by name. */
  class Composition {
    var services: map<string, Service>

    /** NewComposition: no services. */
    constructor ()
      ensures services == map[]
    {
      services := map[];
    }

    /** AddService: inserts `name` unless a service of that name exists. */
    method AddService(name: string, service: Service)
      modifies this
      ensures services == WithService(old(services), name, service)
    {
      if name !in services {
        services := services[name := service];
      }
    }

    /** PrepareForOwnDb: drops "postgres" and "consul" and gives every
        other service its own database in place of "postgres". */
    method PrepareForOwnDb()
      modifies this
      ensures services == OwnDb(old(services))
    {
      ghost var before := services;
      var rest := services.Keys;
      while rest != {}
        invariant rest <= before.Keys
        invariant services.Keys == set s | s in before && (s in rest || !IsInfra(s))
        invariant forall s :: s in rest ==> services[s] == before[s]
        invariant forall s :: s in before.Keys - rest && !IsInfra(s) ==>
          services[s] == Service(OwnDbDeps(s, before[s].dependsOn))
        decreases |rest|
      {
        var serviceName :| serviceName in rest;
        rest := rest - {serviceName};
        if serviceName == "postgres" || serviceName == "consul" {
          services := services - {serviceName};
          continue;
        }
        var deps := RenameDbDependency(serviceName, services[serviceName].dependsOn);
        services := services[serviceName := Service(deps)];
      }
      assert services == OwnDb(before);
    }

    /** RecursiveDepsOf: a new composition with the requested services and
        everything they depend on, directly or not; see Requested and
        Shielded for how the request is read. A name that is not a service
        is added, without dependencies, to this composition as well. */
    method RecursiveDepsOf(s: string) returns (newcomp: Composition?, err: Option<NeededService>)
      modifies this
      ensures err.Some? <==> RequestFails(old(services), s)
      ensures err.Some? ==> newcomp == null && services == old(services)
      ensures err.None? ==>
        newcomp != null && fresh(newcomp) &&
        newcomp.services.Keys == Reach(old(services), Requested(old(services), s), Shielded(s)) &&
        services == Extended(old(services), newcomp.services.Keys) &&
        newcomp.services == Copied(old(services), newcomp.services.Keys)
    {
      var todo, added, e := ParseRequest(services, s);
      if e.Some? {
        return null, e;
      }
      ghost var C := Reach(services, todo, Elems(added));
      ReachIsClosed(services, todo, Elems(added));
      var found, grown := Gather(services, todo, added, C);
      ReachWithin(services, todo, Elems(added), found.Keys);
      newcomp := new Composition();
      newcomp.services := found;
      services := grown;
      err := None;
    }

    /** DeploymentOrder: every quoted service and dependency once, each
        dependency before the services that depend on it (the services
        without dependencies that the sort leaves out are added back); an
        error exactly when the dependencies form a cycle. */
    method DeploymentOrder() returns (order: seq<string>, err: Option<SortError>)
      ensures err.Some? <==> exists p :: IsCycle(SortableEdges(services, services.Keys), p)
      ensures err.Some? ==> err == Some(ErrNoDAG) && order == []
      ensures err.None? ==>
        Elems(order) == SortableVertices(services, services.Keys) && NoDuplicates(order) &&
        forall i, j :: 0 <= i < |order| && 0 <= j < |order| &&
          Edge(order[j], order[i]) in SortableEdges(services, services.Keys)
          ==> i < j
    {
      ghost var E := SortableEdges(services, services.Keys);
      var nodeps := LeafNames(services);
      var graph := SortableGraph(services);
      var topOrder, _, e := TopologicalSort(graph);
      KahnFailsIffCycle(E);
      if e.Some? {
        return [], e;
      }
      KahnPermutes(E, Endpoints(E), 0);
      KahnEdgesPointForward(E, Endpoints(E), 0);
      var sorted := Sort(nodeps);
      SortOfDistinct(nodeps);
      var reverse := AppendMissing(topOrder, sorted);
      order := BackToFront(reverse);
      DeploymentOrderOfSort(E, topOrder, reverse, sorted);
      LeavesCompleteVertices(services);
      err := None;
    }

    /** VerifyDependencies: no error exactly when every dependency is a
        service or one of the comma-separated, trimmed names of
        `verifyIgnore`; otherwise the first unresolved dependency found. */
    method VerifyDependencies(verifyIgnore: string) returns (err: Option<UnknownDependency>)
      ensures err.None? <==> Resolved(services, TrimmedNames(verifyIgnore))
      ensures err.Some? ==>
        err.value.service in services && err.value.dep in services[err.value.service].dependsOn &&
        err.value.dep !in TrimmedNames(verifyIgnore) && err.value.dep !in services
    {
      var ignored := SplitTrimmed(verifyIgnore);
      var names := ServiceNames(services);
      var rest := services.Keys;
      while rest != {}
        invariant rest <= services.Keys
        invariant forall s, d :: s in services.Keys - rest && d in services[s].dependsOn ==> d in ignored || d in services
        decreases |rest|
      {
        var serviceName :| serviceName in rest;
        err := CheckDependencies(services, serviceName, ignored, names);
        if err.Some? {
          return;
        }
        rest := rest - {serviceName};
      }
      return None;
    }

    /** Deps: the quoted names of the dependencies of `s`, each once; none
        for an unknown service. */
    method Deps(s: string) returns (deps: seq<string>)
      ensures s !in services ==> deps == []
      ensures s in services ==>
        Elems(deps) == Quoted(services[s].dependsOn.Keys) &&
        NoDuplicates(deps) && |deps| == |services[s].dependsOn|
    {
      deps := [];
      if s in services {
        deps := QuotedDeps(services[s].dependsOn);
      }
    }
  }
}
