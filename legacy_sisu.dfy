/**
 * sisu.go of the first-generation command: the same dependency file
 * search, except that the environment part of the names comes from the
 * package-level `environment` setting (the `-environment` flag) and the
 * `env` argument is not used.
 */
module LegacySisu {
  import opened Wrappers
  import opened DepsSisu

  /** depsFileSearchList: the canonical candidate list for the global
      `environment` and the given region, whatever `env` is. */
  method DepsFileSearchList(environment: string, env: string, region: string) returns (fileSearchList: seq<string>)
    ensures fileSearchList == SearchList(environment, region)
  {
    fileSearchList := [];
    if region != "" && environment != "" {
      fileSearchList := fileSearchList + [".deps-" + environment + "-" + region + ".toml"];
    }
    if region != "" {
      fileSearchList := fileSearchList + [".deps-" + region + ".toml"];
    }
    if environment != "" {
      fileSearchList := fileSearchList + [".deps-" + environment + ".toml"];
    }
    fileSearchList := fileSearchList + [DefaultDepsFile];
  }

  /** realDepsToml: the first existing candidate of the list above in `dir`. */
  method RealDepsToml(environment: string, dir: string, env: string, region: string, stat: string -> StatResult)
    returns (file: string, err: Option<LookupError>)
    ensures err.None? ==>
      exists i :: 0 <= i < |SearchList(environment, region)| &&
        file == JoinPath(dir, SearchList(environment, region)[i]) &&
        stat(file) == Exists && AllMissing(dir, SearchList(environment, region)[..i], stat)
    ensures err.Some? && err.value.StatError? ==>
      err.value.path == file &&
      exists i :: 0 <= i < |SearchList(environment, region)| &&
        file == JoinPath(dir, SearchList(environment, region)[i]) &&
        stat(file) == StatFailed && AllMissing(dir, SearchList(environment, region)[..i], stat)
    ensures err.Some? && err.value.NoDepsFile? ==> file == "" && AllMissing(dir, SearchList(environment, region), stat)
    ensures AllMissing(dir, SearchList(environment, region), stat) ==>
      err == Some(NoDepsFile(dir, SearchList(environment, region)))
  {
    var filelist := DepsFileSearchList(environment, env, region);
    file, err := FirstExisting(dir, filelist, stat);
  }
}
