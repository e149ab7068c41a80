/**
 * internal/deps/sisu.go: which dependency file of an app directory applies
 * for a given environment and region. The file system is an oracle `stat`
 * that says, for a path, whether a file is there, is not there, or could
 * not be inspected.
 */
module DepsSisu {
  import opened Wrappers

  /** The file used when no override for the environment or region exists. */
  const DefaultDepsFile: string := ".deps.toml"

  /** The candidate file names, most specific first: environment and
      region, then region, then environment, then the default; a part is
      left out when the name it needs is empty. */
  function SearchList(env: string, region: string): seq<string> {
    (if region != "" && env != "" then [".deps-" + env + "-" + region + ".toml"] else []) +
    (if region != "" then [".deps-" + region + ".toml"] else []) +
    (if env != "" then [".deps-" + env + ".toml"] else []) +
    [DefaultDepsFile]
  }

  /** The list always ends with the default file, and it has one entry
      per non-empty name, one for both together and one for the default. */
  lemma SearchListShape(env: string, region: string)
    ensures var l := SearchList(env, region);
      |l| == 1 + (if region != "" then 1 else 0) + (if env != "" then 1 else 0) +
                 (if region != "" && env != "" then 1 else 0) &&
      l[|l| - 1] == ".deps.toml"
  {
  }

  /** With neither an environment nor a region only the default is searched. */
  lemma SearchListWithoutOverrides()
    ensures SearchList("", "") == [".deps.toml"]
  {
  }

  /** The most specific override present comes first. */
  lemma SearchListFirst(env: string, region: string)
    ensures env != "" && region != "" ==> SearchList(env, region)[0] == ".deps-" + env + "-" + region + ".toml"
    ensures env == "" && region != "" ==> SearchList(env, region)[0] == ".deps-" + region + ".toml"
    ensures env != "" && region == "" ==> SearchList(env, region)[0] == ".deps-" + env + ".toml"
  {
  }

  /** depsFileSearchList: the candidates built by conditional appends. */
  method DepsFileSearchList(env: string, region: string) returns (fileSearchList: seq<string>)
    ensures fileSearchList == SearchList(env, region)
  {
    fileSearchList := [];
    if region != "" && env != "" {
      fileSearchList := fileSearchList + [".deps-" + env + "-" + region + ".toml"];
    }
    if region != "" {
      fileSearchList := fileSearchList + [".deps-" + region + ".toml"];
    }
    if env != "" {
      fileSearchList := fileSearchList + [".deps-" + env + ".toml"];
    }
    fileSearchList := fileSearchList + [DefaultDepsFile];
  }

  /** What `os.Stat` reports for a path. */
  datatype StatResult = Exists | NotExist | StatFailed

  /** Why no dependency file was returned: a path could not be inspected,
      or none of the candidates exists in `dir`. */
  datatype LookupError = StatError(path: string) | NoDepsFile(dir: string, candidates: seq<string>)

  /** `filepath.Join(dir, f)` for a plain file name `f`. */
  function JoinPath(dir: string, f: string): (p: string)
    ensures dir == "" ==> p == f
    ensures dir != "" ==> |p| == |dir| + 1 + |f| && p[..|dir|] == dir && p[|dir| + 1..] == f
  {
    if dir == "" then f else dir + "/" + f
  }

  /** None of the files `fs` exists in `dir`. */
  ghost predicate AllMissing(dir: string, fs: seq<string>, stat: string -> StatResult) {
    forall j :: 0 <= j < |fs| ==> stat(JoinPath(dir, fs[j])) == NotExist
  }

  /** The candidate loop of realDepsToml: the first candidate whose stat
      does not report "not there" decides; if it exists it is returned,
      otherwise its path comes back with the error. When every candidate
      is missing the error names `dir` and the whole list. */
  method FirstExisting(dir: string, filelist: seq<string>, stat: string -> StatResult)
    returns (file: string, err: Option<LookupError>)
    ensures err.None? ==>
      exists i :: 0 <= i < |filelist| && file == JoinPath(dir, filelist[i]) &&
        stat(file) == Exists && AllMissing(dir, filelist[..i], stat)
    ensures err.Some? && err.value.StatError? ==>
      err.value.path == file &&
      exists i :: 0 <= i < |filelist| && file == JoinPath(dir, filelist[i]) &&
        stat(file) == StatFailed && AllMissing(dir, filelist[..i], stat)
    ensures err.Some? && err.value.NoDepsFile? ==>
      file == "" && err.value == NoDepsFile(dir, filelist) && AllMissing(dir, filelist, stat)
    ensures AllMissing(dir, filelist, stat) ==> err == Some(NoDepsFile(dir, filelist))
  {
    for i := 0 to |filelist|
      invariant AllMissing(dir, filelist[..i], stat)
    {
      var f := filelist[i];
      file := JoinPath(dir, f);
      var st := stat(file);
      if st == Exists {
        return file, None;
      } else if st != NotExist {
        return file, Some(StatError(file));
      }
      assert filelist[..i + 1][i] == f;
    }
    assert filelist[..|filelist|] == filelist;
    return "", Some(NoDepsFile(dir, filelist));
  }

  /** realDepsToml: `dir` joined with the first candidate of the search list
      that exists; an error if a candidate cannot be inspected or none
      exists. */
  method RealDepsToml(dir: string, env: string, region: string, stat: string -> StatResult)
    returns (file: string, err: Option<LookupError>)
    ensures err.None? ==>
      exists i :: 0 <= i < |SearchList(env, region)| && file == JoinPath(dir, SearchList(env, region)[i]) &&
        stat(file) == Exists && AllMissing(dir, SearchList(env, region)[..i], stat)
    ensures err.Some? && err.value.StatError? ==>
      err.value.path == file &&
      exists i :: 0 <= i < |SearchList(env, region)| && file == JoinPath(dir, SearchList(env, region)[i]) &&
        stat(file) == StatFailed && AllMissing(dir, SearchList(env, region)[..i], stat)
    ensures err.Some? && err.value.NoDepsFile? ==> file == "" && AllMissing(dir, SearchList(env, region), stat)
    ensures AllMissing(dir, SearchList(env, region), stat) ==> err == Some(NoDepsFile(dir, SearchList(env, region)))
  {
    var filelist := DepsFileSearchList(env, region);
    file, err := FirstExisting(dir, filelist, stat);
  }
}
