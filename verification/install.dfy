/**
  Version precedence, argument assembly and the whole resolution run of
  `main` (src/index.js). Inputs, the host's operating system, processor,
  working directory and file tree are parameters; the PowerShell
  invocation is left out.
 */
module Install {
  import opened Results
  import opened Text
  import opened ModuleTables
  import opened BuildTargets
  import opened Architecture
  import opened FileSearch

  /** The name `findFile` looks for when no version is given. */
  const VersionFileName := "ProjectVersion.txt"

  /** The version argument: an explicit Unity version, or the text placed
      after `-versionFilePath`. */
  datatype VersionArg = UnityVersion(version: string) | VersionFilePath(path: string)

  /** `path.resolve` output for an absolute path given by components: the
      root, then the components separated by `/`. */
  function RenderPath(p: Path): (r: string)
    ensures r != [] && r[0] == '/'
    ensures |p| >= 1 ==> EndsWith(r, p[|p| - 1])
    ensures |p| == 1 ==> r == "/" + p[0]
  {
    var r := "/" + Join(p, "/");
    assert |p| >= 1 ==> EndsWith(r, p[|p| - 1]) by {
      if |p| >= 1 {
        JoinEnd(p, "/");
      }
    }
    r
  }

  /** `path.resolve(dir, name)` at line 125: the directory's rendering, a
      `/`, then the name. */
  lemma RenderPathResolve(dir: Path, name: string)
    requires |dir| >= 1
    ensures RenderPath(dir + [name]) == RenderPath(dir) + "/" + name
  {
    JoinSnoc(dir, name, "/");
  }

  /** A path below a directory renders as the directory's rendering, a
      `/`, and the rest. */
  lemma RenderPathUnder(dir: Path, rel: Path)
    requires |dir| >= 1 && |rel| >= 1
    ensures RenderPath(dir + rel) == RenderPath(dir) + "/" + Join(rel, "/")
  {
    var sep := "/";
    var d := Join(dir, sep);
    var j := Join(rel, sep);
    assert Join(dir + rel, sep) == d + sep + j by {
      JoinAppend(dir, rel, sep);
    }
    assert RenderPath(dir) == sep + d;
    assert RenderPath(dir + rel) == sep + (d + sep + j);
    Regroup(sep, d, j);
  }

  lemma Regroup(sep: string, d: string, j: string)
    ensures sep + (d + sep + j) == sep + d + sep + j
  {
  }

  /** What reaches `-versionFilePath` for a path found below the working
      directory starts with the rendered working directory and a `/`. */
  lemma RenderPathPrefix(dir: Path, rel: Path)
    requires |dir| >= 1 && |rel| >= 1
    ensures RenderPath(dir) + "/" <= RenderPath(dir + rel)
  {
    RenderPathUnder(dir, rel);
    var head := RenderPath(dir) + "/";
    assert RenderPath(dir + rel)[..|head|] == head;
  }

  /** Each path rendered. */
  function RenderAll(ps: seq<Path>): (r: seq<string>) {
    seq(|ps|, i requires 0 <= i < |ps| => RenderPath(ps[i]))
  }

  /** The array `findFile` returns, as template interpolation renders it:
      the rendered paths joined by commas, the empty string for no path. */
  function RenderPaths(ps: seq<Path>): (r: string)
    ensures ps == [] ==> r == ""
    ensures |ps| >= 1 ==> RenderPath(ps[0]) <= r
    ensures |ps| == 1 ==> r == RenderPath(ps[0])
    ensures |ps| >= 2 ==> r == RenderPath(ps[0]) + "," + RenderPaths(ps[1..])
  {
    var all := RenderAll(ps);
    assert |ps| >= 1 ==> RenderPath(ps[0]) <= Join(all, ",") by {
      if |ps| >= 1 {
        JoinPrefix(all, ",");
      }
    }
    assert |ps| >= 2 ==> all[1..] == RenderAll(ps[1..]);
    Join(all, ",")
  }

  /** A non-empty `unity-version` wins; otherwise a non-empty
      `version-file-path` is used as given; otherwise the working directory
      is searched and whatever the search returns is used, even nothing. */
  function ResolveVersion(unityVersion: string, versionFilePath: string, cwd: Path, tree: seq<Entry>): (v: VersionArg)
    ensures unityVersion != "" ==> v == UnityVersion(unityVersion)
    ensures unityVersion == "" && versionFilePath != "" ==> v == VersionFilePath(versionFilePath)
    ensures unityVersion == "" ==> v.VersionFilePath?
  {
    if unityVersion != "" then UnityVersion(unityVersion)
    else if versionFilePath != "" then VersionFilePath(versionFilePath)
    else VersionFilePath(RenderPaths(FindFile(cwd, tree, VersionFileName)))
  }

  /** An explicit version or path makes the result independent of the file
      tree: no search takes place. */
  lemma ExplicitVersionSkipsSearch(unityVersion: string, versionFilePath: string,
                                   cwd: Path, cwd': Path, tree: seq<Entry>, tree': seq<Entry>)
    requires unityVersion != "" || versionFilePath != ""
    ensures ResolveVersion(unityVersion, versionFilePath, cwd, tree)
         == ResolveVersion(unityVersion, versionFilePath, cwd', tree')
  {
  }

  /** With neither input, a tree without any version file still yields a
      (empty) version file path rather than an error. */
  lemma NoVersionFileFound(cwd: Path, tree: seq<Entry>)
    requires !HasMatch(tree, VersionFileName)
    ensures ResolveVersion("", "", cwd, tree) == VersionFilePath("")
  {
    FindFileEmpty(cwd, tree, VersionFileName);
  }

  /** With neither input and at least one version file in the tree, the
      version file path starts with the rendering of the first version file
      in search order. It is exactly that rendering when the search returns
      one path; otherwise the other paths follow, each after a comma. */
  lemma SearchedVersionFile(cwd: Path, tree: seq<Entry>)
    requires HasMatch(tree, VersionFileName)
    ensures FindFirst(cwd, tree, VersionFileName).Some?
    ensures var found := FindFile(cwd, tree, VersionFileName);
      var first := RenderPath(FindFirst(cwd, tree, VersionFileName).value);
      && ResolveVersion("", "", cwd, tree).VersionFilePath?
      && first <= ResolveVersion("", "", cwd, tree).path
      && (|found| == 1 ==> ResolveVersion("", "", cwd, tree).path == first)
      && (|found| >= 2 ==> ResolveVersion("", "", cwd, tree).path == first + "," + RenderPaths(found[1..]))
  {
    FindFileEmpty(cwd, tree, VersionFileName);
    FindFileFirst(cwd, tree, VersionFileName);
  }

  /** Two sibling folders that each hold a version file: both paths are
      passed on, joined by a comma. */
  lemma SiblingVersionFilesScenario(cwd: Path)
    ensures ResolveVersion("", "", cwd,
              [Dir("A", [File("ProjectVersion.txt")]), Dir("B", [File("ProjectVersion.txt")])])
            == VersionFilePath(RenderPath(cwd + ["A", "ProjectVersion.txt"]) + ","
                               + RenderPath(cwd + ["B", "ProjectVersion.txt"]))
  {
    var a := cwd + ["A", VersionFileName];
    var b := cwd + ["B", VersionFileName];
    SiblingMatchesScenario(cwd);
    assert [a, b][1..] == [b];
  }

  /** No version inputs, and a project whose version file sits in
      ProjectSettings: the path found is used. */
  lemma ProjectVersionScenario(cwd: Path)
    ensures ResolveVersion("", "", cwd,
              [Dir("Assets", [File("Main.cs")]),
               Dir("ProjectSettings", [File("ProjectSettings.asset"), File("ProjectVersion.txt")])])
            == VersionFilePath(RenderPath(cwd + ["ProjectSettings", "ProjectVersion.txt"]))
  {
    ProjectSettingsScenario(cwd);
  }

  /** `flag "value"`: the value can be read back from the front of any
      string that starts with the field, unless it holds a double quote. */
  function Field(flag: string, value: string): (r: string)
    ensures '"' !in value ==> forall rest :: ParseField(flag, r + rest) == Some((value, rest))
  {
    var r := flag + "\"" + value + "\"";
    assert '"' !in value ==> forall rest :: ParseField(flag, r + rest) == Some((value, rest)) by {
      if '"' !in value {
        forall rest
          ensures ParseField(flag, r + rest) == Some((value, rest))
        {
          FieldReadBack(flag, value, rest);
        }
      }
    }
    r
  }

  /** The argument string handed to the install script: the modules list,
      then exactly one of the version file path or the Unity version, then
      the architecture, each value in double quotes. Read back, it gives
      the three values it was built from, provided none of them holds a
      double quote. */
  function BuildArgs(modules: string, version: VersionArg, architecture: string): (r: string)
    ensures '"' !in modules && '"' !in architecture && QuoteFree(version) ==>
              ParseArgs(r) == Some(Args(modules, version, architecture))
  {
    var archField := Field("-architecture ", architecture);
    var tail2 := " " + archField;
    var versionField := VersionField(version);
    var tail1 := " " + (versionField + tail2);
    var r := Field("-modulesList ", modules) + " " + versionField + " " + archField;
    assert r == Field("-modulesList ", modules) + tail1;
    assert '"' !in modules && '"' !in architecture && QuoteFree(version) ==>
             ParseArgs(r) == Some(Args(modules, version, architecture)) by {
      if '"' !in modules && '"' !in architecture && QuoteFree(version) {
        assert ParseField("-modulesList ", r) == Some((modules, tail1));
        StripSpace(versionField + tail2);
        assert ParseVersion(versionField + tail2) == Some((version, tail2));
        StripSpace(archField);
        assert ParseField("-architecture ", archField + []) == Some((architecture, []));
        assert archField + [] == archField;
      }
    }
    r
  }

  /** The version field: its flag names which kind of version it carries,
      and the version can be read back from it. */
  function VersionField(version: VersionArg): (r: string)
    ensures QuoteFree(version) ==> forall rest :: ParseVersion(r + rest) == Some((version, rest))
  {
    match version
    case VersionFilePath(p) => Field("-versionFilePath ", p)
    case UnityVersion(u) =>
      var r := Field("-unityVersion ", u);
      assert forall rest :: ParseField("-versionFilePath ", r + rest) == None by {
        forall rest
          ensures ParseField("-versionFilePath ", r + rest) == None
        {
          UnityVersionFieldIsNotPath(u, rest);
        }
      }
      r
  }

  predicate QuoteFree(version: VersionArg) {
    match version
    case VersionFilePath(p) => '"' !in p
    case UnityVersion(u) => '"' !in u
  }

  /** The three values an argument string carries. */
  datatype Args = Args(modules: string, version: VersionArg, architecture: string)

  /** The text before the first double quote, and the text after it. */
  function UntilQuote(s: string): (r: Option<(string, string)>)
    ensures r.Some? ==> '"' !in r.value.0 && s == r.value.0 + "\"" + r.value.1
    ensures r.None? <==> '"' !in s
  {
    if s == [] then None
    else if s[0] == '"' then Some(([], s[1..]))
    else
      match UntilQuote(s[1..])
      case None => None
      case Some(p) => Some(([s[0]] + p.0, p.1))
  }

  function StripPrefix(prefix: string, s: string): (r: Option<string>)
    ensures r.Some? ==> s == prefix + r.value
  {
    if |prefix| <= |s| && s[..|prefix|] == prefix then Some(s[|prefix|..]) else None
  }

  /** Reads `flag "value"` off the front of `s`. */
  function ParseField(flag: string, s: string): (r: Option<(string, string)>) {
    var rest :- StripPrefix(flag + "\"", s);
    UntilQuote(rest)
  }

  /** Reads an argument string back into its three values. */
  function ParseArgs(s: string): (r: Option<Args>) {
    var modules :- ParseField("-modulesList ", s);
    var afterModules :- StripPrefix(" ", modules.1);
    var version :- ParseVersion(afterModules);
    var afterVersion :- StripPrefix(" ", version.1);
    var architecture :- ParseField("-architecture ", afterVersion);
    if architecture.1 == [] then Some(Args(modules.0, version.0, architecture.0)) else None
  }

  /** Reads the version field off the front of `s`, whichever flag it has. */
  function ParseVersion(s: string): (r: Option<(VersionArg, string)>) {
    match ParseField("-versionFilePath ", s)
    case Some(p) => Some((VersionFilePath(p.0), p.1))
    case None =>
      match ParseField("-unityVersion ", s)
      case Some(p) => Some((UnityVersion(p.0), p.1))
      case None => None
  }

  lemma {:induction false} UntilQuoteAppend(value: string, rest: string)
    requires '"' !in value
    ensures UntilQuote(value + "\"" + rest) == Some((value, rest))
  {
    if value == [] {
      assert value + "\"" + rest == "\"" + rest;
      assert ("\"" + rest)[1..] == rest;
    } else {
      var s := value + "\"" + rest;
      assert s[0] == value[0];
      assert s[1..] == value[1..] + "\"" + rest;
      UntilQuoteAppend(value[1..], rest);
      assert [value[0]] + value[1..] == value;
    }
  }

  lemma FieldReadBack(flag: string, value: string, rest: string)
    requires '"' !in value
    ensures ParseField(flag, flag + "\"" + value + "\"" + rest) == Some((value, rest))
  {
    var s := flag + "\"" + value + "\"" + rest;
    var open := flag + "\"";
    assert s == open + (value + "\"" + rest);
    assert s[..|open|] == open;
    assert s[|open|..] == value + "\"" + rest;
    UntilQuoteAppend(value, rest);
  }

  /** The two version flags are told apart by their first letters. */
  lemma UnityVersionFieldIsNotPath(u: string, rest: string)
    ensures ParseField("-versionFilePath ", "-unityVersion " + "\"" + u + "\"" + rest) == None
  {
    var s := "-unityVersion " + "\"" + u + "\"" + rest;
    var open := "-versionFilePath " + "\"";
    assert s[1] == 'u';
    if |open| <= |s| {
      assert s[..|open|][1] != open[1];
    }
  }

  lemma StripSpace(s: string)
    ensures StripPrefix(" ", " " + s) == Some(s)
  {
    assert (" " + s)[..1] == " ";
    assert (" " + s)[1..] == s;
  }

  /** Without escaping, a double quote inside a value lets two different
      triples produce the same argument string: a modules list that ends
      in `" -unityVersion "v` reads exactly like a second version flag. */
  lemma ArgsCollision(m: string, v: string, w: string, a: string)
    ensures BuildArgs(m + "\" -unityVersion \"" + v, UnityVersion(w), a)
         == BuildArgs(m, UnityVersion(v + "\" -unityVersion \"" + w), a)
  {
    var q := "\"";
    var glue := "\" -unityVersion \"";
    assert glue == q + " " + "-unityVersion " + q;
    var tail := " " + Field("-architecture ", a);
    assert BuildArgs(m + glue + v, UnityVersion(w), a)
        == ("-modulesList " + q + (m + glue + v) + q) + " " + ("-unityVersion " + q + w + q) + tail;
    assert BuildArgs(m, UnityVersion(v + glue + w), a)
        == ("-modulesList " + q + m + q) + " " + ("-unityVersion " + q + (v + glue + w) + q) + tail;
    QuotedShift("-modulesList " + q, m, v, w, q, " ", "-unityVersion ", tail);
  }

  /** Moving a closing quote, a separator and an opening flag from one
      quoted value to the next leaves the concatenation unchanged. */
  lemma QuotedShift(p: string, m: string, v: string, w: string, q: string, sp: string, u: string, t: string)
    ensures (p + (m + (q + sp + u + q) + v) + q) + sp + (u + q + w + q) + t
         == (p + m + q) + sp + (u + q + (v + (q + sp + u + q) + w) + q) + t
  {
  }

  /** The action inputs, as `core.getInput` returns them. */
  datatype Inputs = Inputs(
    architecture: string,
    buildTargets: string,
    modules: string,
    unityVersion: string,
    versionFilePath: string)

  /** What the host reports: `os.type()`, `os.arch()`, the working directory
      and the file tree below it. */
  datatype Host = Host(osType: string, osArch: string, cwd: Path, tree: seq<Entry>)

  /** A successful run: the arguments for the install script and the
      warnings emitted on the way. */
  datatype Invocation = Invocation(args: string, warnings: seq<string>)

  /** The prefix `setFailed` puts before the message of the error caught in
      `main`. */
  function FailureMessage(message: string): (r: string)
    ensures "Unity Installation Failed! " <= r && EndsWith(r, message)
  {
    "Unity Installation Failed! " + message
  }

  /** The resolution part of `main`: the architecture default, then the
      modules (an explicit list when no build targets are given, otherwise
      the targets resolved on the host's table), then the version, then the
      argument string. */
  method Run(inputs: Inputs, host: Host) returns (r: Result<Invocation, string>)
    ensures r.Failure? <==> inputs.buildTargets != "" && !IsSupported(host.osType)
    ensures r.Failure? ==> r.error == FailureMessage(host.osType + " not supported")
    ensures r.Success? ==>
      var architecture := DefaultArchitecture(inputs.architecture, host.osType, host.osArch);
      var version := ResolveVersion(inputs.unityVersion, inputs.versionFilePath, host.cwd, host.tree);
      if inputs.buildTargets == "" then
        && r.value.args == BuildArgs(Join(Tokenize(inputs.modules), ","), version, architecture)
        && r.value.warnings == []
      else
        var table := TableFor(host.osType).value;
        var targets := Tokenize(inputs.buildTargets);
        && r.value.args == BuildArgs(Join(Mapped(table, targets), " "), version, architecture)
        && r.value.warnings == Warnings(table, targets)
  {
    var architecture := DefaultArchitecture(inputs.architecture, host.osType, host.osArch);
    var modules: string;
    var warnings: seq<string> := [];
    if inputs.buildTargets == "" {
      modules := Join(Tokenize(inputs.modules), ",");
    } else {
      var resolved := ResolveBuildTargets(host.osType, inputs.buildTargets);
      if resolved.Failure? {
        return Failure(FailureMessage(resolved.error));
      }
      modules := resolved.value.modules;
      warnings := resolved.value.warnings;
    }
    var version := ResolveVersion(inputs.unityVersion, inputs.versionFilePath, host.cwd, host.tree);
    return Success(Invocation(BuildArgs(modules, version, architecture), warnings));
  }
}
