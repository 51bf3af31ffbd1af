/**
  `findFile` (src/index.js): a recursive search of a directory tree for
  files whose names end with a suffix. The file system is a finite tree of
  listings; a path is the sequence of its components.
 */
module FileSearch {
  import opened Results
  import opened Text

  /** One entry of a directory listing, in the order `readdir` returns it. */
  datatype Entry = File(name: string) | Dir(name: string, entries: seq<Entry>)

  type Path = seq<string>

  /** A non-directory entry whose name ends with the suffix. */
  predicate IsMatch(e: Entry, suffix: string) {
    e.File? && EndsWith(e.name, suffix)
  }

  /** The index of the first matching entry at or after `from`: the scan of
      one level that stops at the first match. */
  function FirstMatch(entries: seq<Entry>, suffix: string, from: nat): (r: Option<nat>)
    requires from <= |entries|
    ensures r.Some? ==> from <= r.value < |entries| && IsMatch(entries[r.value], suffix)
    ensures r.Some? ==> forall j :: from <= j < r.value ==> !IsMatch(entries[j], suffix)
    ensures r.None? <==> forall j :: from <= j < |entries| ==> !IsMatch(entries[j], suffix)
    decreases |entries| - from
  {
    if from == |entries| then None
    else if IsMatch(entries[from], suffix) then Some(from)
    else FirstMatch(entries, suffix, from + 1)
  }

  /** The search of `dir`, whose listing is `entries`: the first matching
      file of the level if there is one; otherwise, for each subdirectory in
      listing order, the first path its own search returns. Every path
      returned lies below `dir` and ends in the name of a matching file. */
  function FindFile(dir: Path, entries: seq<Entry>, suffix: string): (r: seq<Path>)
    ensures (exists i :: 0 <= i < |entries| && IsMatch(entries[i], suffix)) ==> |r| == 1
    ensures (forall i :: 0 <= i < |entries| ==> !IsMatch(entries[i], suffix)) ==>
              |r| <= SubdirCount(entries)
    ensures forall k :: 0 <= k < |r| ==>
      |r[k]| > |dir| && r[k][..|dir|] == dir && EndsWith(r[k][|r[k]| - 1], suffix)
    decreases entries, 1
  {
    match FirstMatch(entries, suffix, 0)
    case Some(i) =>
      var p := dir + [entries[i].name];
      assert p[..|dir|] == dir;
      [p]
    case None => SearchSubdirs(dir, entries, suffix)
  }

  /** The descent into the subdirectories of a level without a match: every
      subdirectory is searched, and each contributes at most its first
      result, so there are no more paths than subdirectories. */
  function SearchSubdirs(dir: Path, entries: seq<Entry>, suffix: string): (r: seq<Path>)
    ensures |r| <= SubdirCount(entries)
    ensures forall k :: 0 <= k < |r| ==>
      |r[k]| > |dir| && r[k][..|dir|] == dir && EndsWith(r[k][|r[k]| - 1], suffix)
    decreases entries, 0
  {
    if entries == [] then []
    else
      var head := match entries[0]
        case File(_) => []
        case Dir(name, children) =>
          var sub := dir + [name];
          var found := FindFile(sub, children, suffix);
          if found == [] then []
          else
            assert found[0][..|dir|] == sub[..|dir|] == dir;
            [found[0]];
      head + SearchSubdirs(dir, entries[1..], suffix)
  }

  /** Some file anywhere in the tree below this listing matches. */
  predicate HasMatch(entries: seq<Entry>, suffix: string)
    decreases entries
  {
    && entries != []
    && (|| IsMatch(entries[0], suffix)
        || (entries[0].Dir? && HasMatch(entries[0].entries, suffix))
        || HasMatch(entries[1..], suffix))
  }

  /** `rel` leads from this listing to a matching file: each component
      names an entry of the directory reached so far, the last one a
      matching file. */
  predicate Locates(entries: seq<Entry>, rel: Path, suffix: string)
    decreases rel
  {
    && |rel| >= 1
    && exists i :: 0 <= i < |entries| && entries[i].name == rel[0] &&
         if |rel| == 1 then IsMatch(entries[i], suffix)
         else entries[i].Dir? && Locates(entries[i].entries, rel[1..], suffix)
  }

  /** The number of subdirectories in a listing. */
  function SubdirCount(entries: seq<Entry>): (r: nat) {
    if entries == [] then 0
    else (if entries[0].Dir? then 1 else 0) + SubdirCount(entries[1..])
  }

  /** A level with a matching file yields exactly that level's first match,
      whatever its subdirectories hold. */
  lemma FindFileMatchingLevel(dir: Path, entries: seq<Entry>, suffix: string, i: nat)
    requires i < |entries| && IsMatch(entries[i], suffix)
    requires forall j :: 0 <= j < i ==> !IsMatch(entries[j], suffix)
    ensures FindFile(dir, entries, suffix) == [dir + [entries[i].name]]
  {
    var r := FirstMatch(entries, suffix, 0);
    assert r.Some?;
    assert r.value == i;
  }

  /** Below a level without a match, listings are searched independently:
      the result for `a + b` is the result for `a` followed by that for `b`. */
  lemma {:induction false} SearchSubdirsAppend(dir: Path, a: seq<Entry>, b: seq<Entry>, suffix: string)
    ensures SearchSubdirs(dir, a + b, suffix) == SearchSubdirs(dir, a, suffix) + SearchSubdirs(dir, b, suffix)
  {
    if a == [] {
      assert a + b == b;
    } else {
      assert (a + b)[0] == a[0];
      assert (a + b)[1..] == a[1..] + b;
      SearchSubdirsAppend(dir, a[1..], b, suffix);
    }
  }

  /** The result at a level without a match is the concatenation, in listing
      order, of what each entry contributes: nothing for a file, the first
      path found below it for a subdirectory. */
  lemma FindFileNonMatchingLevel(dir: Path, a: seq<Entry>, b: seq<Entry>, suffix: string)
    requires forall i :: 0 <= i < |a + b| ==> !IsMatch((a + b)[i], suffix)
    ensures FindFile(dir, a + b, suffix) == FindFile(dir, a, suffix) + FindFile(dir, b, suffix)
  {
    assert forall i :: 0 <= i < |a| ==> a[i] == (a + b)[i];
    assert forall i :: 0 <= i < |b| ==> b[i] == (a + b)[|a| + i];
    SearchSubdirsAppend(dir, a, b, suffix);
  }

  /** What a single entry contributes to the search of its directory. */
  lemma FindFileSingleEntry(dir: Path, e: Entry, suffix: string)
    ensures e.File? ==> FindFile(dir, [e], suffix) == (if IsMatch(e, suffix) then [dir + [e.name]] else [])
    ensures e.Dir? ==>
      var below := FindFile(dir + [e.name], e.entries, suffix);
      FindFile(dir, [e], suffix) == (if below == [] then [] else [below[0]])
  {
    assert [e][1..] == [];
    assert SearchSubdirs(dir, [], suffix) == [];
    if IsMatch(e, suffix) {
      assert FirstMatch([e], suffix, 0) == Some(0);
    } else {
      assert FirstMatch([e], suffix, 1) == None;
      assert FirstMatch([e], suffix, 0) == None;
      if e.Dir? {
        var below := FindFile(dir + [e.name], e.entries, suffix);
        var head := if below == [] then [] else [below[0]];
        assert SearchSubdirs(dir, [e], suffix) == head + [];
        assert head + [] == head;
      }
    }
  }

  /** The search finds nothing exactly when no file of the tree matches. */
  lemma {:induction false} FindFileEmpty(dir: Path, entries: seq<Entry>, suffix: string)
    ensures FindFile(dir, entries, suffix) == [] <==> !HasMatch(entries, suffix)
    decreases entries, 1
  {
    if FirstMatch(entries, suffix, 0).Some? {
      var i := FirstMatch(entries, suffix, 0).value;
      HasMatchAt(entries, suffix, i);
    } else {
      SearchSubdirsEmpty(dir, entries, suffix);
    }
  }

  lemma {:induction false} SearchSubdirsEmpty(dir: Path, entries: seq<Entry>, suffix: string)
    requires forall j :: 0 <= j < |entries| ==> !IsMatch(entries[j], suffix)
    ensures SearchSubdirs(dir, entries, suffix) == [] <==> !HasMatch(entries, suffix)
    decreases entries, 0
  {
    if entries != [] {
      SearchSubdirsEmpty(dir, entries[1..], suffix);
      match entries[0]
      case File(_) =>
      case Dir(name, children) =>
        FindFileEmpty(dir + [name], children, suffix);
    }
  }

  /** A matching entry at position `i` is a match of the listing. */
  lemma {:induction false} HasMatchAt(entries: seq<Entry>, suffix: string, i: nat)
    requires i < |entries| && IsMatch(entries[i], suffix)
    ensures HasMatch(entries, suffix)
    decreases i
  {
    if i > 0 {
      HasMatchAt(entries[1..], suffix, i - 1);
    }
  }

  /** A path that leads from the tail of a listing also leads from the
      listing. */
  lemma LocatesCons(entries: seq<Entry>, rel: Path, suffix: string)
    requires entries != [] && Locates(entries[1..], rel, suffix)
    ensures Locates(entries, rel, suffix)
  {
    var i :| 0 <= i < |entries[1..]| && entries[1..][i].name == rel[0] &&
         if |rel| == 1 then IsMatch(entries[1..][i], suffix)
         else entries[1..][i].Dir? && Locates(entries[1..][i].entries, rel[1..], suffix);
    assert entries[i + 1] == entries[1..][i];
  }

  /** Every path found lies under `dir` and leads from the listing to a
      matching file. */
  lemma {:induction false} FindFileSound(dir: Path, entries: seq<Entry>, suffix: string)
    ensures forall k :: 0 <= k < |FindFile(dir, entries, suffix)| ==>
      var p := FindFile(dir, entries, suffix)[k];
      |p| > |dir| && p[..|dir|] == dir && Locates(entries, p[|dir|..], suffix)
    decreases entries, 1
  {
    match FirstMatch(entries, suffix, 0)
    case Some(i) =>
      var p := dir + [entries[i].name];
      assert p[..|dir|] == dir;
      assert p[|dir|..] == [entries[i].name];
    case None =>
      SearchSubdirsSound(dir, entries, suffix);
  }

  lemma {:induction false} SearchSubdirsSound(dir: Path, entries: seq<Entry>, suffix: string)
    ensures forall k :: 0 <= k < |SearchSubdirs(dir, entries, suffix)| ==>
      var p := SearchSubdirs(dir, entries, suffix)[k];
      |p| > |dir| && p[..|dir|] == dir && Locates(entries, p[|dir|..], suffix)
    decreases entries, 0
  {
    if entries != [] {
      var tail := SearchSubdirs(dir, entries[1..], suffix);
      SearchSubdirsSound(dir, entries[1..], suffix);
      forall k | 0 <= k < |tail|
        ensures Locates(entries, tail[k][|dir|..], suffix)
      {
        LocatesCons(entries, tail[k][|dir|..], suffix);
      }
      match entries[0]
      case File(_) =>
        assert SearchSubdirs(dir, entries, suffix) == tail;
      case Dir(name, children) =>
        var found := FindFile(dir + [name], children, suffix);
        FindFileSound(dir + [name], children, suffix);
        if found != [] {
          SubdirPathSound(dir, entries, found[0], suffix);
          assert SearchSubdirs(dir, entries, suffix) == [found[0]] + tail;
        } else {
          assert SearchSubdirs(dir, entries, suffix) == tail;
        }
    }
  }

  /** A path found below the first entry, a subdirectory, leads from the
      listing. */
  lemma SubdirPathSound(dir: Path, entries: seq<Entry>, p: Path, suffix: string)
    requires entries != [] && entries[0].Dir?
    requires var sub := dir + [entries[0].name];
      |p| > |sub| && p[..|sub|] == sub && Locates(entries[0].entries, p[|sub|..], suffix)
    ensures |p| > |dir| && p[..|dir|] == dir && Locates(entries, p[|dir|..], suffix)
  {
    var sub := dir + [entries[0].name];
    assert p[..|dir|] == sub[..|dir|] == dir;
    var rel := p[|dir|..];
    assert rel[0] == p[|dir|] == sub[|dir|] == entries[0].name;
    assert rel[1..] == p[|sub|..];
  }

  /** The last component of a located path is the name of a matching file. */
  lemma {:induction false} LocatesEndsWith(entries: seq<Entry>, rel: Path, suffix: string)
    requires Locates(entries, rel, suffix)
    ensures EndsWith(rel[|rel| - 1], suffix)
    decreases rel
  {
    var i :| 0 <= i < |entries| && entries[i].name == rel[0] &&
         if |rel| == 1 then IsMatch(entries[i], suffix)
         else entries[i].Dir? && Locates(entries[i].entries, rel[1..], suffix);
    if |rel| > 1 {
      LocatesEndsWith(entries[i].entries, rel[1..], suffix);
    }
  }

  /** A search that returns only the first match in listing order, files of
      a level before its subdirectories, and stops at the first subdirectory
      that yields one. */
  function FindFirst(dir: Path, entries: seq<Entry>, suffix: string): (r: Option<Path>)
    decreases entries, 1
  {
    match FirstMatch(entries, suffix, 0)
    case Some(i) => Some(dir + [entries[i].name])
    case None => FirstInSubdirs(dir, entries, suffix)
  }

  function FirstInSubdirs(dir: Path, entries: seq<Entry>, suffix: string): (r: Option<Path>)
    decreases entries, 0
  {
    if entries == [] then None
    else match entries[0]
      case File(_) => FirstInSubdirs(dir, entries[1..], suffix)
      case Dir(name, children) =>
        var found := FindFirst(dir + [name], children, suffix);
        if found.Some? then found else FirstInSubdirs(dir, entries[1..], suffix)
  }

  /** The search as written agrees with the first-match search on whether
      anything is found and on the first path; it may return further paths,
      one for each later subdirectory that also holds a match. */
  lemma {:induction false} FindFileFirst(dir: Path, entries: seq<Entry>, suffix: string)
    ensures FindFile(dir, entries, suffix) == [] <==> FindFirst(dir, entries, suffix).None?
    ensures FindFile(dir, entries, suffix) != [] ==>
              FindFile(dir, entries, suffix)[0] == FindFirst(dir, entries, suffix).value
    decreases entries, 1
  {
    if FirstMatch(entries, suffix, 0).None? {
      SearchSubdirsFirst(dir, entries, suffix);
    }
  }

  lemma {:induction false} SearchSubdirsFirst(dir: Path, entries: seq<Entry>, suffix: string)
    ensures SearchSubdirs(dir, entries, suffix) == [] <==> FirstInSubdirs(dir, entries, suffix).None?
    ensures SearchSubdirs(dir, entries, suffix) != [] ==>
              SearchSubdirs(dir, entries, suffix)[0] == FirstInSubdirs(dir, entries, suffix).value
    decreases entries, 0
  {
    if entries != [] {
      SearchSubdirsFirst(dir, entries[1..], suffix);
      match entries[0]
      case File(_) =>
      case Dir(name, children) =>
        FindFileFirst(dir + [name], children, suffix);
    }
  }

  /** The version file found under ProjectSettings, next to an Assets
      folder without one. */
  lemma ProjectSettingsScenario(cwd: Path)
    ensures FindFile(cwd, [Dir("Assets", [File("Main.cs")]),
                           Dir("ProjectSettings", [File("ProjectSettings.asset"), File("ProjectVersion.txt")])],
                     "ProjectVersion.txt")
            == [cwd + ["ProjectSettings", "ProjectVersion.txt"]]
  {
    var suffix := "ProjectVersion.txt";
    var assets := Dir("Assets", [File("Main.cs")]);
    var settings := Dir("ProjectSettings", [File("ProjectSettings.asset"), File("ProjectVersion.txt")]);
    var found := cwd + ["ProjectSettings", "ProjectVersion.txt"];
    assert FindFile(cwd, [assets], suffix) == [] by {
      AssetsScenario(cwd);
    }
    assert FindFile(cwd, [settings], suffix) == [found] by {
      SettingsScenario(cwd);
    }
    FindFileNonMatchingLevel(cwd, [assets], [settings], suffix);
    assert [assets] + [settings] == [assets, settings];
    assert [] + [found] == [found];
  }

  /** A folder with no version file contributes nothing. */
  lemma AssetsScenario(cwd: Path)
    ensures FindFile(cwd, [Dir("Assets", [File("Main.cs")])], "ProjectVersion.txt") == []
  {
    var suffix := "ProjectVersion.txt";
    assert !EndsWith("Main.cs", suffix);
    FindFileSingleEntry(cwd + ["Assets"], File("Main.cs"), suffix);
    FindFileSingleEntry(cwd, Dir("Assets", [File("Main.cs")]), suffix);
  }

  /** The version file is found after another file of the same folder. */
  lemma SettingsScenario(cwd: Path)
    ensures FindFile(cwd, [Dir("ProjectSettings", [File("ProjectSettings.asset"), File("ProjectVersion.txt")])],
                     "ProjectVersion.txt")
            == [cwd + ["ProjectSettings", "ProjectVersion.txt"]]
  {
    var suffix := "ProjectVersion.txt";
    var listing := [File("ProjectSettings.asset"), File("ProjectVersion.txt")];
    assert !EndsWith("ProjectSettings.asset", suffix);
    assert EndsWith("ProjectVersion.txt", suffix);
    FindFileMatchingLevel(cwd + ["ProjectSettings"], listing, suffix, 1);
    assert cwd + ["ProjectSettings"] + ["ProjectVersion.txt"] == cwd + ["ProjectSettings", "ProjectVersion.txt"];
    FindFileSingleEntry(cwd, Dir("ProjectSettings", listing), suffix);
  }

  /** Two sibling folders that each hold a version file: the search returns
      both paths, the first-match search only the first. */
  lemma SiblingMatchesScenario(cwd: Path)
    ensures FindFile(cwd, [Dir("A", [File("ProjectVersion.txt")]), Dir("B", [File("ProjectVersion.txt")])],
                     "ProjectVersion.txt")
            == [cwd + ["A", "ProjectVersion.txt"], cwd + ["B", "ProjectVersion.txt"]]
    ensures FindFirst(cwd, [Dir("A", [File("ProjectVersion.txt")]), Dir("B", [File("ProjectVersion.txt")])],
                      "ProjectVersion.txt")
            == Some(cwd + ["A", "ProjectVersion.txt"])
  {
    var suffix := "ProjectVersion.txt";
    var a := Dir("A", [File(suffix)]);
    var b := Dir("B", [File(suffix)]);
    var found := FindFile(cwd, [a, b], suffix);
    assert found == [cwd + ["A", suffix], cwd + ["B", suffix]] by {
      SingleFolderScenario(cwd, "A", suffix);
      SingleFolderScenario(cwd, "B", suffix);
      FindFileNonMatchingLevel(cwd, [a], [b], suffix);
      assert [a] + [b] == [a, b];
    }
    FindFileFirst(cwd, [a, b], suffix);
  }

  /** A folder that holds just the file searched for. */
  lemma SingleFolderScenario(cwd: Path, name: string, fileName: string)
    ensures FindFile(cwd, [Dir(name, [File(fileName)])], fileName) == [cwd + [name, fileName]]
  {
    var file := File(fileName);
    assert EndsWith(fileName, fileName);
    FindFileMatchingLevel(cwd + [name], [file], fileName, 0);
    assert cwd + [name] + [fileName] == cwd + [name, fileName];
    FindFileSingleEntry(cwd, Dir(name, [file]), fileName);
  }
}
